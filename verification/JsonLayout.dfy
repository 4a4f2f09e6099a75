/** The layout Json::StyledWriter is to give a document, as a function of the value alone. */
module JsonLayout {
  import opened JsonValue
  import opened JsonNumbers
  import opened JsonStrings
  import opened Sequences
  import opened JsonGrammar
  import opened JsonText
  import opened JsonSyntax
  import opened JsonLiterals
  import opened JsonTree
  import opened JsonStyled

  // ---------- The layout ----------

  /** Three blanks per level. */
  function Margin(depth: nat): (r: string)
    ensures |r| == 3 * depth && forall i | 0 <= i < |r| :: r[i] == ' '
  {
    if depth == 0 then "" else Margin(depth - 1) + "   "
  }

  /** What separates a closing bracket from the value in front of it: a new line, unless a blank stands
      there already, as it does when nothing was written for the value. */
  function Break(last: string, depth: nat): string {
    if last == "" || last[|last| - 1] == ' ' then ""
    else (if last[|last| - 1] == '\n' then "" else "\n") + Margin(depth)
  }

  /** The texts of scalars and empty containers with commas between them. */
  function Joined(elems: seq<Value>): string {
    if elems == [] then ""
    else Joined(elems[..|elems| - 1]) + (if |elems| == 1 then "" else ", ") + Text(elems[|elems| - 1], ":")
  }

  function OneLine(elems: seq<Value>): string { "[ " + Joined(elems) + " ]" }

  /** Nothing but scalars and empty containers, fewer than 25 of them, and a line of less than 74
      characters. */
  predicate FitsOnLine(elems: seq<Value>) {
    (forall i | 0 <= i < |elems| :: IsLeaf(elems[i])) && |elems| * 3 < 74 && |OneLine(elems)| < 74
  }

  /** The text of a value inside `depth` containers. */
  function Layout(v: Value, depth: nat): string
    decreases v, 1
  {
    match v
    case Arr(elems) =>
      if elems == [] then "[]"
      else if FitsOnLine(elems) then OneLine(elems)
      else "[" + ElementLines(elems, depth + 1) + Break(Layout(elems[|elems| - 1], depth + 1), depth) + "]"
    case Obj(members) =>
      if members == [] then "{}"
      else
        "{" + MemberLines(members, depth + 1) + Break(Layout(members[|members| - 1].value, depth + 1), depth) + "}"
    case _ => Text(v, ":")
  }

  /** Every element on a line of its own. */
  function ElementLines(elems: seq<Value>, depth: nat): string
    decreases elems, 0
  {
    if elems == [] then ""
    else
      ElementLines(elems[..|elems| - 1], depth) + Comma(|elems| == 1) + ElementLine(elems[|elems| - 1], depth)
  }

  function ElementLine(v: Value, depth: nat): string
    decreases v, 2
  {
    "\n" + Margin(depth) + Layout(v, depth)
  }

  /** Every member on a line of its own, with its name cut at a null byte. */
  function MemberLines(members: seq<Member>, depth: nat): string
    decreases members, 0
  {
    if members == [] then ""
    else
      MemberLines(members[..|members| - 1], depth) + Comma(|members| == 1)
      + MemberLine(members[|members| - 1], depth)
  }

  function MemberLine(m: Member, depth: nat): string
    decreases m, 2
  {
    "\n" + Margin(depth) + Quote(CString(m.name)) + " : " + Layout(m.value, depth)
  }

  lemma LeafLayout(v: Value, depth: nat)
    requires IsLeaf(v)
    ensures Layout(v, depth) == Text(v, ":")
  {
    hide IntText, Quote;
  }

  /** The number of characters in the texts of the elements. */
  function Lengths(elems: seq<Value>): nat {
    if elems == [] then 0 else Lengths(elems[..|elems| - 1]) + |Text(elems[|elems| - 1], ":")|
  }

  lemma NoChildren()
    ensures Lengths([]) == 0
  {
  }

  lemma NextLength(elems: seq<Value>, i: nat)
    requires i < |elems|
    ensures Lengths(elems[..i + 1]) == Lengths(elems[..i]) + |Text(elems[i], ":")|
  {
    hide Text;
    assert elems[..i + 1][..i] == elems[..i];
  }

  lemma {:induction false} JoinedLength(elems: seq<Value>)
    requires elems != []
    ensures |Joined(elems)| == (|elems| - 1) * 2 + Lengths(elems)
    decreases |elems|
  {
    hide Text;
    if |elems| > 1 {
      JoinedLength(elems[..|elems| - 1]);
    } else {
      assert Joined(elems[..0]) == "" && Lengths(elems[..0]) == 0;
    }
  }

  /** The brackets with a blank each, a comma and a blank between elements, and the elements. */
  lemma LineLength(elems: seq<Value>)
    requires elems != []
    ensures |OneLine(elems)| == 4 + (|elems| - 1) * 2 + Lengths(elems)
  {
    hide Joined, Lengths;
    JoinedLength(elems);
  }

  // ---------- A layout is a tree with white space ----------

  lemma MarginsAreGaps(depth: nat, last: string)
    ensures IsGap(Margin(depth)) && IsGap("\n" + Margin(depth)) && IsGap(Break(last, depth)) && IsGap("") && IsGap(" ")
  {
    hide Margin;
  }

  /** An element with white space in front of it. */
  lemma ItemLays(gap: string, j: Json, v: Value)
    requires IsGap(gap) && Lays(j, v)
    ensures LaysItem(Item(gap, j, ""), v) && SpellItem(Item(gap, j, "")) == gap + Spell(j)
  {
    NoGap();
    assert gap + Spell(j) + "" == gap + Spell(j);
  }

  lemma ItemAppended(items: seq<Item>, item: Item)
    ensures SpellItems(items + [item]) == SpellItems(items) + Comma(items == []) + SpellItem(item)
  {
    hide SpellItem;
    assert (items + [item])[..|items|] == items;
  }

  lemma PairAppended(pairs: seq<Pair>, pair: Pair)
    ensures SpellMembers(pairs + [pair]) == SpellMembers(pairs) + Comma(pairs == []) + SpellPair(pair)
  {
    hide SpellPair;
    assert (pairs + [pair])[..|pairs|] == pairs;
  }

  lemma LeafTree(v: Value) returns (j: Json)
    requires IsLeaf(v)
    ensures Lays(j, v) && Spell(j) == Text(v, ":")
  {
    j := Tree(v, "");
    LeafLays(v);
    TreeSpells(v, "");
    assert ":" + "" == ":";
  }

  lemma JoinedSpells(front: string, first: bool, text: string)
    requires first ==> front == ""
    ensures (if first then "" else " " + front) + Comma(first) + (" " + text)
         == " " + (front + (if first then "" else ", ") + text)
  {
    assert first ==> "" + "" + (" " + text) == " " + ("" + "" + text);
    assert !first ==> (" " + front) + "," + (" " + text) == " " + (front + ", " + text);
  }

  lemma {:induction false} LineLays(elems: seq<Value>) returns (items: seq<Item>)
    requires forall i | 0 <= i < |elems| :: IsLeaf(elems[i])
    ensures |items| == |elems| && forall i | 0 <= i < |items| :: LaysItem(items[i], elems[i])
    ensures elems != [] ==> SpellItems(items) == " " + Joined(elems)
    decreases |elems|
  {
    hide Lays, LaysItem, SpellItem, SpellItems, Spell, Text, IsGap;
    items := [];
    if elems != [] {
      var n := |elems| - 1;
      items := LineLays(elems[..n]);
      var j := LeafTree(elems[n]);
      MarginsAreGaps(0, "");
      ItemLays(" ", j, elems[n]);
      ItemAppended(items, Item(" ", j, ""));
      if n == 0 {
        NothingSpelled();
        assert Joined(elems[..0]) == "";
      }
      JoinedSpells(Joined(elems[..n]), n == 0, Spell(j));
      items := items + [Item(" ", j, "")];
    }
  }

  lemma {:induction false} ElementsLay(elems: seq<Value>, depth: nat) returns (items: seq<Item>)
    ensures |items| == |elems| && forall i | 0 <= i < |items| :: LaysItem(items[i], elems[i])
    ensures SpellItems(items) == ElementLines(elems, depth)
    decreases elems, 0
  {
    hide Lays, LaysItem, SpellItem, Spell, Layout, IsGap;
    items := [];
    if elems != [] {
      var n := |elems| - 1;
      items := ElementsLay(elems[..n], depth);
      var j := LayoutLays(elems[n], depth);
      MarginsAreGaps(depth, "");
      ItemLays("\n" + Margin(depth), j, elems[n]);
      ItemAppended(items, Item("\n" + Margin(depth), j, ""));
      items := items + [Item("\n" + Margin(depth), j, "")];
    }
  }

  lemma {:induction false} MemberLays(m: Member, depth: nat) returns (pair: Pair)
    ensures LaysPair(pair, m) && SpellPair(pair) == MemberLine(m, depth)
    decreases m, 2
  {
    hide Escape, Spell, Layout, IsGap;
    var j := LayoutLays(m.value, depth);
    MarginsAreGaps(depth, "");
    var gap, quoted := "\n" + Margin(depth), Quote(CString(m.name));
    pair := Pair(gap, Escape(CString(m.name)), " ", " ", j, "");
    assert " " + ":" + " " == " : ";
    assert gap + quoted + (" " + ":") + " " + Spell(j) + "" == gap + quoted + " : " + Spell(j);
  }

  lemma {:induction false} MembersLay(members: seq<Member>, depth: nat) returns (pairs: seq<Pair>)
    ensures |pairs| == |members| && forall i | 0 <= i < |pairs| :: LaysPair(pairs[i], members[i])
    ensures SpellMembers(pairs) == MemberLines(members, depth)
    decreases members, 0
  {
    hide LaysPair, SpellPair, MemberLine;
    pairs := [];
    if members != [] {
      var n := |members| - 1;
      pairs := MembersLay(members[..n], depth);
      var pair := MemberLays(members[n], depth);
      PairAppended(pairs, pair);
      pairs := pairs + [pair];
    }
  }

  lemma Enclosing(open: string, inner: string, gap: string, close: string)
    ensures open + inner + (gap + close) == open + inner + gap + close
  {
  }

  lemma {:induction false} LayoutLays(v: Value, depth: nat) returns (j: Json)
    ensures Lays(j, v) && Spell(j) == Layout(v, depth)
    decreases v, 1
  {
    hide Lays, LaysItem, LaysPair, SpellItems, SpellMembers, Text, IsGap, ElementLines, MemberLines, Break, FitsOnLine;
    if IsLeaf(v) {
      j := LeafTree(v);
      LeafLayout(v, depth);
    } else {
      match v {
        case Arr(elems) => j := ArrayLayoutLays(elems, depth);
        case Obj(members) =>
          var pairs := MembersLay(members, depth + 1);
          var gap := Break(Layout(members[|members| - 1].value, depth + 1), depth);
          MarginsAreGaps(depth, Layout(members[|members| - 1].value, depth + 1));
          ObjectLays(pairs, gap, members);
          j := Object(pairs, gap);
          Enclosing("{", SpellMembers(pairs), gap, "}");
      }
    }
  }

  lemma {:induction false} ArrayLayoutLays(elems: seq<Value>, depth: nat) returns (j: Json)
    requires elems != []
    ensures Lays(j, Arr(elems)) && Spell(j) == Layout(Arr(elems), depth)
    decreases elems, 1
  {
    hide Lays, LaysItem, SpellItems, IsGap, ElementLines, Break, Joined;
    var items, gap;
    if FitsOnLine(elems) {
      items := LineLays(elems);
      gap := " ";
      MarginsAreGaps(depth, "");
      assert "[" + (" " + Joined(elems)) + (" " + "]") == "[ " + Joined(elems) + " ]";
    } else {
      items := ElementsLay(elems, depth + 1);
      gap := Break(Layout(elems[|elems| - 1], depth + 1), depth);
      MarginsAreGaps(depth, Layout(elems[|elems| - 1], depth + 1));
      Enclosing("[", SpellItems(items), gap, "]");
    }
    ArrayLays(items, gap, elems);
    j := Array(items, gap);
  }

  /** A layout with its line feed is a styled document. */
  lemma LayoutStyles(v: Value)
    ensures Styles(Layout(v, 0) + "\n", v)
  {
    hide Lays, Layout, IsGap;
    var j := LayoutLays(v, 0);
    MarginsAreGaps(0, "");
    assert "" + Spell(j) + "\n" == Layout(v, 0) + "\n";
  }
}
