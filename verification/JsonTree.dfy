/** The syntax tree of a value, and what white space does to a tree. */
module JsonTree {
  import opened Wrappers
  import opened JsonValue
  import opened JsonNumbers
  import opened JsonStrings
  import opened JsonGrammar
  import opened JsonText
  import opened JsonSyntax

  // ---------- The tree of a value ----------

  /** The compact tree, with a gap behind every colon. */
  function Tree(v: Value, gap: string): Json
    decreases v, 1
  {
    match v
    case Null => Word("null")
    case Int(n) => Word(IntText(n))
    case UInt(u) => Word(IntText(u))
    case Real(text) => Word(text)
    case NoStr => Word("")
    case Str(s) => Quoted(Escape(s))
    case Bool(b) => Word(BoolText(b))
    case Arr(elems) => Array(TreeItems(elems, gap), "")
    case Obj(members) => Object(TreePairs(members, gap), "")
  }

  function TreeItems(elems: seq<Value>, gap: string): (r: seq<Item>)
    ensures |r| == |elems| && forall i | 0 <= i < |elems| :: r[i] == Item("", Tree(elems[i], gap), "")
    decreases elems, 0
  {
    if elems == [] then [] else [Item("", Tree(elems[0], gap), "")] + TreeItems(elems[1..], gap)
  }

  function TreePair(m: Member, gap: string): Pair
    decreases m, 2
  {
    Pair("", Escape(m.name), "", gap, Tree(m.value, gap), "")
  }

  function TreePairs(members: seq<Member>, gap: string): (r: seq<Pair>)
    ensures |r| == |members| && forall i | 0 <= i < |members| :: r[i] == TreePair(members[i], gap)
    decreases members, 0
  {
    if members == [] then [] else [TreePair(members[0], gap)] + TreePairs(members[1..], gap)
  }

  /** The text FastWriter writes is the one of the tree. */
  lemma {:induction false} TreeSpells(v: Value, gap: string)
    ensures Spell(Tree(v, gap)) == Text(v, ":" + gap)
    decreases v, 3
  {
    hide SpellItems, SpellMembers, ItemsText, MembersText, TreeItems, TreePairs, IntText, Escape;
    match v {
      case Arr(elems) => ArrayTreeSpells(elems, gap);
      case Obj(members) => ObjectTreeSpells(members, gap);
      case _ =>
    }
  }

  /** The pieces of the text of an array tree without gaps. */
  lemma ArrayTreeText(elems: seq<Value>, gap: string)
    ensures Spell(Tree(Arr(elems), gap)) == "[" + (SpellItems(TreeItems(elems, gap)) + "]")
  {
    hide SpellItems, TreeItems;
    var t := SpellItems(TreeItems(elems, gap));
    assert "" + "]" == "]";
    assert "[" + t + "]" == "[" + (t + "]");
  }

  lemma FirstItemText(elems: seq<Value>, colon: string)
    ensures ItemsText(elems, true, colon) ==
              if elems == [] then "]" else Text(elems[0], colon) + ItemsText(elems[1..], false, colon)
  {
    hide Text;
    if elems != [] {
      assert "" + Text(elems[0], colon) == Text(elems[0], colon);
    }
  }

  lemma {:induction false} TreeItemsSpell(elems: seq<Value>, gap: string)
    ensures SpellItems(TreeItems(elems, gap)) + "]" == ItemsText(elems, true, ":" + gap)
    decreases elems, 1
  {
    hide SpellItem, SpellItems, ItemsText, ItemsTail, Tree, Text, Spell;
    var items := TreeItems(elems, gap);
    FirstItemText(elems, ":" + gap);
    if elems == [] {
      NothingSpelled();
      assert "" + "]" == "]";
    } else {
      ItemsFromFront(items, "");
      assert "" + "]" == "]";
      ItemTreeSpells(elems[0], gap);
      ItemsTreeSpell(elems[1..], gap);
      assert items[1..] == TreeItems(elems[1..], gap);
    }
  }

  lemma NothingSpelled()
    ensures SpellItems([]) == "" && SpellMembers([]) == ""
  {
  }

  lemma {:induction false} ArrayTreeSpells(elems: seq<Value>, gap: string)
    ensures Spell(Tree(Arr(elems), gap)) == Text(Arr(elems), ":" + gap)
    decreases elems, 2
  {
    hide SpellItem, SpellItems, ItemsText, Tree, Text, Spell, TreeItems;
    ArrayTreeText(elems, gap);
    TreeItemsSpell(elems, gap);
    ArrayText(elems, ":" + gap);
    assert elems[0..] == elems;
  }

  lemma {:induction false} ItemTreeSpells(v: Value, gap: string)
    ensures SpellItem(Item("", Tree(v, gap), "")) == Text(v, ":" + gap)
    decreases v, 4
  {
    hide Tree, Text, Spell;
    TreeSpells(v, gap);
    assert "" + Text(v, ":" + gap) + "" == Text(v, ":" + gap);
  }

  lemma {:induction false} ItemsTreeSpell(elems: seq<Value>, gap: string)
    ensures ItemsTail(TreeItems(elems, gap), "") == ItemsText(elems, false, ":" + gap)
    decreases elems, 0
  {
    hide Tree, Text, SpellItem;
    if elems == [] {
      assert "" + "]" == "]";
    } else {
      ItemTreeSpells(elems[0], gap);
      ItemsTreeSpell(elems[1..], gap);
      assert TreeItems(elems, gap)[1..] == TreeItems(elems[1..], gap);
    }
  }

  lemma ObjectTreeText(members: seq<Member>, gap: string)
    ensures Spell(Tree(Obj(members), gap)) == "{" + (SpellMembers(TreePairs(members, gap)) + "}")
  {
    hide SpellMembers, TreePairs;
    var t := SpellMembers(TreePairs(members, gap));
    assert "" + "}" == "}";
    assert "{" + t + "}" == "{" + (t + "}");
  }

  lemma FirstMemberText(members: seq<Member>, colon: string)
    ensures MembersText(members, true, colon) ==
              if members == [] then "}" else MemberText(members[0], colon) + MembersText(members[1..], false, colon)
  {
    hide MemberText;
    if members != [] {
      assert "" + MemberText(members[0], colon) == MemberText(members[0], colon);
    }
  }

  lemma {:induction false} TreePairsSpell(members: seq<Member>, gap: string)
    ensures SpellMembers(TreePairs(members, gap)) + "}" == MembersText(members, true, ":" + gap)
    decreases members, 1
  {
    hide SpellPair, SpellMembers, MembersText, MembersTail, TreePair, MemberText;
    var pairs := TreePairs(members, gap);
    FirstMemberText(members, ":" + gap);
    if members == [] {
      NothingSpelled();
      assert "" + "}" == "}";
    } else {
      MembersFromFront(pairs, "");
      assert "" + "}" == "}";
      PairTreeSpells(members[0], gap);
      PairsTreeSpell(members[1..], gap);
      assert pairs[1..] == TreePairs(members[1..], gap);
    }
  }

  lemma {:induction false} ObjectTreeSpells(members: seq<Member>, gap: string)
    ensures Spell(Tree(Obj(members), gap)) == Text(Obj(members), ":" + gap)
    decreases members, 2
  {
    hide SpellPair, SpellMembers, MembersText, Tree, Text, Spell, TreePairs;
    ObjectTreeText(members, gap);
    TreePairsSpell(members, gap);
    ObjectText(members, ":" + gap);
    assert members[0..] == members;
  }

  lemma {:induction false} PairTreeSpells(m: Member, gap: string)
    ensures SpellPair(TreePair(m, gap)) == MemberText(m, ":" + gap)
    decreases m, 4
  {
    hide Tree, Text, Spell, Escape;
    TreeSpells(m.value, gap);
    var t := Text(m.value, ":" + gap);
    assert SpellPair(TreePair(m, gap)) == "" + Quote(m.name) + ("" + ":") + gap + t + "";
    assert "" + Quote(m.name) + ("" + ":") + gap + t + "" == Quote(m.name) + (":" + gap) + t;
  }

  lemma {:induction false} PairsTreeSpell(members: seq<Member>, gap: string)
    ensures MembersTail(TreePairs(members, gap), "") == MembersText(members, false, ":" + gap)
    decreases members, 0
  {
    hide Tree, Text, SpellPair, MemberText, TreePair;
    if members == [] {
      assert "" + "}" == "}";
    } else {
      PairTreeSpells(members[0], gap);
      PairsTreeSpell(members[1..], gap);
      assert TreePairs(members, gap)[1..] == TreePairs(members[1..], gap);
    }
  }

  // ---------- What the tree of a value denotes ----------

  /** No doubles and no null string pointers. */
  ghost predicate Legible(v: Value) {
    match v
    case Real(_) => false
    case NoStr => false
    case Arr(elems) => forall i | 0 <= i < |elems| :: Legible(elems[i])
    case Obj(members) => forall i | 0 <= i < |members| :: Legible(members[i].value)
    case _ => true
  }

  /** The nesting depth; a scalar has depth 1. */
  function Depth(v: Value): (d: nat)
    ensures d > 0
  {
    match v
    case Arr(elems) => 1 + ItemsDepth(elems)
    case Obj(members) => 1 + MembersDepth(members)
    case _ => 1
  }

  function ItemsDepth(elems: seq<Value>): nat {
    if elems == [] then 0 else Max(Depth(elems[0]), ItemsDepth(elems[1..]))
  }

  function MembersDepth(members: seq<Member>): nat {
    if members == [] then 0 else Max(Depth(members[0].value), MembersDepth(members[1..]))
  }

  /** What reading the text of a value back gives: integers get the tag of the reader, and members
      are set one after the other. */
  function Gathered(v: Value): Value
    decreases v, 0
  {
    match v
    case Int(n) => Retagged(n)
    case UInt(u) => Retagged(u)
    case Arr(elems) => Arr(GatheredItems(elems))
    case Obj(members) => Obj(GatheredMembers([], members))
    case _ => v
  }

  function GatheredItems(elems: seq<Value>): seq<Value>
    decreases elems, 0
  {
    if elems == [] then [] else [Gathered(elems[0])] + GatheredItems(elems[1..])
  }

  function GatheredMembers(acc: seq<Member>, members: seq<Member>): seq<Member>
    decreases members, 0
  {
    if members == [] then acc
    else GatheredMembers(SetMember(acc, members[0].name, Gathered(members[0].value)), members[1..])
  }

  lemma {:induction false} EscapeIsRaw(s: string)
    ensures IsRaw(Escape(s))
  {
    if s != [] {
      EscapeIsRaw(s[1..]);
      RawCharThen(s[0], Escape(s[1..]));
    }
  }

  lemma RawCharThen(c: char, rest: string)
    requires IsRaw(rest)
    ensures IsRaw(EscapeChar(c) + rest)
  {
    var e := EscapeChar(c);
    var t := e + rest;
    if |e| == 1 {
      assert t[1..] == rest;
    } else {
      if |e| == 6 {
        HexDigitsAreRaw(e[4..] + rest, rest);
        assert t[2..] == "00" + (e[4..] + rest);
        assert t[2..][1..] == "0" + (e[4..] + rest) && t[2..][1..][1..] == e[4..] + rest;
      } else {
        assert t[2..] == rest;
      }
    }
  }

  lemma HexDigitsAreRaw(t: string, rest: string)
    requires |t| == |rest| + 2 && t[2..] == rest && IsRaw(rest)
    requires t[0] != '\"' && t[0] != '\\' && t[1] != '\"' && t[1] != '\\'
    ensures IsRaw(t)
  {
    assert t[1..][1..] == rest;
  }

  lemma IntTextIsNumeral(cfg: Config, n: int)
    requires MIN_INT64 <= n <= MAX_UINT64
    ensures IsNumeral(cfg, IntText(n)) && !IsName(IntText(n)) && NumberValue(cfg, IntText(n)) == Some(Retagged(n))
  {
    hide DecodeNumber, Digits, DigitsValue, IsDigits, Retagged;
    PrintedIntegerDecodes(n);
    DigitsDenote(Magnitude(n));
    var digits := Digits(Magnitude(n));
    var parts := Number(n < 0, digits, "", "");
    assert SpellNumber(parts) == IntText(n) by {
      assert (if n < 0 then "-" else "") + digits + "" + "" == (if n < 0 then "-" else "") + digits;
      assert "" + digits == digits;
    }
    assert IsNumber(parts);
    NumbersAreNotNames(parts);
  }

  lemma NumbersAreNotNames(n: Number)
    requires IsNumber(n)
    ensures !IsName(SpellNumber(n))
  {
    hide IsFraction, IsExponent;
    var t := SpellNumber(n);
    assert t[0] == (if n.minus then '-' else n.digits[0]);
    assert IsDigit(n.digits[0]);
  }

  lemma {:induction false} TreeDenotes(cfg: Config, v: Value, gap: string)
    requires Legible(v) && IsGap(gap)
    ensures WellSpelled(cfg, Tree(v, gap)) && ValueOf(cfg, Tree(v, gap)) == Gathered(v)
    ensures DepthOf(Tree(v, gap)) == Depth(v)
    decreases v, 1
  {
    hide IntText, Retagged, NumberValue, IsNumeral, Escape, Unescape, IsRaw, IsGap;
    match v {
      case Int(n) => IntTextIsNumeral(cfg, n);
      case UInt(u) => IntTextIsNumeral(cfg, u);
      case Str(s) => EscapeIsRaw(s); EscapeDecodes(s);
      case Arr(elems) => NoGap(); ItemsDenote(cfg, elems, gap);
      case Obj(members) => NoGap(); PairsDenote(cfg, [], members, gap);
      case _ =>
    }
  }

  lemma NoGap()
    ensures IsGap("")
  {
  }

  lemma {:induction false} ItemsDenote(cfg: Config, elems: seq<Value>, gap: string)
    requires IsGap(gap) && forall i | 0 <= i < |elems| :: Legible(elems[i])
    ensures var items := TreeItems(elems, gap);
            && (forall i | 0 <= i < |items| :: WellSpelledItem(cfg, items[i]))
            && ItemValues(cfg, items) == GatheredItems(elems) && ItemsDepthOf(items) == ItemsDepth(elems)
    decreases elems, 0
  {
    hide Tree, ValueOf, WellSpelled, DepthOf, Depth, Gathered, IsGap;
    if elems != [] {
      NoGap();
      TreeDenotes(cfg, elems[0], gap);
      ItemsDenote(cfg, elems[1..], gap);
      var items := TreeItems(elems, gap);
      assert items[1..] == TreeItems(elems[1..], gap);
      forall i | 0 <= i < |items| ensures WellSpelledItem(cfg, items[i]) {
        if i > 0 { assert items[i] == items[1..][i - 1]; }
      }
    }
  }

  lemma {:induction false} PairsDenote(cfg: Config, acc: seq<Member>, members: seq<Member>, gap: string)
    requires IsGap(gap) && forall i | 0 <= i < |members| :: Legible(members[i].value)
    ensures var pairs := TreePairs(members, gap);
            && (forall i | 0 <= i < |pairs| :: WellSpelledPair(cfg, pairs[i]))
            && MembersOf(cfg, acc, pairs) == GatheredMembers(acc, members)
                && MembersDepthOf(pairs) == MembersDepth(members)
    decreases members, 0
  {
    hide Tree, ValueOf, WellSpelled, DepthOf, Depth, Gathered, IsGap, Escape, Unescape, IsRaw, SetMember;
    if members != [] {
      NoGap();
      var m := members[0];
      TreeDenotes(cfg, m.value, gap);
      EscapeIsRaw(m.name);
      EscapeDecodes(m.name);
      PairsDenote(cfg, SetMember(acc, m.name, Gathered(m.value)), members[1..], gap);
      var pairs := TreePairs(members, gap);
      assert pairs[1..] == TreePairs(members[1..], gap);
      forall i | 0 <= i < |pairs| ensures WellSpelledPair(cfg, pairs[i]) {
        if i > 0 { assert pairs[i] == pairs[1..][i - 1]; }
      }
    }
  }

  // ---------- White space ----------

  /** The tree without its white space. */
  function Bare(j: Json): Json
    decreases j, 0
  {
    match j
    case Array(items, _) => Array(BareItems(items), "")
    case Object(members, _) => Object(BarePairs(members), "")
    case _ => j
  }

  function BareItem(item: Item): Item
    decreases item, 1
  {
    Item("", Bare(item.value), "")
  }

  function BareItems(items: seq<Item>): (r: seq<Item>)
    ensures |r| == |items| && forall i | 0 <= i < |items| :: r[i] == BareItem(items[i])
    decreases items, 0
  {
    if items == [] then [] else [BareItem(items[0])] + BareItems(items[1..])
  }

  function BarePair(m: Pair): Pair
    decreases m, 1
  {
    Pair("", m.name, "", "", Bare(m.value), "")
  }

  function BarePairs(members: seq<Pair>): (r: seq<Pair>)
    ensures |r| == |members| && forall i | 0 <= i < |members| :: r[i] == BarePair(members[i])
    decreases members, 0
  {
    if members == [] then [] else [BarePair(members[0])] + BarePairs(members[1..])
  }

  /** All that stands between the tokens is white space. */
  ghost predicate Gapped(j: Json) {
    match j
    case Array(items, gap) => IsGap(gap) && forall i | 0 <= i < |items| :: GappedItem(items[i])
    case Object(members, gap) => IsGap(gap) && forall i | 0 <= i < |members| :: GappedPair(members[i])
    case _ => true
  }

  ghost predicate GappedItem(item: Item) {
    IsGap(item.before) && IsGap(item.after) && Gapped(item.value)
  }

  ghost predicate GappedPair(m: Pair) {
    IsGap(m.before) && IsGap(m.beforeColon) && IsGap(m.afterColon) && IsGap(m.after) && Gapped(m.value)
  }

  /** White space changes neither what a text denotes nor how deep it is nested. */
  lemma {:induction false} GapsMeanNothing(cfg: Config, j: Json)
    requires Gapped(j) && WellSpelled(cfg, Bare(j))
    ensures WellSpelled(cfg, j) && ValueOf(cfg, j) == ValueOf(cfg, Bare(j)) && DepthOf(j) == DepthOf(Bare(j))
    decreases j, 1
  {
    hide IsGap, IsNumeral, IsRaw, Unescape, NumberValue;
    match j {
      case Array(items, _) => GapsInItems(cfg, items);
      case Object(members, _) => GapsInPairs(cfg, [], members);
      case _ =>
    }
  }

  lemma {:induction false} GapsInItems(cfg: Config, items: seq<Item>)
    requires forall i | 0 <= i < |items| :: GappedItem(items[i]) && WellSpelledItem(cfg, BareItems(items)[i])
    ensures forall i | 0 <= i < |items| :: WellSpelledItem(cfg, items[i])
    ensures ItemValues(cfg, items) == ItemValues(cfg, BareItems(items))
        && ItemsDepthOf(items) == ItemsDepthOf(BareItems(items))
    decreases items, 0
  {
    hide IsGap, WellSpelled, ValueOf, DepthOf, Bare, Gapped;
    if items != [] {
      var bare := BareItems(items);
      assert GappedItem(items[0]) && WellSpelledItem(cfg, bare[0]);
      assert bare[1..] == BareItems(items[1..]);
      forall i | 0 <= i < |items| - 1 ensures GappedItem(items[1..][i]) && WellSpelledItem(cfg, bare[1..][i]) {
        assert GappedItem(items[i + 1]) && WellSpelledItem(cfg, bare[i + 1]);
      }
      GapsMeanNothing(cfg, items[0].value);
      GapsInItems(cfg, items[1..]);
      forall i | 0 <= i < |items| ensures WellSpelledItem(cfg, items[i]) {
        if i > 0 { assert items[i] == items[1..][i - 1]; }
      }
    }
  }

  lemma {:induction false} GapsInPairs(cfg: Config, acc: seq<Member>, members: seq<Pair>)
    requires forall i | 0 <= i < |members| :: GappedPair(members[i]) && WellSpelledPair(cfg, BarePairs(members)[i])
    ensures forall i | 0 <= i < |members| :: WellSpelledPair(cfg, members[i])
    ensures MembersOf(cfg, acc, members) == MembersOf(cfg, acc, BarePairs(members))
    ensures MembersDepthOf(members) == MembersDepthOf(BarePairs(members))
    decreases members, 0
  {
    hide IsGap, WellSpelled, ValueOf, DepthOf, Bare, Gapped, IsRaw, Unescape, SetMember;
    if members != [] {
      var m, bare := members[0], BarePairs(members);
      assert GappedPair(m) && WellSpelledPair(cfg, bare[0]);
      assert bare[1..] == BarePairs(members[1..]);
      forall i | 0 <= i < |members| - 1 ensures GappedPair(members[1..][i]) && WellSpelledPair(cfg, bare[1..][i]) {
        assert GappedPair(members[i + 1]) && WellSpelledPair(cfg, bare[i + 1]);
      }
      GapsMeanNothing(cfg, m.value);
      GapsInPairs(cfg, SetMember(acc, Unescape(m.name).value, ValueOf(cfg, m.value)), members[1..]);
      forall i | 0 <= i < |members| ensures WellSpelledPair(cfg, members[i]) {
        if i > 0 { assert members[i] == members[1..][i - 1]; }
      }
    }
  }
}
