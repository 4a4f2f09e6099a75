/** What Json::StyledWriter is to write, and the proof that it means what FastWriter's text does. */
module JsonStyled {
  import opened JsonValue
  import opened JsonNumbers
  import opened JsonStrings
  import opened Sequences
  import opened JsonGrammar
  import opened JsonText
  import opened JsonSyntax
  import opened JsonAcceptance
  import opened JsonTree
  import opened JsonRoundTrip

  // ---------- The meaning of a text: its characters but the white space between tokens ----------

  datatype Mode = Outside | Inside | AfterBackslash

  function Next(m: Mode, c: char): Mode {
    match m
    case Outside => if c == '\"' then Inside else Outside
    case Inside => if c == '\\' then AfterBackslash else if c == '\"' then Outside else Inside
    case AfterBackslash => Inside
  }

  ghost function ModeAfter(m: Mode, s: string): Mode
    decreases s
  {
    if s == [] then m else ModeAfter(Next(m, s[0]), s[1..])
  }

  ghost function Squeezed(m: Mode, s: string): string
    decreases s
  {
    if s == [] then []
    else (if m == Outside && IsSpace(s[0]) then [] else [s[0]]) + Squeezed(Next(m, s[0]), s[1..])
  }

  /** `s` ends outside string literals and without its blanks it reads `t`. */
  ghost predicate Means(s: string, t: string) {
    ModeAfter(Outside, s) == Outside && Squeezed(Outside, s) == t
  }

  lemma {:induction false} ScanConcat(m: Mode, a: string, b: string)
    ensures ModeAfter(m, a + b) == ModeAfter(ModeAfter(m, a), b)
    ensures Squeezed(m, a + b) == Squeezed(m, a) + Squeezed(ModeAfter(m, a), b)
    decreases |a|
  {
    if a == [] {
      assert a + b == b;
    } else {
      assert (a + b)[1..] == a[1..] + b;
      ScanConcat(Next(m, a[0]), a[1..], b);
    }
  }

  lemma MeansConcat(a: string, x: string, b: string, y: string)
    requires Means(a, x) && Means(b, y)
    ensures Means(a + b, x + y)
  {
    ScanConcat(Outside, a, b);
  }

  lemma {:induction false} GapsAreSqueezed(s: string)
    requires IsGap(s)
    ensures Means(s, "")
  {
    if s != [] {
      assert IsSpace(s[0]);
      GapsAreSqueezed(s[1..]);
    }
  }

  /** No quotes and no white space. */
  ghost predicate Plain(s: string) { forall i | 0 <= i < |s| :: s[i] != '\"' && !IsSpace(s[i]) }

  lemma {:induction false} PlainMeansItself(s: string)
    requires Plain(s)
    ensures Means(s, s)
  {
    if s != [] {
      assert s[0] != '\"' && !IsSpace(s[0]);
      PlainMeansItself(s[1..]);
      assert s == [s[0]] + s[1..];
    }
  }

  lemma {:induction false} RawStaysInside(raw: string)
    requires IsRaw(raw)
    ensures ModeAfter(Inside, raw) == Inside && Squeezed(Inside, raw) == raw
  {
    if raw != "" {
      var k := if raw[0] == '\\' then 2 else 1;
      RawStaysInside(raw[k..]);
      assert raw == raw[..k] + raw[k..];
      assert raw[..k][1..] == raw[1..k];
      assert k == 2 ==> raw[1..k] == [raw[1]] && raw[1..k][1..] == [];
      assert k == 1 ==> raw[..k][1..] == [];
      ScanConcat(Inside, raw[..k], raw[k..]);
    }
  }

  lemma QuotedMeansItself(raw: string)
    requires IsRaw(raw)
    ensures Means("\"" + raw + "\"", "\"" + raw + "\"")
  {
    var rest := raw + "\"";
    RawStaysInside(raw);
    assert "\""[1..] == "";
    assert ModeAfter(Outside, "\"") == Inside && Squeezed(Outside, "\"") == "\"";
    assert ModeAfter(Inside, "\"") == Outside && Squeezed(Inside, "\"") == "\"";
    ScanConcat(Inside, raw, "\"");
    ScanConcat(Outside, "\"", rest);
    assert "\"" + raw + "\"" == "\"" + rest;
  }

  // ---------- The meaning of a tree ----------

  /** Words are free of quotes and white space, and strings are closed. */
  ghost predicate PlainWords(j: Json) {
    match j
    case Word(text) => Plain(text)
    case Quoted(raw) => IsRaw(raw)
    case Array(items, _) => forall i | 0 <= i < |items| :: PlainWords(items[i].value)
    case Object(members, _) => forall i | 0 <= i < |members| :: IsRaw(members[i].name) && PlainWords(members[i].value)
  }

  /** Between white space. */
  lemma Padded(before: string, s: string, t: string, after: string)
    requires IsGap(before) && IsGap(after) && Means(s, t)
    ensures Means(before + s + after, t)
  {
    hide Means;
    GapsAreSqueezed(before);
    GapsAreSqueezed(after);
    MeansConcat(before, "", s, t);
    MeansConcat(before + s, "" + t, after, "");
    assert "" + t == t && t + "" == t;
  }

  lemma CharMeansItself(c: char)
    requires Plain([c])
    ensures Means([c], [c])
  {
    PlainMeansItself([c]);
  }

  /** Squeezing the text of a tree gives the text of the tree without its white space. */
  lemma {:induction false} BareIsSqueezed(j: Json)
    requires Gapped(j) && PlainWords(j)
    ensures Means(Spell(j), Spell(Bare(j)))
    decreases j, 1
  {
    hide Means, IsGap, Plain, IsRaw, SpellItems, SpellMembers;
    match j {
      case Word(text) => PlainMeansItself(text);
      case Quoted(raw) => QuotedMeansItself(raw);
      case Array(items, gap) =>
        ItemsSqueezed(items);
        Enclosed("[", SpellItems(items), SpellItems(BareItems(items)), gap, "]");
      case Object(members, gap) =>
        PairsSqueezed(members);
        Enclosed("{", SpellMembers(members), SpellMembers(BarePairs(members)), gap, "}");
    }
  }

  lemma Enclosed(open: string, s: string, t: string, gap: string, close: string)
    requires Means(s, t) && IsGap(gap) && open in {"[", "{"} && close in {"]", "}"}
    ensures Means(open + s + (gap + close), open + t + ("" + close))
  {
    hide Means;
    PlainMeansItself(open);
    PlainMeansItself(close);
    GapsAreSqueezed(gap);
    MeansConcat(gap, "", close, close);
    MeansConcat(open, open, s, t);
    MeansConcat(open + s, open + t, gap + close, "" + close);
  }

  lemma CommaMeansItself(first: bool)
    ensures Means(Comma(first), Comma(first))
  {
    PlainMeansItself(Comma(first));
  }

  lemma {:induction false} ItemsSqueezed(items: seq<Item>)
    requires forall i | 0 <= i < |items| :: GappedItem(items[i]) && PlainWords(items[i].value)
    ensures Means(SpellItems(items), SpellItems(BareItems(items)))
    decreases items, 0
  {
    hide Means, Gapped, PlainWords, Spell, Bare, IsGap;
    if items == [] {
      PlainMeansItself("");
    } else {
      var n := |items| - 1;
      var front, item := items[..n], items[n];
      assert GappedItem(item) && PlainWords(item.value);
      ItemsSqueezed(front);
      BareIsSqueezed(item.value);
      Padded(item.before, Spell(item.value), Spell(Bare(item.value)), item.after);
      assert "" + Spell(Bare(item.value)) + "" == Spell(Bare(item.value));
      CommaMeansItself(|items| == 1);
      assert BareItems(items)[..n] == BareItems(front);
      MeansConcat(SpellItems(front), SpellItems(BareItems(front)), Comma(|items| == 1), Comma(|items| == 1));
      MeansConcat(SpellItems(front) + Comma(|items| == 1), SpellItems(BareItems(front)) + Comma(|items| == 1),
                  SpellItem(item), SpellItem(BareItem(item)));
    }
  }

  lemma PairSqueezed(m: Pair)
    requires GappedPair(m) && IsRaw(m.name) && Means(Spell(m.value), Spell(Bare(m.value)))
    ensures Means(SpellPair(m), SpellPair(BarePair(m)))
  {
    hide Means, Gapped, Spell, Bare, IsGap, IsRaw;
    var quoted, colon, value, bare := "\"" + m.name + "\"", m.beforeColon + ":", Spell(m.value), Spell(Bare(m.value));
    QuotedMeansItself(m.name);
    CharMeansItself(':');
    GapsAreSqueezed(m.before);
    GapsAreSqueezed(m.beforeColon);
    GapsAreSqueezed(m.afterColon);
    GapsAreSqueezed(m.after);
    MeansConcat(m.beforeColon, "", ":", ":");
    MeansConcat(m.before, "", quoted, quoted);
    MeansConcat(m.before + quoted, "" + quoted, colon, "" + ":");
    MeansConcat(m.before + quoted + colon, "" + quoted + ("" + ":"), m.afterColon, "");
    MeansConcat(m.before + quoted + colon + m.afterColon, "" + quoted + ("" + ":") + "", value, bare);
    MeansConcat(m.before + quoted + colon + m.afterColon + value, "" + quoted + ("" + ":") + "" + bare, m.after, "");
  }

  lemma {:induction false} PairsSqueezed(members: seq<Pair>)
    requires forall i | 0 <= i < |members| ::
      GappedPair(members[i]) && IsRaw(members[i].name) && PlainWords(members[i].value)
    ensures Means(SpellMembers(members), SpellMembers(BarePairs(members)))
    decreases members, 0
  {
    hide Means, Gapped, PlainWords, Spell, Bare, IsGap, IsRaw, SpellPair, BarePair;
    if members == [] {
      PlainMeansItself("");
    } else {
      var n := |members| - 1;
      var front, m := members[..n], members[n];
      assert GappedPair(m) && IsRaw(m.name) && PlainWords(m.value);
      PairsSqueezed(front);
      BareIsSqueezed(m.value);
      PairSqueezed(m);
      CommaMeansItself(|members| == 1);
      assert BarePairs(members)[..n] == BarePairs(front);
      MeansConcat(SpellMembers(front), SpellMembers(BarePairs(front)), Comma(|members| == 1), Comma(|members| == 1));
      MeansConcat(SpellMembers(front) + Comma(|members| == 1), SpellMembers(BarePairs(front)) + Comma(|members| == 1),
                  SpellPair(m), SpellPair(BarePair(m)));
    }
  }

  // ---------- Values ----------

  /** The text of a double has no quotes and no blanks. */
  ghost predicate PlainReals(v: Value) {
    match v
    case Real(text) => Plain(text)
    case Arr(elems) => forall i | 0 <= i < |elems| :: PlainReals(elems[i])
    case Obj(members) => forall i | 0 <= i < |members| :: PlainReals(members[i].value)
    case _ => true
  }

  /** The value whose member names stop at their first null byte. */
  function TruncateKeys(v: Value): Value {
    match v
    case Arr(elems) => Arr(TruncateItems(elems))
    case Obj(members) => Obj(TruncateMembers(members))
    case _ => v
  }

  function TruncateItems(elems: seq<Value>): (r: seq<Value>)
    ensures |r| == |elems| && forall i | 0 <= i < |elems| :: r[i] == TruncateKeys(elems[i])
  {
    if elems == [] then [] else [TruncateKeys(elems[0])] + TruncateItems(elems[1..])
  }

  function TruncateMembers(members: seq<Member>): (r: seq<Member>)
    ensures |r| == |members|
    ensures forall i | 0 <= i < |members| :: r[i] == Member(CString(members[i].name), TruncateKeys(members[i].value))
  {
    if members == [] then []
    else [Member(CString(members[0].name), TruncateKeys(members[0].value))] + TruncateMembers(members[1..])
  }

  /** The meaning the styled text of a value is to have. */
  function Meaning(v: Value): string {
    Text(TruncateKeys(v), ":")
  }

  /** Values that are written on one line: scalars and empty containers. */
  predicate IsLeaf(v: Value) {
    (v.Arr? ==> v.elems == []) && (v.Obj? ==> v.members == [])
  }

  lemma IntTextIsPlain(n: int)
    ensures Plain(IntText(n))
  {
    DigitsDenote(Magnitude(n));
  }

  lemma {:induction false} TreeIsPlain(v: Value, gap: string)
    requires PlainReals(v) && IsGap(gap)
    ensures PlainWords(Tree(v, gap)) && Gapped(Tree(v, gap)) && Bare(Tree(v, gap)) == Tree(v, "")
    decreases v
  {
    hide IsGap, IntText, Escape, IsRaw;
    NoGap();
    match v {
      case Int(n) => IntTextIsPlain(n);
      case UInt(u) => IntTextIsPlain(u);
      case Str(s) => EscapeIsRaw(s);
      case Arr(elems) =>
        var items := TreeItems(elems, gap);
        forall i | 0 <= i < |items|
          ensures PlainWords(items[i].value) && GappedItem(items[i]) && BareItem(items[i]) == TreeItems(elems, "")[i]
        {
          TreeIsPlain(elems[i], gap);
        }
        assert BareItems(items) == TreeItems(elems, "");
      case Obj(members) =>
        var pairs := TreePairs(members, gap);
        forall i | 0 <= i < |pairs|
          ensures IsRaw(pairs[i].name) && PlainWords(pairs[i].value) && GappedPair(pairs[i])
          ensures BarePair(pairs[i]) == TreePairs(members, "")[i]
        {
          EscapeIsRaw(members[i].name);
          TreeIsPlain(members[i].value, gap);
        }
        assert BarePairs(pairs) == TreePairs(members, "");
      case _ =>
    }
  }

  /** A tree of the value, with names cut at null bytes, and some white space. */
  ghost predicate Lays(j: Json, v: Value) {
    Gapped(j) && Bare(j) == Tree(TruncateKeys(v), "")
  }

  ghost predicate LaysItem(item: Item, v: Value) {
    GappedItem(item) && BareItem(item) == Item("", Tree(TruncateKeys(v), ""), "")
  }

  ghost predicate LaysPair(pair: Pair, m: Member) {
    GappedPair(pair) && BarePair(pair) == TreePair(Member(CString(m.name), TruncateKeys(m.value)), "")
  }

  lemma ArrayLays(items: seq<Item>, gap: string, elems: seq<Value>)
    requires |items| == |elems| && IsGap(gap) && forall i | 0 <= i < |items| :: LaysItem(items[i], elems[i])
    ensures Lays(Array(items, gap), Arr(elems))
  {
    hide IsGap, GappedItem, BareItem;
    assert forall i | 0 <= i < |items| :: GappedItem(items[i]) && LaysItem(items[i], elems[i]);
    assert BareItems(items) == TreeItems(TruncateItems(elems), "");
  }

  lemma ObjectLays(pairs: seq<Pair>, gap: string, members: seq<Member>)
    requires |pairs| == |members| && IsGap(gap) && forall i | 0 <= i < |pairs| :: LaysPair(pairs[i], members[i])
    ensures Lays(Object(pairs, gap), Obj(members))
  {
    hide IsGap, GappedPair, BarePair, TreePair;
    assert forall i | 0 <= i < |pairs| :: GappedPair(pairs[i]) && LaysPair(pairs[i], members[i]);
    assert BarePairs(pairs) == TreePairs(TruncateMembers(members), "");
  }

  /** A scalar or an empty container is laid out as its own tree. */
  lemma LeafLays(v: Value)
    requires IsLeaf(v)
    ensures Lays(Tree(v, ""), v)
    ensures v.Arr? ==> Spell(Tree(v, "")) == "[]"
    ensures v.Obj? ==> Spell(Tree(v, "")) == "{}"
  {
    hide IntText, Escape;
    NoGap();
  }

  /** What StyledWriter writes: white space, a tree of the value, and a line feed. */
  ghost predicate Styles(text: string, v: Value) {
    exists lead, j :: IsGap(lead) && Lays(j, v) && text == lead + Spell(j) + "\n"
  }

  // ---------- Main results ----------

  ghost predicate NulFreeKeys(v: Value) {
    match v
    case Arr(elems) => forall i | 0 <= i < |elems| :: NulFreeKeys(elems[i])
    case Obj(members) => forall i | 0 <= i < |members| :: NulFree(members[i].name) && NulFreeKeys(members[i].value)
    case _ => true
  }

  /** Without its white space, the text FastWriter writes is the compact text. */
  lemma CompactTextMeansItself(v: Value, colon: string)
    requires PlainReals(v) && IsColon(colon)
    ensures Means(Text(v, colon), Text(v, ":"))
  {
    hide Means, Spell, Text;
    var gap := colon[1..];
    assert colon == ":" + gap && ":" == ":" + "";
    TreeSpells(v, gap);
    TreeSpells(v, "");
    TreeIsPlain(v, gap);
    BareIsSqueezed(Tree(v, gap));
  }

  lemma {:induction false} EscapeOfCString(s: string)
    ensures |Escape(CString(s))| <= |Escape(s)|
    ensures !NulFree(s) ==> |Escape(CString(s))| < |Escape(s)|
  {
    if s != [] {
      EscapeOfCString(s[1..]);
      assert s == [s[0]] + s[1..];
      if s[0] != '\0' {
        assert CString(s)[1..] == CString(s[1..]);
      }
    }
  }

  /** Truncating a key that holds a null byte shortens the text, and nothing else changes it. */
  lemma {:induction false} TruncationShortens(v: Value)
    ensures |Meaning(v)| <= |Text(v, ":")|
    ensures NulFreeKeys(v) ==> TruncateKeys(v) == v
    ensures !NulFreeKeys(v) ==> |Meaning(v)| < |Text(v, ":")|
    decreases v, 0
  {
    hide Escape, Quote, IntText;
    match v {
      case Arr(elems) => ItemsTruncation(elems, true);
      case Obj(members) => MembersTruncation(members, true);
      case _ =>
    }
  }

  lemma {:induction false} ItemsTruncation(elems: seq<Value>, first: bool)
    ensures |ItemsText(TruncateItems(elems), first, ":")| <= |ItemsText(elems, first, ":")|
    ensures (forall i | 0 <= i < |elems| :: NulFreeKeys(elems[i])) ==> TruncateItems(elems) == elems
    ensures !(forall i | 0 <= i < |elems| :: NulFreeKeys(elems[i])) ==>
              |ItemsText(TruncateItems(elems), first, ":")| < |ItemsText(elems, first, ":")|
    decreases elems, 1
  {
    hide Text, NulFreeKeys;
    if elems != [] {
      TruncationShortens(elems[0]);
      ItemsTruncation(elems[1..], false);
      assert TruncateItems(elems)[1..] == TruncateItems(elems[1..]);
      assert elems == [elems[0]] + elems[1..];
    }
  }

  lemma {:induction false} MembersTruncation(members: seq<Member>, first: bool)
    ensures |MembersText(TruncateMembers(members), first, ":")| <= |MembersText(members, first, ":")|
    ensures (forall i | 0 <= i < |members| :: NulFree(members[i].name) && NulFreeKeys(members[i].value)) ==>
              TruncateMembers(members) == members
    ensures !(forall i | 0 <= i < |members| :: NulFree(members[i].name) && NulFreeKeys(members[i].value)) ==>
              |MembersText(TruncateMembers(members), first, ":")| < |MembersText(members, first, ":")|
    decreases members, 1
  {
    hide Text, NulFreeKeys, Escape, NulFree, CString;
    if members != [] {
      TruncationShortens(members[0].value);
      EscapeOfCString(members[0].name);
      CStringOfNulFree(members[0].name);
      MembersTruncation(members[1..], false);
      assert TruncateMembers(members)[1..] == TruncateMembers(members[1..]);
      assert members == [members[0]] + members[1..];
    }
  }

  lemma {:induction false} TruncationKeepsReals(v: Value)
    requires PlainReals(v)
    ensures PlainReals(TruncateKeys(v))
    decreases v
  {
    match v {
      case Arr(elems) =>
        forall i | 0 <= i < |elems| ensures PlainReals(TruncateItems(elems)[i]) { TruncationKeepsReals(elems[i]); }
      case Obj(members) =>
        forall i | 0 <= i < |members| ensures PlainReals(TruncateMembers(members)[i].value) {
          TruncationKeepsReals(members[i].value);
        }
      case _ =>
    }
  }

  /** A styled document means the compact text of the value with names cut at null bytes. */
  lemma StyledMeans(v: Value, styled: string)
    requires PlainReals(v) && Styles(styled, v)
    ensures Means(styled, Meaning(v))
  {
    hide Means, Spell, Text;
    var lead, j :| IsGap(lead) && Lays(j, v) && styled == lead + Spell(j) + "\n";
    TruncationKeepsReals(v);
    TreeIsPlain(TruncateKeys(v), "");
    BareKeepsWords(j);
    BareIsSqueezed(j);
    TreeSpells(TruncateKeys(v), "");
    assert ":" + "" == ":";
    Padded(lead, Spell(j), Meaning(v), "\n");
  }

  lemma {:induction false} BareKeepsWords(j: Json)
    requires PlainWords(Bare(j))
    ensures PlainWords(j)
    decreases j
  {
    hide IsRaw, Plain;
    match j {
      case Array(items, _) =>
        forall i | 0 <= i < |items| ensures PlainWords(items[i].value) {
          assert BareItems(items)[i] == BareItem(items[i]);
          BareKeepsWords(items[i].value);
        }
      case Object(members, _) =>
        forall i | 0 <= i < |members| ensures IsRaw(members[i].name) && PlainWords(members[i].value) {
          assert BarePairs(members)[i] == BarePair(members[i]);
          BareKeepsWords(members[i].value);
        }
      case _ =>
    }
  }

  /** A styled document means the same as the compact one exactly when no member name holds a
      null byte. */
  lemma StyledAgreesWithCompact(v: Value, styled: string, colon: string)
    requires PlainReals(v) && IsColon(colon) && Means(styled, Meaning(v))
    ensures Squeezed(Outside, styled) == Squeezed(Outside, Text(v, colon) + "\n") <==> NulFreeKeys(v)
  {
    hide ModeAfter, Squeezed, Text;
    CompactTextMeansItself(v, colon);
    GapsAreSqueezed("\n");
    MeansConcat(Text(v, colon), Text(v, ":"), "\n", "");
    assert Text(v, ":") + "" == Text(v, ":");
    TruncationShortens(v);
  }

  // ---------- Reading a styled document back ----------

  lemma {:induction false} TruncationKeepsShape(v: Value)
    requires Legible(v)
    ensures Legible(TruncateKeys(v)) && Depth(TruncateKeys(v)) == Depth(v)
    decreases v, 1
  {
    match v {
      case Arr(elems) => TruncationKeepsItems(elems);
      case Obj(members) => TruncationKeepsMembers(members);
      case _ =>
    }
  }

  lemma {:induction false} TruncationKeepsItems(elems: seq<Value>)
    requires forall i | 0 <= i < |elems| :: Legible(elems[i])
    ensures forall i | 0 <= i < |elems| :: Legible(TruncateItems(elems)[i])
    ensures ItemsDepth(TruncateItems(elems)) == ItemsDepth(elems)
    decreases elems, 0
  {
    hide Legible, Depth;
    if elems != [] {
      TruncationKeepsShape(elems[0]);
      TruncationKeepsItems(elems[1..]);
      assert TruncateItems(elems)[1..] == TruncateItems(elems[1..]);
      forall i | 0 <= i < |elems| ensures Legible(TruncateItems(elems)[i]) {
        if i > 0 { assert TruncateItems(elems)[i] == TruncateItems(elems[1..])[i - 1]; }
      }
    }
  }

  lemma {:induction false} TruncationKeepsMembers(members: seq<Member>)
    requires forall i | 0 <= i < |members| :: Legible(members[i].value)
    ensures forall i | 0 <= i < |members| :: Legible(TruncateMembers(members)[i].value)
    ensures MembersDepth(TruncateMembers(members)) == MembersDepth(members)
    decreases members, 0
  {
    hide Legible, Depth;
    if members != [] {
      TruncationKeepsShape(members[0].value);
      TruncationKeepsMembers(members[1..]);
      assert TruncateMembers(members)[1..] == TruncateMembers(members[1..]);
      forall i | 0 <= i < |members| ensures Legible(TruncateMembers(members)[i].value) {
        if i > 0 { assert TruncateMembers(members)[i] == TruncateMembers(members[1..])[i - 1]; }
      }
    }
  }

  ghost predicate NulFreeMembers(members: seq<Member>) {
    forall i | 0 <= i < |members| :: NulFree(members[i].name) && NulFreeKeys(members[i].value)
  }

  lemma {:induction false} SetMemberKeepsNulFree(members: seq<Member>, name: string, value: Value)
    requires NulFreeMembers(members) && NulFree(name) && NulFreeKeys(value)
    ensures NulFreeMembers(SetMember(members, name, value))
  {
    hide NulFree, NulFreeKeys, KeyLess, KeyEqual;
    if members != [] {
      assert NulFree(members[0].name) && NulFreeKeys(members[0].value);
      SetMemberKeepsNulFree(members[1..], name, value);
    }
  }

  /** No key with a null byte comes out of a truncated value. */
  lemma {:induction false} GatheredTruncatedIsNulFree(v: Value)
    ensures NulFreeKeys(Gathered(TruncateKeys(v)))
    decreases v, 1
  {
    match v {
      case Arr(elems) => GatheredItemsNulFree(elems);
      case Obj(members) =>
        assert NulFreeMembers([]);
        GatheredMembersNulFree([], members);
      case _ =>
    }
  }

  lemma {:induction false} GatheredItemsNulFree(elems: seq<Value>)
    ensures forall i | 0 <= i < |GatheredItems(TruncateItems(elems))| ::
        NulFreeKeys(GatheredItems(TruncateItems(elems))[i])
    decreases elems, 0
  {
    hide NulFreeKeys, Gathered;
    if elems != [] {
      GatheredTruncatedIsNulFree(elems[0]);
      GatheredItemsNulFree(elems[1..]);
      assert TruncateItems(elems)[1..] == TruncateItems(elems[1..]);
    }
  }

  lemma {:induction false} GatheredMembersNulFree(acc: seq<Member>, members: seq<Member>)
    requires NulFreeMembers(acc)
    ensures NulFreeMembers(GatheredMembers(acc, TruncateMembers(members)))
    decreases members, 0
  {
    hide NulFreeKeys, Gathered, NulFreeMembers, SetMember, NulFree;
    if members != [] {
      var m := TruncateMembers(members)[0];
      GatheredTruncatedIsNulFree(members[0].value);
      CStringIsNulFree(members[0].name);
      SetMemberKeepsNulFree(acc, m.name, Gathered(m.value));
      assert TruncateMembers(members)[1..] == TruncateMembers(members[1..]);
      GatheredMembersNulFree(SetMember(acc, m.name, Gathered(m.value)), members[1..]);
    }
  }

  lemma {:induction false} CStringIsNulFree(s: string)
    ensures NulFree(CString(s))
  {
    if s != [] { CStringIsNulFree(s[1..]); }
  }

  lemma {:induction false} RetagKeepsKeys(v: Value)
    ensures NulFreeKeys(Retag(v)) <==> NulFreeKeys(v)
    decreases v
  {
    match v {
      case Arr(elems) =>
        forall i | 0 <= i < |elems| ensures NulFreeKeys(RetagItems(elems)[i]) <==> NulFreeKeys(elems[i]) {
          RetagKeepsKeys(elems[i]);
        }
      case Obj(members) =>
        forall i | 0 <= i < |members|
          ensures NulFreeKeys(RetagMembers(members)[i].value) <==> NulFreeKeys(members[i].value)
        {
          RetagKeepsKeys(members[i].value);
        }
      case _ =>
    }
  }

  /** Parsing a document StyledWriter wrote gives the value with names cut at null bytes, that is
      the value itself up to integer tags exactly when no name holds a null byte; it throws exactly
      when the value is nested more than 1000 deep. */
  lemma StyledReadsBack(cfg: Config, v: Value, styled: string)
    requires Printable(v) && Styles(styled, v)
    ensures var r := Parse(cfg, styled);
            if Depth(v) > 1000 then r.Threw?
            else if cfg.strictRoot && !v.Arr? && !v.Obj? then r.Failed?
            else r.Ok? && r.value == Gathered(TruncateKeys(v)) && (r.value == Retag(v) <==> NulFreeKeys(v))
  {
    hide Parse, WellSpelled, Gathered, Retag, NulFreeKeys, Legible, Printable, Spell;
    var lead, j :| IsGap(lead) && Lays(j, v) && styled == lead + Spell(j) + "\n";
    GatheredIsRetagged(v);
    TruncationKeepsShape(v);
    NoGap();
    TreeDenotes(cfg, TruncateKeys(v), "");
    GapsMeanNothing(cfg, j);
    EveryTextIsRead(cfg, lead, j, "\n");
    TruncationShortens(v);
    GatheredTruncatedIsNulFree(v);
    RetagKeepsKeys(v);
  }
}
