/** JSON texts by their syntax trees, after sections 2 to 7 of RFC 8259: which text a tree stands
    for, and which value. Leading zeros and control characters in strings are allowed on top. */
module JsonSyntax {
  import opened Wrappers
  import opened JsonValue
  import opened JsonNumbers
  import opened JsonStrings
  import opened JsonGrammar
  import opened JsonText

  // ---------- Trees ----------

  /** A `gap` is the white space before a closing bracket. */
  datatype Json =
    | Word(text: string)
    | Quoted(raw: string)
    | Array(items: seq<Item>, gap: string)
    | Object(members: seq<Pair>, gap: string)

  /** An element with the white space around it. */
  datatype Item = Item(before: string, value: Json, after: string)

  datatype Pair = Pair(before: string, name: string, beforeColon: string, afterColon: string, value: Json,
          after: string)

  ghost predicate IsGap(s: string) { forall i | 0 <= i < |s| :: IsSpace(s[i]) }

  // ---------- Words ----------

  /** The parts of a number of section 6. */
  datatype Number = Number(minus: bool, digits: string, fraction: string, exponent: string)

  predicate IsFraction(t: string) { t == "" || (|t| > 1 && t[0] == '.' && IsDigits(t[1..])) }

  predicate IsExponent(t: string) {
    t == "" || (|t| > 1 && (t[0] == 'e' || t[0] == 'E') &&
                (IsDigits(t[1..]) || (|t| > 2 && (t[1] == '+' || t[1] == '-') && IsDigits(t[2..]))))
  }

  predicate IsNumber(n: Number) {
    n.digits != "" && IsDigits(n.digits) && IsFraction(n.fraction) && IsExponent(n.exponent)
  }

  function SpellNumber(n: Number): string {
    (if n.minus then "-" else "") + n.digits + n.fraction + n.exponent
  }

  /** What a number token is read as: an integer, or what the double scanner makes of it. */
  function NumberValue(cfg: Config, t: string): Option<Value>
    requires t != ""
  {
    match DecodeNumber(t)
    case Integer(v) => Some(v)
    case GoesToDouble =>
      match cfg.scanDouble(t)
      case Some(text) => Some(Real(text))
      case None => None
  }

  ghost predicate IsNumeral(cfg: Config, t: string) {
    t != "" && NumberValue(cfg, t).Some? && exists n :: IsNumber(n) && t == SpellNumber(n)
  }

  predicate IsName(t: string) { t == "true" || t == "false" || t == "null" }

  /** Between the quotes: no bare quote, and something behind every backslash. */
  predicate IsRaw(raw: string) {
    raw == "" ||
    if raw[0] == '\\' then |raw| > 1 && IsRaw(raw[2..]) else raw[0] != '\"' && IsRaw(raw[1..])
  }

  // ---------- The text of a tree ----------

  function Spell(j: Json): (s: string)
    decreases j, 0
  {
    match j
    case Word(text) => text
    case Quoted(raw) => "\"" + raw + "\""
    case Array(items, gap) => "[" + SpellItems(items) + (gap + "]")
    case Object(members, gap) => "{" + SpellMembers(members) + (gap + "}")
  }

  function SpellItem(item: Item): string
    decreases item, 1
  {
    item.before + Spell(item.value) + item.after
  }

  /** The items so far, without a closing bracket. */
  function SpellItems(items: seq<Item>): string
    decreases items, 0
  {
    if items == [] then ""
    else SpellItems(items[..|items| - 1]) + Comma(|items| == 1) + SpellItem(items[|items| - 1])
  }

  function SpellPair(m: Pair): string
    decreases m, 1
  {
    m.before + ("\"" + m.name + "\"") + (m.beforeColon + ":") + m.afterColon + Spell(m.value) + m.after
  }

  function SpellMembers(members: seq<Pair>): string
    decreases members, 0
  {
    if members == [] then ""
    else SpellMembers(members[..|members| - 1]) + Comma(|members| == 1) + SpellPair(members[|members| - 1])
  }

  // ---------- The value of a tree ----------

  /** Every gap is white space, every word is a name or a number that can be read, and every string
      has good escapes only. */
  ghost predicate WellSpelled(cfg: Config, j: Json) {
    match j
    case Word(text) => IsName(text) || IsNumeral(cfg, text)
    case Quoted(raw) => IsRaw(raw) && Unescape(raw).Some?
    case Array(items, gap) => IsGap(gap) && forall i | 0 <= i < |items| :: WellSpelledItem(cfg, items[i])
    case Object(members, gap) => IsGap(gap) && forall i | 0 <= i < |members| :: WellSpelledPair(cfg, members[i])
  }

  ghost predicate WellSpelledItem(cfg: Config, item: Item) {
    IsGap(item.before) && IsGap(item.after) && WellSpelled(cfg, item.value)
  }

  ghost predicate WellSpelledPair(cfg: Config, m: Pair) {
    && IsGap(m.before) && IsGap(m.beforeColon) && IsGap(m.afterColon) && IsGap(m.after)
    && IsRaw(m.name) && Unescape(m.name).Some? && WellSpelled(cfg, m.value)
  }

  ghost function ValueOf(cfg: Config, j: Json): Value
    requires WellSpelled(cfg, j)
    decreases j, 0
  {
    match j
    case Word(text) =>
      if text == "true" then Bool(true) else if text == "false" then Bool(false) else if text == "null" then Null
      else NumberValue(cfg, text).value
    case Quoted(raw) => Str(Unescape(raw).value)
    case Array(items, _) => Arr(ItemValues(cfg, items))
    case Object(members, _) => Obj(MembersOf(cfg, [], members))
  }

  ghost function ItemValues(cfg: Config, items: seq<Item>): seq<Value>
    requires forall i | 0 <= i < |items| :: WellSpelledItem(cfg, items[i])
    decreases items, 0
  {
    if items == [] then []
    else
      assert WellSpelledItem(cfg, items[0]);
      [ValueOf(cfg, items[0].value)] + ItemValues(cfg, items[1..])
  }

  /** Members are set one after the other: they end up in key order, and the last of a name counts. */
  ghost function MembersOf(cfg: Config, acc: seq<Member>, members: seq<Pair>): seq<Member>
    requires forall i | 0 <= i < |members| :: WellSpelledPair(cfg, members[i])
    decreases members, 0
  {
    if members == [] then acc
    else
      assert WellSpelledPair(cfg, members[0]);
      MembersOf(cfg, SetMember(acc, Unescape(members[0].name).value, ValueOf(cfg, members[0].value)), members[1..])
  }

  function Max(a: nat, b: nat): nat {
    if a < b then b else a
  }

  /** How deep the text is nested; a word has depth 1. */
  function DepthOf(j: Json): (d: nat)
    ensures d > 0
    decreases j, 0
  {
    match j
    case Array(items, _) => 1 + ItemsDepthOf(items)
    case Object(members, _) => 1 + MembersDepthOf(members)
    case _ => 1
  }

  function ItemsDepthOf(items: seq<Item>): nat
    decreases items, 0
  {
    if items == [] then 0 else Max(DepthOf(items[0].value), ItemsDepthOf(items[1..]))
  }

  function MembersDepthOf(members: seq<Pair>): nat
    decreases members, 0
  {
    if members == [] then 0 else Max(DepthOf(members[0].value), MembersDepthOf(members[1..]))
  }

  // ---------- Texts from the front ----------

  /** What follows an item: the rest of the array. */
  function ItemsTail(items: seq<Item>, gap: string): string {
    if items == [] then gap + "]" else "," + SpellItem(items[0]) + ItemsTail(items[1..], gap)
  }

  function MembersTail(members: seq<Pair>, gap: string): string {
    if members == [] then gap + "}" else "," + SpellPair(members[0]) + MembersTail(members[1..], gap)
  }

  lemma {:induction false} ItemsFromFront(items: seq<Item>, gap: string)
    requires items != []
    ensures SpellItems(items) + (gap + "]") == SpellItem(items[0]) + ItemsTail(items[1..], gap)
  {
    hide SpellItem;
    ItemsJoin(items, 1, gap);
    assert items[..1][..0] == [];
    assert SpellItems(items[..1]) == "" + "" + SpellItem(items[0]) == SpellItem(items[0]);
  }

  lemma {:induction false} ItemsJoin(items: seq<Item>, k: nat, gap: string)
    requires 0 < k <= |items|
    ensures SpellItems(items) + (gap + "]") == SpellItems(items[..k]) + ItemsTail(items[k..], gap)
    decreases |items| - k
  {
    hide SpellItem;
    if k == |items| {
      assert items[..k] == items;
    } else {
      ItemsJoin(items, k + 1, gap);
      var longer, rest := items[..k + 1], items[k..];
      assert longer[..k] == items[..k] && rest[1..] == items[k + 1..];
      assert SpellItems(longer) == SpellItems(items[..k]) + "," + SpellItem(items[k]);
    }
  }

  lemma {:induction false} MembersFromFront(members: seq<Pair>, gap: string)
    requires members != []
    ensures SpellMembers(members) + (gap + "}") == SpellPair(members[0]) + MembersTail(members[1..], gap)
  {
    hide SpellPair;
    MembersJoin(members, 1, gap);
    assert members[..1][..0] == [];
    assert SpellMembers(members[..1]) == "" + "" + SpellPair(members[0]) == SpellPair(members[0]);
  }

  lemma {:induction false} MembersJoin(members: seq<Pair>, k: nat, gap: string)
    requires 0 < k <= |members|
    ensures SpellMembers(members) + (gap + "}") == SpellMembers(members[..k]) + MembersTail(members[k..], gap)
    decreases |members| - k
  {
    hide SpellPair;
    if k == |members| {
      assert members[..k] == members;
    } else {
      MembersJoin(members, k + 1, gap);
      var longer, rest := members[..k + 1], members[k..];
      assert longer[..k] == members[..k] && rest[1..] == members[k + 1..];
      assert SpellMembers(longer) == SpellMembers(members[..k]) + "," + SpellPair(members[k]);
    }
  }
}
