/** The language Json::Reader accepts, a superset of JSON: comments, numbers without digits in places,
    a brace behind an empty name and, behind a comment, any token in place of a comma. */
module JsonDialect {
  import opened Wrappers
  import opened JsonValue
  import opened JsonNumbers
  import opened JsonStrings
  import opened JsonGrammar
  import opened JsonSyntax

  // ---------- White space and comments ----------

  predicate IsLineEnd(c: char) { c == '\n' || c == '\r' }

  ghost predicate IsBlockComment(s: string) {
    && |s| >= 4 && s[..2] == "/*" && s[|s| - 2..] == "*/"
    && forall i | 2 <= i < |s| - 2 :: !(s[i] == '*' && s[i + 1] == '/')
  }

  ghost predicate IsLineComment(s: string) {
    |s| >= 3 && s[..2] == "//" && IsLineEnd(s[|s| - 1]) && forall i | 2 <= i < |s| - 1 :: !IsLineEnd(s[i])
  }

  ghost predicate IsComment(s: string) { IsBlockComment(s) || IsLineComment(s) }

  /** Any mix of white space and comments. */
  ghost predicate IsFiller(s: string)
    decreases |s|
  {
    || s == ""
    || (IsSpace(s[0]) && IsFiller(s[1..]))
    || exists k | 0 < k <= |s| :: IsComment(s[..k]) && IsFiller(s[k..])
  }

  /** What may precede a value. */
  ghost predicate IsLead(cfg: Config, s: string) {
    if cfg.allowComments then IsFiller(s) else IsGap(s)
  }

  // ---------- Words ----------

  predicate IsLooseFraction(t: string) { t == "" || (t[0] == '.' && IsDigits(t[1..])) }

  predicate IsLooseExponent(t: string) {
    t == "" || ((t[0] == 'e' || t[0] == 'E') &&
                (IsDigits(t[1..]) || (|t| > 1 && (t[1] == '+' || t[1] == '-') && IsDigits(t[2..]))))
  }

  /** The parts of a number, each of which may lack its digits. */
  predicate IsLooseNumber(n: Number) {
    (n.minus || n.digits != "") && IsDigits(n.digits) && IsLooseFraction(n.fraction) && IsLooseExponent(n.exponent)
  }

  ghost predicate IsLooseNumeral(t: string) { exists n :: IsLooseNumber(n) && t == SpellNumber(n) }

  ghost predicate IsLiteral(t: string) {
    |t| >= 2 && t[0] == '\"' && t[|t| - 1] == '\"' && IsRaw(t[1..|t| - 1])
  }

  /** What a word is read as. */
  ghost function WordValue(cfg: Config, t: string): Option<Value> {
    if t == "true" then Some(Bool(true))
    else if t == "false" then Some(Bool(false))
    else if t == "null" then Some(Null)
    else if IsLiteral(t) then
      match Unescape(t[1..|t| - 1])
      case Some(s) => Some(Str(s))
      case None => None
    else if IsLooseNumeral(t) && t != "" then NumberValue(cfg, t)
    else None
  }

  /** What stands for a comma behind a comment: any token but a closing brace. */
  ghost predicate IsSeparator(t: string) {
    || IsName(t) || IsLiteral(t) || IsLooseNumeral(t)
    || (|t| == 1 && !IsSpace(t[0]) && t[0] !in {'}', '\"', '/'})
    || (|t| == 2 && t[0] == '/' && t[1] !in {'*', '/'})
  }

  // ---------- Trees ----------

  datatype Phrase =
    | Scalar(text: string)
    | EmptyArray(gap: string)
    | Elements(element: Element)
    | Members(entry: Entry)

  /** An element of an array and those behind it. */
  datatype Element = Element(before: string, value: Phrase, after: string, next: Option<Element>)

  /** The closing brace, or a member and what follows it: the closing brace, or a separator. */
  datatype Entry =
    | Close(gap: string)
    | Entry(before: string, name: string, beforeColon: string, afterColon: string, value: Phrase, after: string,
            next: Option<Separated>)

  datatype Separated = Separated(separator: string, entry: Entry)

  function Text(p: Phrase): string
    decreases p
  {
    match p
    case Scalar(text) => text
    case EmptyArray(gap) => "[" + (gap + "]")
    case Elements(element) => "[" + ElementText(element)
    case Members(entry) => "{" + EntryText(entry)
  }

  function ElementText(e: Element): string
    decreases e
  {
    e.before + (Text(e.value) + (e.after + NextElementText(e.next)))
  }

  function NextElementText(next: Option<Element>): string
    decreases next
  {
    match next
    case None => "]"
    case Some(e) => "," + ElementText(e)
  }

  function EntryText(m: Entry): string
    decreases m
  {
    match m
    case Close(gap) => gap + "}"
    case Entry(before, name, beforeColon, afterColon, value, after, next) =>
      before + (("\"" + name + "\"") + ((beforeColon + ":") + (afterColon + (Text(value) + (after + NextText(next))))))
  }

  function NextText(next: Option<Separated>): string
    decreases next
  {
    match next
    case None => "}"
    case Some(s) => s.separator + EntryText(s.entry)
  }

  // ---------- Values ----------

  /** The value of a tree, if it belongs to the language. */
  ghost function Denoted(cfg: Config, p: Phrase): (r: Option<Value>)
    decreases p
  {
    match p
    case Scalar(text) => WordValue(cfg, text)
    case EmptyArray(gap) => if IsGap(gap) then Some(Arr([])) else None
    case Elements(element) =>
      (match ElementsDenoted(cfg, element)
       case Some(values) => Some(Arr(values))
       case None => None)
    case Members(entry) =>
      match EntriesDenoted(cfg, [], entry, true)
      case Some(members) => Some(Obj(members))
      case None => None
  }

  ghost function ElementsDenoted(cfg: Config, e: Element): Option<seq<Value>>
    decreases e
  {
    var v := Denoted(cfg, e.value);
    if !IsLead(cfg, e.before) || v.None? || !IsFiller(e.after) then None
    else
      match e.next
      case None => Some([v.value])
      case Some(next) =>
        match ElementsDenoted(cfg, next)
        case Some(values) => Some([v.value] + values)
        case None => None
  }

  /** Members are set one after the other; `mayClose` where the closing brace may stand for a member. */
  ghost function EntriesDenoted(cfg: Config, acc: seq<Member>, m: Entry, mayClose: bool): Option<seq<Member>>
    decreases m
  {
    match m
    case Close(gap) => if mayClose && IsFiller(gap) then Some(acc) else None
    case Entry(before, name, beforeColon, afterColon, value, after, next) =>
      var v := Denoted(cfg, value);
      var key := if IsRaw(name) then Unescape(name) else None;
      if key.None? || v.None? || !IsFiller(before) || !IsGap(beforeColon) || !IsLead(cfg, afterColon)
         || !IsFiller(after) then None
      else
        var longer := SetMember(acc, key.value, v.value);
        match next
        case None => Some(longer)
        case Some(s) =>
          if s.separator == "," || (!IsGap(after) && IsSeparator(s.separator))
          then EntriesDenoted(cfg, longer, s.entry, key.value == "")
          else None
  }

  // ---------- Depth ----------

  /** How deep the text is nested; a word has depth 1. */
  function Nesting(p: Phrase): (d: nat)
    ensures d > 0
    decreases p
  {
    match p
    case Elements(element) => 1 + ElementsNesting(element)
    case Members(entry) => 1 + EntriesNesting(entry)
    case _ => 1
  }

  function ElementsNesting(e: Element): nat
    decreases e
  {
    Max(Nesting(e.value), match e.next case None => 0 case Some(next) => ElementsNesting(next))
  }

  function EntriesNesting(m: Entry): nat
    decreases m
  {
    match m
    case Close(_) => 0
    case Entry(_, _, _, _, value, _, next) =>
      Max(Nesting(value), match next case None => 0 case Some(s) => EntriesNesting(s.entry))
  }

  // ---------- Parts and wholes ----------

  lemma ElementsUnfold(cfg: Config, e: Element)
    requires ElementsDenoted(cfg, e).Some?
    ensures IsLead(cfg, e.before) && IsFiller(e.after) && Denoted(cfg, e.value).Some?
    ensures match e.next
            case None =>
              ElementsDenoted(cfg, e).value == [Denoted(cfg, e.value).value] && ElementsNesting(e) == Nesting(e.value)
            case Some(next) =>
              && ElementsDenoted(cfg, next).Some?
              && ElementsDenoted(cfg, e).value == [Denoted(cfg, e.value).value] + ElementsDenoted(cfg, next).value
              && ElementsNesting(e) == Max(Nesting(e.value), ElementsNesting(next))
  {
  }

  /** What an element with good parts denotes. */
  lemma ElementDenotes(cfg: Config, e: Element, v: Value)
    requires IsLead(cfg, e.before) && Denoted(cfg, e.value) == Some(v) && IsFiller(e.after)
    requires e.next.Some? ==> ElementsDenoted(cfg, e.next.value).Some?
    ensures ElementsDenoted(cfg, e) ==
              Some([v] + if e.next.Some? then ElementsDenoted(cfg, e.next.value).value else [])
    ensures ElementsNesting(e) ==
              Max(Nesting(e.value), match e.next case None => 0 case Some(next) => ElementsNesting(next))
  {
    hide IsFiller, IsLead;
    assert [v] + [] == [v];
  }

  lemma EntriesUnfold(cfg: Config, acc: seq<Member>, m: Entry, mayClose: bool)
    requires m.Entry? && EntriesDenoted(cfg, acc, m, mayClose).Some?
    ensures IsFiller(m.before) && IsGap(m.beforeColon) && IsLead(cfg, m.afterColon) && IsFiller(m.after)
    ensures IsRaw(m.name) && Unescape(m.name).Some? && Denoted(cfg, m.value).Some?
    ensures var longer := SetMember(acc, Unescape(m.name).value, Denoted(cfg, m.value).value);
            match m.next
            case None => EntriesDenoted(cfg, acc, m, mayClose).value == longer && EntriesNesting(m) == Nesting(m.value)
            case Some(s) =>
              && (s.separator == "," || (!IsGap(m.after) && IsSeparator(s.separator)))
              && EntriesDenoted(cfg, acc, m, mayClose)
                 == EntriesDenoted(cfg, longer, s.entry, Unescape(m.name).value == "")
              && EntriesNesting(m) == Max(Nesting(m.value), EntriesNesting(s.entry))
  {
  }

  /** What a member with good parts denotes. */
  lemma EntryDenotes(cfg: Config, acc: seq<Member>, m: Entry, mayClose: bool, name: string, v: Value)
    requires m.Entry? && IsFiller(m.before) && IsRaw(m.name) && Unescape(m.name) == Some(name) && IsGap(m.beforeColon)
    requires IsLead(cfg, m.afterColon) && Denoted(cfg, m.value) == Some(v) && IsFiller(m.after)
    requires m.next.Some? ==>
               m.next.value.separator == "," || (!IsGap(m.after) && IsSeparator(m.next.value.separator))
    ensures EntriesDenoted(cfg, acc, m, mayClose) ==
              match m.next
              case None => Some(SetMember(acc, name, v))
              case Some(s) => EntriesDenoted(cfg, SetMember(acc, name, v), s.entry, name == "")
    ensures EntriesNesting(m) ==
              Max(Nesting(m.value), match m.next case None => 0 case Some(s) => EntriesNesting(s.entry))
  {
    hide IsFiller, IsRaw, IsGap, IsLead, IsSeparator, Unescape, SetMember;
  }
}
