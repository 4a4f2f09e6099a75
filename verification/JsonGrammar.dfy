/** What Json::Reader accepts: tokens, and the value a document denotes. These functions are the
    specification the methods of class Reader are proved against. */
module JsonGrammar {
  import opened Wrappers
  import opened JsonValue
  import opened JsonNumbers
  import opened JsonStrings

  datatype TokenType =
    | EndOfStream | ObjectBegin | ObjectEnd | ArrayBegin | ArrayEnd | StringToken | NumberToken
    | TrueToken | FalseToken | NullToken | ArraySeparator | MemberSeparator | Comment | ErrorToken

  /** The text of a token is `doc[start..end]`. */
  datatype Token = Token(kind: TokenType, start: nat, end: nat)

  /** The features of the reader, and the stream extraction of a double: the text under which a
      token reads as a double, unless it is not a number. */
  datatype Config = Config(allowComments: bool, strictRoot: bool, scanDouble: string -> Option<string>)

  const STACK_LIMIT := 1000

  /** What every token returned by the reader satisfies. */
  predicate IsToken(doc: string, t: Token) {
    && t.start <= t.end <= |doc|
    && (t.kind != EndOfStream ==> t.start < t.end)
    && (t.kind == StringToken ==> t.start + 2 <= t.end)
  }

  // ---------- Tokens ----------

  predicate IsSpace(c: char) { c in {' ', '\t', '\r', '\n'} }

  function SkipSpaces(doc: string, pos: nat): (r: nat)
    requires pos <= |doc|
    ensures pos <= r <= |doc|
    ensures r < |doc| ==> !IsSpace(doc[r])
    decreases |doc| - pos
  {
    if pos < |doc| && IsSpace(doc[pos]) then SkipSpaces(doc, pos + 1) else pos
  }

  function SkipDigits(doc: string, pos: nat): (r: nat)
    requires pos <= |doc|
    ensures pos <= r <= |doc|
    decreases |doc| - pos
  {
    if pos < |doc| && IsDigit(doc[pos]) then SkipDigits(doc, pos + 1) else pos
  }

  predicate CharAt(doc: string, pos: nat, c: char) {
    pos < |doc| && doc[pos] == c
  }

  /** A fractional part, if there is one. */
  function FractionEnd(doc: string, pos: nat): (r: nat)
    requires pos <= |doc|
    ensures pos <= r <= |doc|
  {
    if CharAt(doc, pos, '.') then SkipDigits(doc, pos + 1) else pos
  }

  /** An exponent with its optional sign, if there is one. */
  function ExponentEnd(doc: string, pos: nat): (r: nat)
    requires pos <= |doc|
    ensures pos <= r <= |doc|
  {
    if CharAt(doc, pos, 'e') || CharAt(doc, pos, 'E') then
      if CharAt(doc, pos + 1, '+') || CharAt(doc, pos + 1, '-') then SkipDigits(doc, pos + 2)
      else SkipDigits(doc, pos + 1)
    else pos
  }

  /** The end of a number token whose first character lies before `pos`. */
  function NumberEnd(doc: string, pos: nat): (r: nat)
    requires pos <= |doc|
    ensures pos <= r <= |doc|
  {
    ExponentEnd(doc, FractionEnd(doc, SkipDigits(doc, pos)))
  }

  /** A comment opened by a slash and a star: whether it is closed, and where the cursor stops. */
  function CStyleCommentEnd(doc: string, pos: nat): (r: (bool, nat))
    requires pos <= |doc|
    ensures pos <= r.1 <= |doc|
    decreases |doc| - pos
  {
    if pos == |doc| then (false, pos)
    else if doc[pos] == '*' && CharAt(doc, pos + 1, '/') then (true, pos + 2)
    else CStyleCommentEnd(doc, pos + 1)
  }

  /** A comment opened by two slashes runs to the end of the line. */
  function CppStyleCommentEnd(doc: string, pos: nat): (r: nat)
    requires pos <= |doc|
    ensures pos <= r <= |doc|
    decreases |doc| - pos
  {
    if pos == |doc| then pos
    else if doc[pos] == '\n' then pos + 1
    else if doc[pos] == '\r' then if CharAt(doc, pos + 1, '\n') then pos + 2 else pos + 1
    else CppStyleCommentEnd(doc, pos + 1)
  }

  function CommentEnd(doc: string, pos: nat): (r: (bool, nat))
    requires pos <= |doc|
    ensures pos <= r.1 <= |doc|
  {
    if pos == |doc| then (false, pos)
    else if doc[pos] == '*' then CStyleCommentEnd(doc, pos + 1)
    else if doc[pos] == '/' then (true, CppStyleCommentEnd(doc, pos + 1))
    else (false, pos + 1)
  }

  /** A keyword is matched as a whole or not consumed at all. */
  function KeywordEnd(doc: string, pos: nat, pattern: string): (r: (bool, nat))
    requires pos <= |doc|
    ensures pos <= r.1 <= |doc|
  {
    if pos + |pattern| <= |doc| && doc[pos..pos + |pattern|] == pattern then (true, pos + |pattern|)
    else (false, pos)
  }

  /** The type and end of the token whose first character, at `pos - 1`, is `c`. */
  function TokenBody(doc: string, pos: nat, c: char): (r: (TokenType, nat))
    requires pos <= |doc|
    ensures pos <= r.1 <= |doc|
    ensures r.0 == StringToken ==> pos < r.1
  {
    if c == '{' then (ObjectBegin, pos)
    else if c == '}' then (ObjectEnd, pos)
    else if c == '[' then (ArrayBegin, pos)
    else if c == ']' then (ArrayEnd, pos)
    else if c == ',' then (ArraySeparator, pos)
    else if c == ':' then (MemberSeparator, pos)
    else if c == '\"' then Matched(StringToken, StringEnd(doc, pos))
    else if c == '/' then Matched(Comment, CommentEnd(doc, pos))
    else if IsDigit(c) || c == '-' then (NumberToken, NumberEnd(doc, pos))
    else if c == 't' then Matched(TrueToken, KeywordEnd(doc, pos, "rue"))
    else if c == 'f' then Matched(FalseToken, KeywordEnd(doc, pos, "alse"))
    else if c == 'n' then Matched(NullToken, KeywordEnd(doc, pos, "ull"))
    else if c == '\0' then (EndOfStream, pos)
    else (ErrorToken, pos)
  }

  function Matched(kind: TokenType, r: (bool, nat)): (TokenType, nat) {
    (if r.0 then kind else ErrorToken, r.1)
  }

  function ReadToken(doc: string, pos: nat): (t: Token)
    requires pos <= |doc|
    ensures pos <= t.start && IsToken(doc, t)
  {
    var start := SkipSpaces(doc, pos);
    if start == |doc| then Token(EndOfStream, start, start)
    else
      var (kind, end) := TokenBody(doc, start + 1, doc[start]);
      Token(kind, start, end)
  }

  /** The first token that is not a comment. */
  function SkipComments(doc: string, pos: nat): (t: Token)
    requires pos <= |doc|
    ensures pos <= t.start && IsToken(doc, t)
    decreases |doc| - pos
  {
    var t := ReadToken(doc, pos);
    if t.kind == Comment then SkipComments(doc, t.end) else t
  }

  // ---------- Values ----------

  datatype Result = Ok(value: Value, end: nat) | Failed | Threw

  /** Assignment to a member of an object: the entries stay in key order. */
  function SetMember(members: seq<Member>, name: string, value: Value): seq<Member> {
    if members == [] || KeyLess(name, members[0].name) then [Member(name, value)] + members
    else if KeyEqual(name, members[0].name) then [Member(name, value)] + members[1..]
    else [members[0]] + SetMember(members[1..], name, value)
  }

  function TokenText(doc: string, t: Token): string
    requires t.start <= t.end <= |doc|
  {
    doc[t.start..t.end]
  }

  /** The text between the quotes of a string token. */
  function LiteralText(doc: string, t: Token): string
    requires t.start + 2 <= t.end <= |doc|
  {
    doc[t.start + 1..t.end - 1]
  }

  function ScalarResult(cfg: Config, doc: string, t: Token): (r: Result)
    requires IsToken(doc, t)
    ensures r.Ok? ==> r.end == t.end
  {
    match t.kind
    case NumberToken =>
      (match DecodeNumber(TokenText(doc, t))
       case Integer(v) => Ok(v, t.end)
       case GoesToDouble =>
         match cfg.scanDouble(TokenText(doc, t))
         case Some(text) => Ok(Real(text), t.end)
         case None => Failed)
    case StringToken =>
      (match Unescape(LiteralText(doc, t))
       case Some(s) => Ok(Str(s), t.end)
       case None => Failed)
    case TrueToken => Ok(Bool(true), t.end)
    case FalseToken => Ok(Bool(false), t.end)
    case NullToken => Ok(Null, t.end)
    case _ => Failed
  }

  /** The token a value begins with. */
  function FirstToken(cfg: Config, doc: string, pos: nat): (t: Token)
    requires pos <= |doc|
    ensures pos <= t.start && IsToken(doc, t)
  {
    if cfg.allowComments then SkipComments(doc, pos) else ReadToken(doc, pos)
  }

  /** Reader::readValue with `depth` enclosing calls of readValue. */
  function ReadValue(cfg: Config, doc: string, pos: nat, depth: nat): (r: Result)
    requires pos <= |doc|
    ensures r.Ok? ==> pos <= r.end <= |doc|
    decreases |doc| - pos, 1
  {
    if depth >= STACK_LIMIT then Threw
    else ValueFrom(cfg, doc, FirstToken(cfg, doc, pos), depth + 1)
  }

  /** The value that begins with a token. */
  function ValueFrom(cfg: Config, doc: string, t: Token, depth: nat): (r: Result)
    requires IsToken(doc, t)
    ensures r.Ok? ==> t.end <= r.end <= |doc|
    decreases |doc| - t.start, 0
  {
    if t.kind == ObjectBegin then ReadMembers(cfg, doc, t.end, depth, [], true)
    else if t.kind == ArrayBegin then ReadArray(cfg, doc, SkipSpaces(doc, t.end), depth)
    else ScalarResult(cfg, doc, t)
  }

  function ReadArray(cfg: Config, doc: string, pos: nat, depth: nat): (r: Result)
    requires pos <= |doc|
    ensures r.Ok? ==> pos <= r.end <= |doc|
    decreases |doc| - pos, 3
  {
    if CharAt(doc, pos, ']') then Ok(Arr([]), pos + 1) else ReadItems(cfg, doc, pos, depth, [])
  }

  /** The rest of an array, from where an element is expected. */
  function ReadItems(cfg: Config, doc: string, pos: nat, depth: nat, elems: seq<Value>): (r: Result)
    requires pos <= |doc|
    ensures r.Ok? ==> pos <= r.end <= |doc|
    decreases |doc| - pos, 2
  {
    match ReadValue(cfg, doc, pos, depth)
    case Ok(v, p) =>
      var t := SkipComments(doc, p);
      if t.kind == ArraySeparator then ReadItems(cfg, doc, t.end, depth, elems + [v])
      else if t.kind == ArrayEnd then Ok(Arr(elems + [v]), t.end)
      else Failed
    case Failed => Failed
    case Threw => Threw
  }

  /** The rest of an object, from where a member is expected. The closing brace is accepted
      there when `lastNameEmpty`: at the start, and also behind a member with the empty name. */
  function ReadMembers(cfg: Config, doc: string, pos: nat, depth: nat, members: seq<Member>, lastNameEmpty: bool)
    : (r: Result)
    requires pos <= |doc|
    ensures r.Ok? ==> pos <= r.end <= |doc|
    decreases |doc| - pos, 2
  {
    var t := SkipComments(doc, pos);
    if t.kind == ObjectEnd && lastNameEmpty then Ok(Obj(members), t.end)
    else if t.kind != StringToken then Failed
    else MemberFrom(cfg, doc, t, depth, members)
  }

  /** The rest of an object, from the name of a member on. */
  function MemberFrom(cfg: Config, doc: string, t: Token, depth: nat, members: seq<Member>): (r: Result)
    requires IsToken(doc, t) && t.kind == StringToken
    ensures r.Ok? ==> t.end <= r.end <= |doc|
    decreases |doc| - t.start, 1
  {
    match Unescape(LiteralText(doc, t))
    case None => Failed
    case Some(name) =>
      var colon := ReadToken(doc, t.end);
      if colon.kind != MemberSeparator then Failed
      else
        match ReadValue(cfg, doc, colon.end, depth)
        case Ok(v, p) => AfterMember(cfg, doc, p, depth, SetMember(members, name, v), name == "")
        case Failed => Failed
        case Threw => Threw
  }

  /** What follows a member: a comma or the closing brace; behind a comment, any token but the
      brace is taken for the comma. */
  function AfterMember(cfg: Config, doc: string, pos: nat, depth: nat, members: seq<Member>, lastNameEmpty: bool)
    : (r: Result)
    requires pos <= |doc|
    ensures r.Ok? ==> pos <= r.end <= |doc|
    decreases |doc| - pos, 3
  {
    if ReadToken(doc, pos).kind !in {ObjectEnd, ArraySeparator, Comment} then Failed
    else
      var comma := SkipComments(doc, pos);
      if comma.kind == ObjectEnd then Ok(Obj(members), comma.end)
      else ReadMembers(cfg, doc, comma.end, depth, members, lastNameEmpty)
  }

  /** Reader::parse: text behind the value is ignored. */
  function Parse(cfg: Config, doc: string): Result {
    var r := ReadValue(cfg, doc, 0, 0);
    if r.Ok? && cfg.strictRoot && !r.value.Arr? && !r.value.Obj? then Failed else r
  }
}
