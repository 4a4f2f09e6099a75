/** String literals of the JSON library: valueToQuotedString(N), Reader::readString and
    Reader::decodeString with its unicode escapes. */
module JsonStrings {
  import opened Wrappers
  import opened Utf8
  import opened Chars
  import opened Sequences

  const BACKSPACE: char := '\U{8}'
  const FORM_FEED: char := '\U{C}'

  // ---------- Printing ----------

  function EscapeChar(c: char): (r: string) {
    if c == '\"' then "\\\""
    else if c == '\\' then "\\\\"
    else if c == BACKSPACE then "\\b"
    else if c == FORM_FEED then "\\f"
    else if c == '\n' then "\\n"
    else if c == '\r' then "\\r"
    else if c == '\t' then "\\t"
    else if c as int <= 0x1F then "\\u00" + [HexDigit(c as int / 16), HexDigit(c as int % 16)]
    else [c]
  }

  function Escape(s: string): string {
    if s == [] then [] else EscapeChar(s[0]) + Escape(s[1..])
  }

  function Quote(s: string): string {
    "\"" + Escape(s) + "\""
  }

  predicate NeedsEscape(c: char) { EscapeChar(c) != [c] }

  lemma {:induction false} EscapeOfPlain(s: string)
    requires forall i | 0 <= i < |s| :: !NeedsEscape(s[i])
    ensures Escape(s) == s
  {
    if s != [] {
      assert !NeedsEscape(s[0]);
      EscapeOfPlain(s[1..]);
      assert s == [s[0]] + s[1..];
    }
  }

  predicate IsControlCharacter(c: char) { 0 < c as int <= 0x1F }

  predicate InEscapeSet(c: char) { c in {'\"', '\\', BACKSPACE, FORM_FEED, '\n', '\r', '\t'} }

  /** strnpbrk and containsControlCharacter0: nothing in the bytes needs an escape. */
  method IsPlain(value: string) returns (plain: bool)
    ensures plain ==> NulFree(value) && forall k | 0 <= k < |value| :: !NeedsEscape(value[k])
    ensures !plain ==> exists k | 0 <= k < |value| :: NeedsEscape(value[k])
  {
    plain := true;
    var i := 0;
    while i < |value| && plain
      invariant 0 <= i <= |value|
      invariant plain ==> forall k | 0 <= k < i :: !NeedsEscape(value[k]) && value[k] != '\0'
      invariant !plain ==> exists k | 0 <= k < i :: NeedsEscape(value[k])
    {
      plain := !InEscapeSet(value[i]) && !IsControlCharacter(value[i]) && value[i] != '\0';
      assert plain <==> !NeedsEscape(value[i]);
      i := i + 1;
    }
  }

  /** valueToQuotedStringN: the fast path copies a C string, the slow one escapes byte by byte. */
  method ValueToQuotedStringN(value: string) returns (result: string)
    ensures result == Quote(value)
  {
    var plain := IsPlain(value);
    if plain {
      EscapeOfPlain(value);
      CStringOfNulFree(value);
      return "\"" + CString(value) + "\"";
    }
    hide EscapeChar, Escape;
    EscapeStep(value, |value|);
    result := "\"";
    var c := 0;
    assert value[0..] == value;
    while c != |value|
      invariant 0 <= c <= |value|
      invariant result + Escape(value[c..]) == "\"" + Escape(value)
    {
      EscapeStep(value, c);
      result := result + EscapeChar(value[c]);
      c := c + 1;
    }
    result := result + "\"";
  }

  lemma EscapeStep(s: string, c: nat)
    requires c <= |s|
    ensures Escape(s[c..]) == if c == |s| then "" else EscapeChar(s[c]) + Escape(s[c + 1..])
  {
    if c < |s| { assert s[c..][1..] == s[c + 1..]; }
  }

  /** valueToQuotedString stops at the first null byte, on the fast path too. */
  method ValueToQuotedString(value: string) returns (result: string)
    ensures result == Quote(CString(value))
  {
    hide EscapeChar;
    var plain := IsPlain(CString(value));
    if plain {
      EscapeOfPlain(CString(value));
      return "\"" + CString(value) + "\"";
    }
    result := "\"";
    var c := 0;
    while c != |value| && value[c] != '\0'
      invariant 0 <= c <= |value|
      invariant result + Escape(CString(value[c..])) == "\"" + Escape(CString(value))
    {
      ghost var rest := CString(value[c..]);
      assert rest[0] == value[c] && rest[1..] == CString(value[c + 1..]) by {
        assert value[c..][1..] == value[c + 1..];
      }
      assert Escape(rest) == EscapeChar(value[c]) + Escape(rest[1..]);
      result := result + EscapeChar(value[c]);
      c := c + 1;
    }
    assert CString(value[c..]) == [];
    result := result + "\"";
  }

  // ---------- Finding the end of a literal ----------

  /** Reader::readString from just behind the opening quote: whether a closing quote was found,
      and where the cursor stops. */
  function StringEnd(doc: string, pos: nat): (r: (bool, nat))
    requires pos <= |doc|
    ensures pos <= r.1 <= |doc|
    ensures r.0 ==> pos < r.1
    decreases |doc| - pos
  {
    if pos == |doc| then (false, pos)
    else if doc[pos] == '\"' then (true, pos + 1)
    else if doc[pos] == '\\' then StringEnd(doc, if pos + 1 < |doc| then pos + 2 else pos + 1)
    else StringEnd(doc, pos + 1)
  }

  // ---------- Decoding ----------

  /** Reader::decodeUnicodeEscapeSequence on the text behind `\u`. */
  function HexQuad(t: string): (r: Option<nat>)
    ensures r.Some? ==> |t| >= 4 && r.value <= 0xFFFF
  {
    if |t| >= 4 && IsHex(t[0]) && IsHex(t[1]) && IsHex(t[2]) && IsHex(t[3])
    then Some(HexValue(t[0]) * 4096 + HexValue(t[1]) * 256 + HexValue(t[2]) * 16 + HexValue(t[3]))
    else None
  }

  datatype Escaped = Escaped(codePoint: nat, length: nat)

  /** Reader::decodeUnicodeCodePoint on the text behind `\u`: the code point and how much text
      it takes. */
  function CodePoint(t: string): (r: Option<Escaped>)
    ensures r.Some? ==> 0 < r.value.length <= |t|
  {
    match HexQuad(t)
    case None => None
    case Some(unicode) =>
      if 0xD800 <= unicode <= 0xDBFF then
        if |t| - 4 < 6 || t[4] != '\\' || t[5] != 'u' then None
        else match HexQuad(t[6..])
             case None => None
             case Some(low) => Some(Escaped(0x10000 + unicode % 0x400 * 0x400 + low % 0x400, 10))
      else Some(Escaped(unicode, 4))
  }

  function Prepend(s: string, r: Option<string>): Option<string> {
    match r
    case None => None
    case Some(t) => Some(s + t)
  }

  /** The byte a two-character escape stands for. */
  function SimpleEscape(c: char): Option<char> {
    if c == '\"' then Some('\"')
    else if c == '/' then Some('/')
    else if c == '\\' then Some('\\')
    else if c == 'b' then Some(BACKSPACE)
    else if c == 'f' then Some(FORM_FEED)
    else if c == 'n' then Some('\n')
    else if c == 'r' then Some('\r')
    else if c == 't' then Some('\t')
    else None
  }

  /** The string denoted by the text between the quotes, unless an escape is bad. */
  function Unescape(t: string): Option<string> {
    if t == [] || t[0] == '\"' then Some([])
    else if t[0] != '\\' then Prepend([t[0]], Unescape(t[1..]))
    else if |t| == 1 then None
    else if t[1] == 'u' then
      match CodePoint(t[2..])
      case None => None
      case Some(e) => Prepend(CodePointToUtf8(e.codePoint), Unescape(t[2..][e.length..]))
    else
      match SimpleEscape(t[1])
      case None => None
      case Some(c) => Prepend([c], Unescape(t[2..]))
  }

  /** Reader::decodeUnicodeEscapeSequence: four digits starting at `start`. */
  method DecodeUnicodeEscapeSequence(t: string, start: nat) returns (current: nat, r: Option<nat>)
    requires start <= |t|
    ensures r == HexQuad(t[start..])
    ensures r.Some? ==> current == start + 4
    ensures start <= current <= |t|
  {
    current := start;
    if |t| - current < 4 {
      return current, None;
    }
    var unicode: int := 0;
    ghost var quad := t[start..start + 4];
    for index := 0 to 4
      invariant current == start + index
      invariant IsHexRun(quad[..index])
      invariant unicode == HexNumber(quad[..index])
    {
      var c := t[current];
      assert c == quad[index] && quad[..index + 1][..index] == quad[..index];
      current := current + 1;
      unicode := unicode * 16;
      if '0' <= c <= '9' {
        unicode := unicode + (c as int - '0' as int);
      } else if 'a' <= c <= 'f' {
        unicode := unicode + (c as int - 'a' as int + 10);
      } else if 'A' <= c <= 'F' {
        unicode := unicode + (c as int - 'A' as int + 10);
      } else {
        assert !IsHex(t[start..][index]);
        return current, None;
      }
    }
    HexNumberOfQuad(quad);
    assert forall k | 0 <= k < 4 :: quad[k] == t[start..][k];
    r := Some(unicode);
  }

  lemma HexNumberOfQuad(t: string)
    requires |t| == 4 && IsHexRun(t)
    ensures HexNumber(t[..4]) == HexValue(t[0]) * 4096 + HexValue(t[1]) * 256 + HexValue(t[2]) * 16 + HexValue(t[3])
  {
    assert t[..4][..3] == t[..3] && t[..3][..2] == t[..2] && t[..2][..1] == t[..1] && t[..1][..0] == [];
    assert HexNumber(t[..1]) == HexValue(t[0]);
    assert HexNumber(t[..2]) == HexValue(t[0]) * 16 + HexValue(t[1]);
    assert HexNumber(t[..3]) == HexValue(t[0]) * 256 + HexValue(t[1]) * 16 + HexValue(t[2]);
  }

  /** Reader::decodeUnicodeCodePoint. */
  method DecodeUnicodeCodePoint(t: string, start: nat) returns (current: nat, r: Option<nat>)
    requires start <= |t|
    ensures match CodePoint(t[start..])
            case None => r == None
            case Some(e) => r == Some(e.codePoint) && current == start + e.length
    ensures start <= current <= |t|
  {
    current, r := DecodeUnicodeEscapeSequence(t, start);
    if r.None? {
      return;
    }
    var unicode := r.value;
    if 0xD800 <= unicode <= 0xDBFF {
      if |t| - current < 6 {
        return current, None;
      }
      ghost var rest := t[start..];
      assert t[current] == rest[4] && t[current + 1] == rest[5] && t[current + 2..] == rest[6..];
      if t[current] == '\\' && t[current + 1] == 'u' {
        var low;
        current, low := DecodeUnicodeEscapeSequence(t, current + 2);
        if low.None? {
          return current, None;
        }
        return current, Some(0x10000 + unicode % 0x400 * 0x400 + low.value % 0x400);
      }
      return current, None;
    }
  }

  /** Reader::decodeString on the text between the quotes of a string token. */
  method DecodeString(t: string) returns (r: Option<string>)
    ensures r == Unescape(t)
  {
    var decoded := [];
    var current := 0;
    PrependNothing(Unescape(t));
    assert t[0..] == t;
    while current != |t|
      invariant 0 <= current <= |t|
      invariant Unescape(t) == Prepend(decoded, Unescape(t[current..]))
    {
      ghost var rest := t[current..];
      ghost var before := decoded;
      var c := t[current];
      assert rest[0] == c && rest[1..] == t[current + 1..];
      current := current + 1;
      if c == '\"' {
        assert decoded + [] == decoded;
        return Some(decoded);
      } else if c == '\\' {
        if current == |t| {
          return None;
        }
        var escape := t[current];
        assert rest[1] == escape && rest[2..] == t[current + 1..];
        current := current + 1;
        if escape == 'u' {
          ghost var start := current;
          var unicode;
          current, unicode := DecodeUnicodeCodePoint(t, current);
          if unicode.None? {
            return None;
          }
          decoded := decoded + CodePointToUtf8(unicode.value);
          assert t[start..][current - start..] == t[current..];
          assert Unescape(rest) == Prepend(CodePointToUtf8(unicode.value), Unescape(t[current..]));
        } else {
          var simple := SimpleEscape(escape);
          if simple.None? {
            return None;
          }
          decoded := decoded + [simple.value];
          assert Unescape(rest) == Prepend([simple.value], Unescape(t[current..]));
        }
      } else {
        decoded := decoded + [c];
        assert Unescape(rest) == Prepend([c], Unescape(t[current..]));
      }
      PrependTwice(before, decoded[|before|..], Unescape(t[current..]));
      assert decoded == before + decoded[|before|..];
    }
    assert decoded + [] == decoded;
    r := Some(decoded);
  }

  lemma PrependNothing(r: Option<string>)
    ensures Prepend([], r) == r
  {
    if r.Some? { assert [] + r.value == r.value; }
  }

  lemma PrependTwice(a: string, b: string, r: Option<string>)
    ensures Prepend(a, Prepend(b, r)) == Prepend(a + b, r)
  {
    if r.Some? { assert a + (b + r.value) == a + b + r.value; }
  }

  // ---------- Literals invert ----------

  lemma EscapedCharDecodes(c: char, rest: string)
    ensures Unescape(EscapeChar(c) + rest) == Prepend([c], Unescape(rest))
  {
    var t := EscapeChar(c) + rest;
    if !NeedsEscape(c) {
      assert t[1..] == rest;
    } else if |EscapeChar(c)| == 2 {
      assert t[2..] == rest;
    } else {
      HexDigitValue(c as int / 16);
      HexDigitValue(c as int % 16);
      assert t[2..][4..] == rest;
      assert HexQuad(t[2..]) == Some(c as int);
      assert CodePoint(t[2..]) == Some(Escaped(c as int, 4));
    }
  }

  lemma {:induction false} EscapeDecodes(s: string)
    ensures Unescape(Escape(s)) == Some(s)
  {
    if s != [] {
      EscapeDecodes(s[1..]);
      EscapedCharDecodes(s[0], Escape(s[1..]));
      assert s == [s[0]] + s[1..];
    }
  }

  /** `t` stands in `doc` at `pos`. */
  ghost predicate At(doc: string, pos: nat, t: string) {
    pos + |t| <= |doc| && doc[pos..pos + |t|] == t
  }

  lemma AtSplit(doc: string, pos: nat, a: string, b: string)
    requires At(doc, pos, a + b)
    ensures At(doc, pos, a) && At(doc, pos + |a|, b)
  {
    var both := doc[pos..pos + |a + b|];
    assert both[..|a|] == a && both[|a|..] == b;
    assert doc[pos..pos + |a|] == both[..|a|];
    assert doc[pos + |a|..pos + |a| + |b|] == both[|a|..];
  }

  lemma AtIndex(doc: string, pos: nat, t: string, i: nat)
    requires At(doc, pos, t) && i < |t|
    ensures doc[pos + i] == t[i]
  {
    assert doc[pos..pos + |t|][i] == t[i];
  }

  lemma StringEndSkipsChar(doc: string, pos: nat, c: char)
    requires At(doc, pos, EscapeChar(c))
    ensures StringEnd(doc, pos) == StringEnd(doc, pos + |EscapeChar(c)|)
  {
    var e := EscapeChar(c);
    AtIndex(doc, pos, e, 0);
    if |e| == 6 {
      HexDigitValue(c as int / 16);
      HexDigitValue(c as int % 16);
      AtIndex(doc, pos, e, 2);
      AtIndex(doc, pos, e, 3);
      AtIndex(doc, pos, e, 4);
      AtIndex(doc, pos, e, 5);
      assert StringEnd(doc, pos) == StringEnd(doc, pos + 2);
      assert StringEnd(doc, pos + 2) == StringEnd(doc, pos + 3);
      assert StringEnd(doc, pos + 4) == StringEnd(doc, pos + 5);
    }
  }

  lemma {:induction false} StringEndOfEscape(doc: string, pos: nat, s: string)
    requires At(doc, pos, Escape(s) + "\"")
    ensures StringEnd(doc, pos) == (true, pos + |Escape(s)| + 1)
    decreases |s|
  {
    hide EscapeChar;
    if s == [] {
      AtIndex(doc, pos, "\"", 0);
      assert Escape(s) + "\"" == "\"";
    } else {
      hide StringEnd;
      var e := EscapeChar(s[0]);
      assert Escape(s) + "\"" == e + (Escape(s[1..]) + "\"");
      AtSplit(doc, pos, e, Escape(s[1..]) + "\"");
      StringEndSkipsChar(doc, pos, s[0]);
      StringEndOfEscape(doc, pos + |e|, s[1..]);
    }
  }

  lemma QuotedAt(doc: string, pos: nat, e: string)
    requires At(doc, pos, "\"" + e + "\"")
    ensures doc[pos] == '\"' && At(doc, pos + 1, e + "\"") && doc[pos + 1..pos + 1 + |e|] == e
  {
    assert "\"" + e + "\"" == "\"" + (e + "\"");
    AtSplit(doc, pos, "\"", e + "\"");
    AtIndex(doc, pos, "\"", 0);
    AtSplit(doc, pos + 1, e, "\"");
  }

  /** A printed literal is consumed exactly, whatever follows it, and decodes to the string. */
  lemma LiteralInverts(doc: string, pos: nat, s: string)
    requires At(doc, pos, Quote(s))
    ensures doc[pos] == '\"'
    ensures StringEnd(doc, pos + 1) == (true, pos + |Quote(s)|)
    ensures Unescape(doc[pos + 1..pos + |Quote(s)| - 1]) == Some(s)
  {
    hide StringEnd, Unescape, Escape, At;
    QuotedAt(doc, pos, Escape(s));
    StringEndOfEscape(doc, pos + 1, s);
    EscapeDecodes(s);
  }

  // ---------- Unicode escapes ----------

  /** The four digits of an escape. */
  lemma QuadExactly(t: string, u: nat)
    requires |t| >= 4
    ensures HexQuad(t) == Some(u) <==> HexSpells(t[..4], u)
  {
    hide HexSpells, HexNumber, HexValue;
    var quad := t[..4];
    HexNumberExactly(quad, u);
    assert quad[..4] == quad;
    assert forall i | 0 <= i < 4 :: quad[i] == t[i];
    if IsHexRun(quad) { HexNumberOfQuad(quad); }
  }

  /** The escapes of a code point, in digits of either case: one, or the surrogate pair of section 2.2
      of RFC 2781. */
  ghost predicate EscapesCodePoint(e: string, cp: nat) {
    if cp < 0x10000 then |e| == 4 && HexSpells(e, cp)
    else
      && cp <= MAX_CODE_POINT && |e| == 10 && e[4..6] == "\\u"
      && HexSpells(e[..4], 0xD800 + (cp - 0x10000) / 0x400) && HexSpells(e[6..], 0xDC00 + (cp - 0x10000) % 0x400)
  }

  lemma CodePointInverts(cp: nat, e: string, rest: string)
    requires EscapesCodePoint(e, cp) && !(0xD800 <= cp <= 0xDBFF)
    ensures CodePoint(e + rest) == Some(Escaped(cp, |e|))
  {
    hide CodePoint, HexSpells, HexQuad;
    if cp < 0x10000 {
      assert (e + rest)[..4] == e;
      QuadExactly(e + rest, cp);
      QuadDecodes(e, rest, cp);
    } else {
      var u := cp - 0x10000;
      SurrogateHalves(u);
      assert e == e[..4] + "\\u" + e[6..];
      PairDecodes(e[..4], e[6..], rest, 0xD800 + u / 0x400, 0xDC00 + u % 0x400);
    }
  }

  lemma QuadDecodes(a: string, rest: string, u: nat)
    requires |a| == 4 && HexQuad(a + rest) == Some(u) && !(0xD800 <= u <= 0xDBFF)
    ensures CodePoint(a + rest) == Some(Escaped(u, 4))
  {
  }

  lemma SurrogateHalves(u: nat)
    requires u <= 0xFFFFF
    ensures 0xD800 <= 0xD800 + u / 0x400 <= 0xDBFF && 0xDC00 + u % 0x400 <= 0xDFFF
    ensures (0xD800 + u / 0x400) % 0x400 == u / 0x400 && (0xDC00 + u % 0x400) % 0x400 == u % 0x400
  {
  }

  /** Behind a high surrogate any four digits count as the low one: only their last ten bits are used. */
  lemma PairDecodes(a: string, b: string, rest: string, high: nat, low: nat)
    requires |a| == |b| == 4 && 0xD800 <= high <= 0xDBFF && HexSpells(a, high) && HexSpells(b, low)
    ensures CodePoint(a + "\\u" + b + rest) == Some(Escaped(0x10000 + (high - 0xD800) * 0x400 + low % 0x400, 10))
  {
    hide HexQuad, HexSpells;
    var t := a + "\\u" + b + rest;
    assert t[..4] == a && t[6..] == b + rest && t[6..][..4] == b;
    assert t[4] == '\\' && t[5] == 'u';
    QuadExactly(t, high);
    QuadExactly(t[6..], low);
  }

  /** No accepted escape leaves the Unicode range, so each one decodes to 1 to 4 bytes. */
  lemma AcceptedEscapeIsInRange(t: string)
    requires CodePoint(t).Some?
    ensures CodePoint(t).value.codePoint <= MAX_CODE_POINT
    ensures 1 <= |CodePointToUtf8(CodePoint(t).value.codePoint)| <= 4
  {
    EncodingIsExact(CodePoint(t).value.codePoint);
  }
}
