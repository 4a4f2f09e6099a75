/** What stands between the quotes of a string, by section 7 of RFC 8259, and how short it can be. */
module JsonLiterals {
  import opened Wrappers
  import opened Chars
  import opened Utf8
  import opened JsonStrings
  import opened JsonSyntax

  // ---------- Pieces ----------

  /** The letter behind a backslash and the byte it stands for. */
  const ESCAPES: map<char, int> := map[
    '\"' := 0x22, '\\' := 0x5C, '/' := 0x2F, 'b' := 0x08, 'f' := 0x0C, 'n' := 0x0A, 'r' := 0x0D, 't' := 0x09]

  /** A byte as it is, an escape of two characters, or four digits behind `\u`, once or twice. */
  datatype Piece =
    | Plain(c: char)
    | Short(letter: char)
    | Unit(quad: string, u: nat)
    | Units(high: string, h: nat, low: string, l: nat)

  predicate HighSurrogate(u: nat) { 0xD800 <= u <= 0xDBFF }

  /** A high surrogate must have a second escape behind it; any four digits will do there. */
  ghost predicate IsPiece(p: Piece) {
    match p
    case Plain(c) => c != '\"' && c != '\\'
    case Short(letter) => letter in ESCAPES
    case Unit(quad, u) => |quad| == 4 && HexSpells(quad, u) && !HighSurrogate(u)
    case Units(high, h, low, l) =>
      |high| == |low| == 4 && HexSpells(high, h) && HexSpells(low, l) && HighSurrogate(h)
  }

  function PieceText(p: Piece): string {
    match p
    case Plain(c) => [c]
    case Short(letter) => "\\" + [letter]
    case Unit(quad, _) => "\\u" + quad
    case Units(high, _, low, _) => "\\u" + (high + "\\u" + low)
  }

  /** The bytes a piece stands for. */
  ghost function PieceBytes(p: Piece): string
    requires IsPiece(p)
  {
    match p
    case Plain(c) => [c]
    case Short(letter) => [ESCAPES[letter] as char]
    case Unit(_, u) => CodePointToUtf8(u)
    case Units(_, h, _, l) => CodePointToUtf8(0x10000 + (h - 0xD800) * 0x400 + l % 0x400)
  }

  ghost predicate ArePieces(ps: seq<Piece>) { forall i | 0 <= i < |ps| :: IsPiece(ps[i]) }

  function Texts(ps: seq<Piece>): string {
    if ps == [] then "" else PieceText(ps[0]) + Texts(ps[1..])
  }

  ghost function Bytes(ps: seq<Piece>): string
    requires ArePieces(ps)
  {
    if ps == [] then "" else PieceBytes(ps[0]) + Bytes(ps[1..])
  }

  // ---------- Decoding is by pieces ----------

  /** The table of section 7 of RFC 8259. */
  lemma ShortEscapesExactly(letter: char)
    ensures SimpleEscape(letter) == if letter in ESCAPES then Some(ESCAPES[letter] as char) else None
  {
  }

  lemma UnicodeDecodes(e: string, rest: string, cp: nat)
    requires CodePoint(e + rest) == Some(Escaped(cp, |e|))
    ensures Unescape("\\u" + e + rest) == Prepend(CodePointToUtf8(cp), Unescape(rest))
  {
    hide CodePoint, CodePointToUtf8;
    var t := "\\u" + e + rest;
    assert t[2..] == e + rest && t[2..][|e|..] == rest;
  }

  lemma PieceDecodes(p: Piece, rest: string)
    requires IsPiece(p)
    ensures Unescape(PieceText(p) + rest) == Prepend(PieceBytes(p), Unescape(rest))
  {
    hide HexSpells, CodePointToUtf8, CodePoint;
    match p {
      case Plain(c) => assert ([c] + rest)[1..] == rest;
      case Short(letter) =>
        ShortEscapesExactly(letter);
        assert ("\\" + [letter] + rest)[2..] == rest;
      case Unit(quad, u) =>
        hide Unescape;
        assert (quad + rest)[..4] == quad;
        QuadExactly(quad + rest, u);
        QuadDecodes(quad, rest, u);
        UnicodeDecodes(quad, rest, u);
      case Units(high, h, low, l) =>
        hide Unescape;
        PairDecodes(high, low, rest, h, l);
        UnicodeDecodes(high + "\\u" + low, rest, 0x10000 + (h - 0xD800) * 0x400 + l % 0x400);
    }
  }

  lemma PieceIsRaw(p: Piece, rest: string)
    requires IsPiece(p)
    ensures IsRaw(PieceText(p) + rest) <==> IsRaw(rest)
  {
    hide HexSpells;
    match p {
      case Plain(c) => assert ([c] + rest)[1..] == rest;
      case Short(letter) => assert ("\\" + [letter] + rest)[2..] == rest;
      case Unit(quad, u) => UnitIsRaw(quad, rest, u);
      case Units(high, h, low, l) =>
        hide IsRaw;
        UnitIsRaw(low, rest, l);
        UnitIsRaw(high, "\\u" + low + rest, h);
        assert "\\u" + (high + "\\u" + low) + rest == "\\u" + high + ("\\u" + low + rest);
    }
  }

  lemma UnitIsRaw(quad: string, rest: string, u: nat)
    requires |quad| == 4 && HexSpells(quad, u)
    ensures IsRaw("\\u" + quad + rest) <==> IsRaw(rest)
  {
    hide HexSpells;
    QuadsAreRaw(quad, rest, u);
    assert ("\\u" + quad + rest)[2..] == quad + rest;
  }

  /** Digits are raw characters. */
  lemma QuadsAreRaw(quad: string, rest: string, u: nat)
    requires |quad| == 4 && HexSpells(quad, u)
    ensures IsRaw(quad + rest) <==> IsRaw(rest)
  {
    hide HexNumber, IsRaw;
    HexNumberExactly(quad, u);
    var t := quad + rest;
    assert forall i | 0 <= i < 4 :: t[i] == quad[i] && IsHex(quad[i]);
    DigitIsRaw(t);
    DigitIsRaw(t[1..]);
    DigitIsRaw(t[2..]);
    DigitIsRaw(t[3..]);
    assert t[1..][1..] == t[2..] && t[2..][1..] == t[3..] && t[3..][1..] == t[4..] && t[4..] == rest;
  }

  lemma DigitIsRaw(t: string)
    requires t != "" && IsHex(t[0])
    ensures IsRaw(t) <==> IsRaw(t[1..])
  {
  }

  lemma {:induction false} PiecesDecode(ps: seq<Piece>)
    requires ArePieces(ps)
    ensures Unescape(Texts(ps)) == Some(Bytes(ps)) && IsRaw(Texts(ps))
  {
    hide PieceText, PieceBytes, IsPiece;
    if ps != [] {
      assert IsPiece(ps[0]);
      PiecesDecode(ps[1..]);
      PieceDecodes(ps[0], Texts(ps[1..]));
      PieceIsRaw(ps[0], Texts(ps[1..]));
    }
  }

  /** The first piece of a text that can be decoded. */
  lemma FirstPiece(t: string) returns (p: Piece)
    requires t != "" && IsRaw(t) && Unescape(t).Some?
    ensures IsPiece(p) && PieceText(p) <= t && PieceText(p) != ""
    ensures IsRaw(t[|PieceText(p)|..]) && Unescape(t[|PieceText(p)|..]).Some?
  {
    hide HexSpells, CodePointToUtf8;
    if t[0] != '\\' {
      p := Plain(t[0]);
    } else if t[1] != 'u' {
      p := Short(t[1]);
      ShortEscapesExactly(t[1]);
    } else {
      p := FirstUnit(t);
    }
    assert t == PieceText(p) + t[|PieceText(p)|..];
    PieceDecodes(p, t[|PieceText(p)|..]);
    PieceIsRaw(p, t[|PieceText(p)|..]);
  }

  lemma FirstUnit(t: string) returns (p: Piece)
    requires |t| >= 2 && t[0] == '\\' && t[1] == 'u' && Unescape(t).Some?
    ensures IsPiece(p) && PieceText(p) <= t && PieceText(p) != ""
  {
    hide HexSpells, HexValue;
    var e := t[2..];
    var u := HexQuad(e).value;
    QuadExactly(e, u);
    assert t == "\\u" + e;
    if HighSurrogate(u) {
      var l := HexQuad(e[6..]).value;
      QuadExactly(e[6..], l);
      p := Units(e[..4], u, e[6..][..4], l);
      assert e[..10] == e[..4] + "\\u" + e[6..][..4];
      assert PieceText(p) == t[..12];
    } else {
      p := Unit(e[..4], u);
      assert PieceText(p) == t[..6];
    }
  }

  lemma {:induction false} DecodedIsPieces(t: string) returns (ps: seq<Piece>)
    requires IsRaw(t) && Unescape(t).Some?
    ensures ArePieces(ps) && Texts(ps) == t
    decreases |t|
  {
    hide PieceText, PieceBytes, IsPiece, IsRaw, Unescape;
    ps := [];
    if t != "" {
      var p := FirstPiece(t);
      var rest := DecodedIsPieces(t[|PieceText(p)|..]);
      ps := [p] + rest;
      assert ps[1..] == rest;
    }
  }

  /** The text between the quotes denotes a string exactly when it is made of pieces that stand for it. */
  lemma UnescapeExactly(t: string, s: string)
    ensures IsRaw(t) && Unescape(t) == Some(s) <==> exists ps :: ArePieces(ps) && Texts(ps) == t && Bytes(ps) == s
  {
    hide Unescape, IsRaw, Texts, Bytes, ArePieces;
    if IsRaw(t) && Unescape(t) == Some(s) {
      var ps := DecodedIsPieces(t);
      PiecesDecode(ps);
    }
    if exists ps :: ArePieces(ps) && Texts(ps) == t && Bytes(ps) == s {
      var ps :| ArePieces(ps) && Texts(ps) == t && Bytes(ps) == s;
      PiecesDecode(ps);
    }
  }

  // ---------- The printed literal is the shortest ----------

  /** No control characters, which section 7 of RFC 8259 wants escaped. */
  ghost predicate NoControls(t: string) { forall i | 0 <= i < |t| :: t[i] as int > 0x1F }

  lemma {:induction false} EscapeConcat(a: string, b: string)
    ensures Escape(a + b) == Escape(a) + Escape(b)
  {
    if a == [] {
      assert a + b == b;
    } else {
      assert (a + b)[1..] == a[1..] + b;
      EscapeConcat(a[1..], b);
    }
  }

  lemma {:induction false} EscapeHasNoControls(s: string)
    ensures NoControls(Escape(s))
  {
    if s != [] {
      EscapeHasNoControls(s[1..]);
      EscapedChar(s[0]);
    }
  }

  /** At most six characters, and only one for a byte that is not below 0x20 and neither a quote nor a
      backslash. */
  lemma EscapedChar(c: char)
    ensures NoControls(EscapeChar(c)) && 1 <= |EscapeChar(c)| <= 6
    ensures c as int > 0x1F && c != '\"' && c != '\\' ==> |EscapeChar(c)| == 1
    ensures c as int in ESCAPES.Values ==> |EscapeChar(c)| <= 2
  {
  }

  lemma {:induction false} EscapeOfHighBytes(s: string)
    requires forall i | 0 <= i < |s| :: s[i] as int >= 0x80
    ensures |Escape(s)| == |s|
  {
    if s != [] {
      assert s[0] as int >= 0x80;
      EscapedChar(s[0]);
      EscapeOfHighBytes(s[1..]);
    }
  }

  lemma EscapeOfOne(c: char)
    ensures Escape([c]) == EscapeChar(c)
  {
    assert [c][1..] == [];
    assert EscapeChar(c) + [] == EscapeChar(c);
  }

  /** Bytes of a code point take no more room than its escape of six characters. */
  lemma EscapeOfCodePoint(cp: nat)
    requires cp <= MAX_CODE_POINT
    ensures |Escape(CodePointToUtf8(cp))| <= 6
  {
    hide EscapeChar, Escape;
    if cp <= 0x7F {
      EscapeOfOne(cp as char);
      EscapedChar(cp as char);
    } else {
      var s := CodePointToUtf8(cp);
      EncodingIsExact(cp);
      EscapeOfHighBytes(s);
    }
  }

  lemma PieceIsNoShorter(p: Piece)
    requires IsPiece(p) && NoControls(PieceText(p))
    ensures |Escape(PieceBytes(p))| <= |PieceText(p)|
  {
    hide EscapeChar, Escape, CodePointToUtf8, HexSpells;
    match p {
      case Plain(c) =>
        assert [c][0] == c;
        EscapeOfOne(c);
        EscapedChar(c);
      case Short(letter) =>
        EscapeOfOne(ESCAPES[letter] as char);
        EscapedChar(ESCAPES[letter] as char);
      case Unit(quad, u) =>
        QuadBound(quad, u);
        EscapeOfCodePoint(u);
      case Units(high, h, low, l) => EscapeOfCodePoint(0x10000 + (h - 0xD800) * 0x400 + l % 0x400);
    }
  }

  lemma QuadBound(quad: string, u: nat)
    requires |quad| == 4 && HexSpells(quad, u)
    ensures u <= 0xFFFF
  {
    assert quad[..4] == quad;
    QuadExactly(quad, u);
  }

  lemma {:induction false} PiecesAreNoShorter(ps: seq<Piece>)
    requires ArePieces(ps) && NoControls(Texts(ps))
    ensures |Escape(Bytes(ps))| <= |Texts(ps)|
  {
    hide PieceText, PieceBytes, IsPiece, Escape;
    if ps == [] {
      assert Escape("") == "" by { NothingEscaped(); }
    } else {
      assert IsPiece(ps[0]);
      var t, rest := PieceText(ps[0]), Texts(ps[1..]);
      assert forall i | 0 <= i < |t| :: t[i] == (t + rest)[i];
      assert forall i | 0 <= i < |rest| :: rest[i] == (t + rest)[|t| + i];
      PieceIsNoShorter(ps[0]);
      PiecesAreNoShorter(ps[1..]);
      EscapeConcat(PieceBytes(ps[0]), Bytes(ps[1..]));
    }
  }

  lemma NothingEscaped()
    ensures Escape("") == ""
  {
  }

  /** What is printed between the quotes is a shortest text without control characters that is read as
      the string. */
  lemma EscapeIsShortest(s: string, t: string)
    requires IsRaw(t) && NoControls(t) && Unescape(t) == Some(s)
    ensures |Escape(s)| <= |t|
  {
    hide Escape, Unescape, IsRaw, Bytes, Texts, ArePieces;
    var ps := DecodedIsPieces(t);
    PiecesDecode(ps);
    PiecesAreNoShorter(ps);
  }

  /** An escape of more than two characters is written with digits and capital letters. */
  lemma LongEscapesAreUpper(c: char)
    requires |EscapeChar(c)| > 2
    ensures EscapeChar(c) == "\\u00" + [UPPER_DIGITS[c as int / 16], UPPER_DIGITS[c as int % 16]]
  {
  }
}
