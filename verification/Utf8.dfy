/** codePointToUTF8, checked against the encoding of RFC 3629. */
module Utf8 {

  const MAX_CODE_POINT := 0x10FFFF

  /** The masks and shifts are written as remainders and quotients by powers of two. */
  function CodePointToUtf8(cp: nat): (r: string) {
    if cp <= 0x7F then [cp as char]
    else if cp <= 0x7FF then
      [(0xC0 + cp / 64 % 32) as char, (0x80 + cp % 64) as char]
    else if cp <= 0xFFFF then
      [(0xE0 + cp / 4096 % 16) as char, (0x80 + cp / 64 % 64) as char, (0x80 + cp % 64) as char]
    else if cp <= MAX_CODE_POINT then
      [(0xF0 + cp / 262144 % 8) as char, (0x80 + cp / 4096 % 64) as char,
       (0x80 + cp / 64 % 64) as char, (0x80 + cp % 64) as char]
    else ""
  }

  predicate Between(c: char, lo: int, hi: int) { lo <= c as int <= hi }

  /** The byte sequences of the grammar in section 4 of RFC 3629, one line per rule. */
  predicate WellFormed(s: string) {
    || (|s| == 1 && Between(s[0], 0x00, 0x7F))
    || (|s| == 2 && Between(s[0], 0xC2, 0xDF) && Between(s[1], 0x80, 0xBF))
    || (|s| == 3 && Between(s[2], 0x80, 0xBF) &&
        (|| (s[0] as int == 0xE0 && Between(s[1], 0xA0, 0xBF))
         || (Between(s[0], 0xE1, 0xEC) && Between(s[1], 0x80, 0xBF))
         || (s[0] as int == 0xED && Between(s[1], 0x80, 0x9F))
         || (Between(s[0], 0xEE, 0xEF) && Between(s[1], 0x80, 0xBF))))
    || (|s| == 4 && Between(s[2], 0x80, 0xBF) && Between(s[3], 0x80, 0xBF) &&
        (|| (s[0] as int == 0xF0 && Between(s[1], 0x90, 0xBF))
         || (Between(s[0], 0xF1, 0xF3) && Between(s[1], 0x80, 0xBF))
         || (s[0] as int == 0xF4 && Between(s[1], 0x80, 0x8F))))
  }

  /** The number whose bits the bytes carry, by the table in section 3 of RFC 3629. */
  function Payload(s: string): int
    requires 1 <= |s| <= 4
  {
    if |s| == 1 then s[0] as int
    else if |s| == 2 then (s[0] as int - 0xC0) * 64 + (s[1] as int - 0x80)
    else if |s| == 3 then (s[0] as int - 0xE0) * 4096 + (s[1] as int - 0x80) * 64 + (s[2] as int - 0x80)
    else (s[0] as int - 0xF0) * 262144 + (s[1] as int - 0x80) * 4096 + (s[2] as int - 0x80) * 64 + (s[3] as int - 0x80)
  }

  predicate Surrogate(cp: nat) { 0xD800 <= cp <= 0xDFFF }

  /** The groups of six bits of a code point. */
  lemma SixBitGroups(cp: nat)
    ensures cp == cp / 64 * 64 + cp % 64
    ensures cp / 64 == cp / 4096 * 64 + cp / 64 % 64
    ensures cp / 4096 == cp / 262144 * 64 + cp / 4096 % 64
  {
    assert cp / 4096 == cp / 64 / 64;
    assert cp / 262144 == cp / 64 / 64 / 64;
  }

  lemma SixBitGroupsAreUnique(cp: nat, d: nat, c: nat, b: nat, a: nat)
    requires cp == d * 262144 + c * 4096 + b * 64 + a && c < 64 && b < 64 && a < 64
    ensures cp % 64 == a && cp / 64 % 64 == b && cp / 4096 % 64 == c && cp / 262144 == d
    ensures cp / 4096 == d * 64 + c && cp / 64 == d * 4096 + c * 64 + b
  {
    assert cp / 64 == d * 4096 + c * 64 + b;
    assert cp / 4096 == d * 64 + c;
  }

  lemma TwoGroups(b: nat, a: nat)
    requires 2 <= b < 32 && a < 64
    ensures var s := [(0xC0 + b) as char, (0x80 + a) as char];
            Payload(s) == b * 64 + a && WellFormed(s)
  {
  }

  lemma ThreeGroups(c: nat, b: nat, a: nat)
    requires c < 16 && b < 64 && a < 64 && (c == 0 ==> b >= 32)
    ensures var s := [(0xE0 + c) as char, (0x80 + b) as char, (0x80 + a) as char];
            Payload(s) == c * 4096 + b * 64 + a && (WellFormed(s) <==> !(c == 13 && b >= 32))
  {
  }

  lemma FourGroups(d: nat, c: nat, b: nat, a: nat)
    requires c < 64 && b < 64 && a < 64 && 0x10000 <= d * 262144 + c * 4096 + b * 64 + a <= MAX_CODE_POINT
    ensures var s := [(0xF0 + d) as char, (0x80 + c) as char, (0x80 + b) as char, (0x80 + a) as char];
            Payload(s) == d * 262144 + c * 4096 + b * 64 + a && WellFormed(s)
  {
  }

  ghost predicate Exact(cp: nat) {
    var s := CodePointToUtf8(cp);
    && 1 <= |s| <= 4 && Payload(s) == cp
    && |s| == (if cp <= 0x7F then 1 else if cp <= 0x7FF then 2 else if cp <= 0xFFFF then 3 else 4)
    && (forall i | 0 <= i < |s| :: s[i] as int < 256 && (i > 0 ==> Between(s[i], 0x80, 0xBF)))
    && (WellFormed(s) <==> !Surrogate(cp))
  }

  lemma TwoByteCodePoint(cp: nat)
    requires 0x7F < cp <= 0x7FF
    ensures Exact(cp)
  {
    SixBitGroups(cp);
    TwoGroups(cp / 64, cp % 64);
  }

  lemma ThreeByteCodePoint(cp: nat)
    requires 0x7FF < cp <= 0xFFFF
    ensures Exact(cp)
  {
    SixBitGroups(cp);
    ThreeGroups(cp / 4096, cp / 64 % 64, cp % 64);
  }

  lemma FourByteCodePoint(cp: nat)
    requires 0xFFFF < cp <= MAX_CODE_POINT
    ensures Exact(cp)
  {
    hide Payload, WellFormed;
    var d, c, b, a := cp / 262144, cp / 4096 % 64, cp / 64 % 64, cp % 64;
    SixBitGroups(cp);
    FourGroups(d, c, b, a);
    assert CodePointToUtf8(cp)
        == [(0xF0 + d) as char, (0x80 + c) as char, (0x80 + b) as char, (0x80 + a) as char];
  }

  /** Every code point is encoded by 1 to 4 bytes that carry exactly its bits; the encoding is
      well formed, hence shortest, exactly for the code points that are not surrogates. */
  lemma EncodingIsExact(cp: nat)
    requires cp <= MAX_CODE_POINT
    ensures var s := CodePointToUtf8(cp);
            && 1 <= |s| <= 4 && Payload(s) == cp
            && |s| == (if cp <= 0x7F then 1 else if cp <= 0x7FF then 2 else if cp <= 0xFFFF then 3 else 4)
            && forall i | 0 <= i < |s| :: s[i] as int < 256 && (i > 0 ==> Between(s[i], 0x80, 0xBF))
    ensures WellFormed(CodePointToUtf8(cp)) <==> !Surrogate(cp)
  {
    assert Exact(cp) by {
      if 0x7F < cp <= 0x7FF {
        TwoByteCodePoint(cp);
      } else if 0x7FF < cp <= 0xFFFF {
        ThreeByteCodePoint(cp);
      } else if 0xFFFF < cp {
        FourByteCodePoint(cp);
      }
    }
  }

  /** Conversely, every well-formed sequence is the encoding of the code point it carries. */
  lemma EveryWellFormedSequenceIsAnEncoding(s: string)
    requires WellFormed(s)
    ensures 0 <= Payload(s) <= MAX_CODE_POINT && CodePointToUtf8(Payload(s)) == s
  {
    if |s| == 2 {
      TwoBytes(s);
    } else if |s| == 3 {
      ThreeBytes(s);
    } else if |s| == 4 {
      FourBytes(s);
    }
  }

  lemma TwoBytes(s: string)
    requires WellFormed(s) && |s| == 2
    ensures 0 <= Payload(s) <= MAX_CODE_POINT && CodePointToUtf8(Payload(s)) == s
  {
    SixBitGroupsAreUnique(Payload(s), 0, 0, s[0] as int - 0xC0, s[1] as int - 0x80);
  }

  lemma ThreeBytes(s: string)
    requires WellFormed(s) && |s| == 3
    ensures 0 <= Payload(s) <= MAX_CODE_POINT && CodePointToUtf8(Payload(s)) == s
  {
    SixBitGroupsAreUnique(Payload(s), 0, s[0] as int - 0xE0, s[1] as int - 0x80, s[2] as int - 0x80);
  }

  lemma FourBytes(s: string)
    requires WellFormed(s) && |s| == 4
    ensures 0 <= Payload(s) <= MAX_CODE_POINT && CodePointToUtf8(Payload(s)) == s
  {
    SixBitGroupsAreUnique(Payload(s), s[0] as int - 0xF0, s[1] as int - 0x80, s[2] as int - 0x80, s[3] as int - 0x80);
  }

  lemma EncodingIsInjective(a: nat, b: nat)
    requires a <= MAX_CODE_POINT && b <= MAX_CODE_POINT
    requires CodePointToUtf8(a) == CodePointToUtf8(b)
    ensures a == b
  {
    EncodingIsExact(a);
    EncodingIsExact(b);
  }
}
