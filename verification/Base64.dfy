/** base64_encode and base64_decode: loops over three- and four-byte buffers, against the
    24-bit groups of section 4 of RFC 4648. */
module Base64 {

  type Byte = bv8

  // ---------- The alphabet ----------

  const UPPER := "ABCDEFGHIJKLMNOPQRSTUVWXYZ"
  const LOWER := "abcdefghijklmnopqrstuvwxyz"
  const OTHER := "0123456789+/"
  const CHARS := UPPER + LOWER + OTHER

  /** Table 1 of RFC 4648. */
  function Letter(v: nat): char
    requires v < 64
  {
    if v < 26 then 'A' + v as char
    else if v < 52 then 'a' + (v - 26) as char
    else if v < 62 then '0' + (v - 52) as char
    else if v == 62 then '+'
    else '/'
  }

  lemma CharsAreLetters(v: nat)
    requires v < 64
    ensures |CHARS| == 64 && CHARS[v] == Letter(v)
  {
    assert |UPPER| == 26 && |LOWER| == 26 && |OTHER| == 12;
    if v < 26 {
      assert CHARS[v] == UPPER[v];
    } else if v < 52 {
      assert CHARS[v] == LOWER[v - 26];
    } else {
      assert CHARS[v] == OTHER[v - 52];
    }
  }

  predicate IsBase64(c: char) {
    'A' <= c <= 'Z' || 'a' <= c <= 'z' || '0' <= c <= '9' || c == '+' || c == '/'
  }

  /** std::string::find of one character; the length stands for npos. */
  function Find(s: string, c: char): (p: nat)
    ensures p <= |s| && (p < |s| ==> s[p] == c) && forall j | 0 <= j < p :: s[j] != c
  {
    if s == [] || s[0] == c then 0 else 1 + Find(s[1..], c)
  }

  /** The position of a character in the alphabet as an unsigned char: npos becomes 255. */
  function Index(c: Byte): Byte {
    var p := Find(CHARS, (c as int) as char);
    if p < 64 then p as bv8 else 0xff
  }

  function Code(c: char): Byte
    requires IsBase64(c)
  {
    (c as int) as bv8
  }

  /** The six bits a letter stands for. */
  function Value(c: char): (v: Byte)
    requires IsBase64(c)
  {
    Index(Code(c))
  }

  lemma LetterFound(v: nat)
    requires v < 64
    ensures IsBase64(Letter(v)) && Find(CHARS, Letter(v)) == v
  {
    var p := Find(CHARS, Letter(v));
    CharsAreLetters(v);
    CharsAreLetters(p);
  }

  lemma ByteOfNat(v: nat)
    requires v < 256
    ensures (v as bv8) as nat == v && (v < 64 ==> v as bv8 < 64)
  {
  }

  lemma LettersHaveValues(v: Byte)
    requires v < 64
    ensures IsBase64(Letter(v as nat)) && Value(Letter(v as nat)) == v
  {
    hide Letter;
    var n := v as nat;
    LetterFound(n);
    ByteOfNat(Letter(n) as nat);
  }

  lemma ValuesHaveLetters(c: char)
    requires IsBase64(c)
    ensures Value(c) < 64 && Letter(Value(c) as nat) == c
  {
    hide Letter, Find;
    var i: nat := Find(CHARS, c);
    LetterOf(c);
    ByteOfNat(c as nat);
    ByteOfNat(i);
  }

  lemma LetterOf(c: char)
    requires IsBase64(c)
    ensures Find(CHARS, c) < 64 && Letter(Find(CHARS, c)) == c
  {
    var n := c as nat;
    var v: nat :=
      if c == '+' then 62 else if c == '/' then 63
      else if c <= '9' then n + 4 else if c <= 'Z' then n - 65 else n - 71;
    assert Letter(v) == c;
    LetterFound(v);
  }

  // ---------- Groups of 24 bits ----------

  function Group(a: Byte, b: Byte, c: Byte): bv24 {
    (a as bv24 << 16) | (b as bv24 << 8) | c as bv24
  }

  function Sextet(g: bv24, k: nat): (v: Byte)
    requires k < 4
    ensures v < 64
  {
    ((if k == 0 then g >> 18 else if k == 1 then g >> 12 else if k == 2 then g >> 6 else g) & 0x3f) as bv8
  }

  function Unite(w: Byte, x: Byte, y: Byte, z: Byte): bv24 {
    (w as bv24 << 18) | (x as bv24 << 12) | (y as bv24 << 6) | z as bv24
  }

  function Octet(g: bv24, k: nat): Byte
    requires k < 3
  {
    ((if k == 0 then g >> 16 else if k == 1 then g >> 8 else g) & 0xff) as bv8
  }

  /** The letters of the first `n` sextets of a group. */
  function Letters(g: bv24, n: nat): (s: string)
    requires n <= 4
    ensures |s| == n
  {
    if n == 0 then [] else Letters(g, n - 1) + [Letter(Sextet(g, n - 1) as nat)]
  }

  function Octets(g: bv24, n: nat): (s: seq<Byte>)
    requires n <= 3
    ensures |s| == n
  {
    if n == 0 then [] else Octets(g, n - 1) + [Octet(g, n - 1)]
  }

  /** Section 4 of RFC 4648: a last group of one or two octets is filled with zero bits, and the
      text with '='. */
  function Encode(b: seq<Byte>): string {
    if |b| == 0 then ""
    else if |b| == 1 then Letters(Group(b[0], 0, 0), 2) + "=="
    else if |b| == 2 then Letters(Group(b[0], b[1], 0), 3) + "="
    else Letters(Group(b[0], b[1], b[2]), 4) + Encode(b[3..])
  }

  /** The values of the letters before the first other character. */
  function Sextets(s: string): seq<Byte> {
    if s == [] || !IsBase64(s[0]) then [] else [Value(s[0])] + Sextets(s[1..])
  }

  /** The octets of the groups; a last group of n sextets, filled with zero bits, has n - 1. */
  function Regroup(v: seq<Byte>): seq<Byte> {
    if |v| <= 1 then []
    else if |v| == 2 then Octets(Unite(v[0], v[1], 0, 0), 1)
    else if |v| == 3 then Octets(Unite(v[0], v[1], v[2], 0), 2)
    else Octets(Unite(v[0], v[1], v[2], v[3]), 3) + Regroup(v[4..])
  }

  function Decode(s: string): seq<Byte> {
    Regroup(Sextets(s))
  }

  // ---------- The round trip ----------

  lemma {:induction false} EncodedLength(b: seq<Byte>)
    ensures |Encode(b)| == 4 * ((|b| + 2) / 3)
  {
    if |b| >= 3 { EncodedLength(b[3..]); }
  }

  lemma GroupsSplit(a: Byte, b: Byte, c: Byte)
    ensures var g := Group(a, b, c);
            Unite(Sextet(g, 0), Sextet(g, 1), Sextet(g, 2), Sextet(g, 3)) == g
    ensures Octet(Group(a, b, c), 0) == a && Octet(Group(a, b, c), 1) == b && Octet(Group(a, b, c), 2) == c
  {
  }

  lemma ShortGroups(a: Byte, b: Byte)
    ensures Unite(Sextet(Group(a, 0, 0), 0), Sextet(Group(a, 0, 0), 1), 0, 0) == Group(a, 0, 0)
    ensures Unite(Sextet(Group(a, b, 0), 0), Sextet(Group(a, b, 0), 1), Sextet(Group(a, b, 0), 2), 0) == Group(a, b, 0)
  {
  }

  lemma OneSextet(c: char, s: string)
    requires IsBase64(c)
    ensures Sextets([c] + s) == [Value(c)] + Sextets(s)
  {
    hide Value, IsBase64;
    assert ([c] + s)[1..] == s;
  }

  /** Letters in front of a text put their sextets in front of its sextets. */
  lemma SextetsOfLetters(g: bv24, n: nat, s: string)
    requires n <= 4
    ensures Sextets(Letters(g, n) + s) == seq(n, k requires 0 <= k < 4 => Sextet(g, k)) + Sextets(s)
  {
    hide Letter, Value, Sextet, IsBase64;
    if n > 0 {
      var c := Letter(Sextet(g, n - 1) as nat);
      LettersHaveValues(Sextet(g, n - 1));
      assert Letters(g, n) + s == Letters(g, n - 1) + ([c] + s);
      SextetsOfLetters(g, n - 1, [c] + s);
      OneSextet(c, s);
      assert seq(n, k requires 0 <= k < 4 => Sextet(g, k))
          == seq(n - 1, k requires 0 <= k < 4 => Sextet(g, k)) + [Sextet(g, n - 1)];
    } else {
      assert Letters(g, 0) + s == s;
    }
  }

  lemma OctetsUnfold(g: bv24)
    ensures Octets(g, 1) == [Octet(g, 0)] && Octets(g, 2) == [Octet(g, 0), Octet(g, 1)]
    ensures Octets(g, 3) == [Octet(g, 0), Octet(g, 1), Octet(g, 2)]
  {
    hide Octet;
  }

  lemma DecodeNothing()
    ensures Decode("") == []
  {
  }

  lemma DecodeOne(a: Byte)
    ensures Decode(Letters(Group(a, 0, 0), 2) + "==") == [a]
  {
    hide Letter, Letters, Value, Sextet, Octet, Group, Unite;
    SextetsOfLetters(Group(a, 0, 0), 2, "==");
    ShortGroups(a, 0);
    GroupsSplit(a, 0, 0);
  }

  lemma DecodeTwo(a: Byte, b: Byte)
    ensures Decode(Letters(Group(a, b, 0), 3) + "=") == [a, b]
  {
    hide Letter, Letters, Value, Sextet, Octet, Octets, Group, Unite;
    var g := Group(a, b, 0);
    SextetsOfLetters(g, 3, "=");
    ShortGroups(a, b);
    GroupsSplit(a, b, 0);
    OctetsUnfold(g);
  }

  lemma DecodeThree(a: Byte, b: Byte, c: Byte, s: string)
    ensures Decode(Letters(Group(a, b, c), 4) + s) == [a, b, c] + Decode(s)
  {
    hide Letter, Letters, Value, Sextet, Octet, Octets, Group, Unite;
    var g := Group(a, b, c);
    SextetsOfLetters(g, 4, s);
    GroupsSplit(a, b, c);
    OctetsUnfold(g);
    assert Sextets(Letters(g, 4) + s)[4..] == Sextets(s);
  }

  /** Decoding inverts encoding for every byte string. */
  lemma {:induction false} DecodeInvertsEncode(b: seq<Byte>)
    ensures Decode(Encode(b)) == b
    decreases |b|
  {
    hide Decode, Letters, Group;
    if |b| == 0 {
      DecodeNothing();
    } else if |b| == 1 {
      DecodeOne(b[0]);
    } else if |b| == 2 {
      DecodeTwo(b[0], b[1]);
    } else {
      DecodeThree(b[0], b[1], b[2], Encode(b[3..]));
      DecodeInvertsEncode(b[3..]);
    }
  }

  // ---------- Which texts are encodings ----------

  /** Groups of four letters; the last may be short, padded, with no bit set that does not belong
      to an octet (section 3.5 of RFC 4648). */
  predicate Canonical(s: string) {
    s == "" ||
    (|s| >= 4 && IsBase64(s[0]) && IsBase64(s[1]) &&
     if IsBase64(s[2]) && IsBase64(s[3]) then Canonical(s[4..])
     else if IsBase64(s[2]) then |s| == 4 && s[3] == '=' && Value(s[2]) & 0x3 == 0
     else |s| == 4 && s[2] == s[3] == '=' && Value(s[1]) & 0xf == 0)
  }

  lemma SextetsOfUnited(w: Byte, x: Byte, y: Byte, z: Byte)
    requires w < 64 && x < 64 && y < 64 && z < 64
    ensures var g := Unite(w, x, y, z);
            Sextet(g, 0) == w && Sextet(g, 1) == x && Sextet(g, 2) == y && Sextet(g, 3) == z
  {
  }

  lemma OctetsGroup(g: bv24)
    ensures Group(Octet(g, 0), Octet(g, 1), Octet(g, 2)) == g
  {
  }

  lemma ClearOctets(w: Byte, x: Byte, y: Byte)
    requires w < 64 && x < 64 && y < 64
    ensures y & 0x3 == 0 ==> Octet(Unite(w, x, y, 0), 2) == 0
    ensures x & 0xf == 0 ==> Octet(Unite(w, x, 0, 0), 1) == 0 == Octet(Unite(w, x, 0, 0), 2)
  {
  }

  lemma ClearBits(a: Byte, b: Byte)
    ensures Sextet(Group(a, 0, 0), 1) & 0xf == 0 && Sextet(Group(a, b, 0), 2) & 0x3 == 0
  {
  }

  lemma LettersValues(g: bv24, n: nat)
    requires n <= 4
    ensures forall k | 0 <= k < n :: IsBase64(Letters(g, n)[k]) && Value(Letters(g, n)[k]) == Sextet(g, k)
  {
    hide Letter, Value, IsBase64, Sextet;
    if n > 0 {
      LettersValues(g, n - 1);
      LettersHaveValues(Sextet(g, n - 1));
    }
  }

  lemma {:induction false} EncodedIsCanonical(b: seq<Byte>)
    ensures Canonical(Encode(b))
  {
    hide Value, Sextet, Group, Letters;
    var s := Encode(b);
    if |b| == 1 {
      LettersValues(Group(b[0], 0, 0), 2);
      ClearBits(b[0], 0);
    } else if |b| == 2 {
      LettersValues(Group(b[0], b[1], 0), 3);
      ClearBits(b[0], b[1]);
    } else if |b| > 2 {
      LettersValues(Group(b[0], b[1], b[2]), 4);
      EncodedIsCanonical(b[3..]);
      assert s[4..] == Encode(b[3..]);
    }
  }

  /** A text is the encoding of what it decodes to exactly when it is canonical; no other text is
      the encoding of anything. */
  lemma {:induction false} EncodeInvertsDecode(s: string)
    ensures Encode(Decode(s)) == s <==> Canonical(s)
  {
    if Encode(Decode(s)) == s {
      EncodedIsCanonical(Decode(s));
    }
    if Canonical(s) {
      CanonicalReturns(s);
    }
  }

  lemma LettersUnfold(g: bv24, t: string)
    requires |t| <= 4 && forall k | 0 <= k < |t| :: IsBase64(t[k]) && Sextet(g, k) == Value(t[k])
    ensures Letters(g, |t|) == t
  {
    hide Letter, Value, IsBase64, Sextet;
    if t != [] {
      var n := |t| - 1;
      ValuesHaveLetters(t[n]);
      LettersUnfold(g, t[..n]);
    }
  }

  lemma {:induction false} SextetsAppend(a: string, b: string)
    requires forall k | 0 <= k < |a| :: IsBase64(a[k])
    ensures Sextets(a + b) == Sextets(a) + Sextets(b) && |Sextets(a)| == |a|
    ensures forall k | 0 <= k < |a| :: Sextets(a)[k] == Value(a[k])
  {
    hide Value, IsBase64;
    if a == [] {
      assert a + b == b;
    } else {
      assert IsBase64(a[0]) && (a + b)[1..] == a[1..] + b;
      forall k | 0 <= k < |a| - 1 ensures IsBase64(a[1..][k]) { assert IsBase64(a[k + 1]); }
      SextetsAppend(a[1..], b);
    }
  }

  lemma NoSextets(s: string)
    requires s == "" || !IsBase64(s[0])
    ensures Sextets(s) == []
  {
  }

  lemma {:induction false} CanonicalReturns(s: string)
    requires Canonical(s)
    ensures Encode(Decode(s)) == s
  {
    hide Letter, Value, Sextet, Octet, Group, Unite, Letters, Octets;
    if s != "" {
      var n := if !IsBase64(s[2]) then 2 else if !IsBase64(s[3]) then 3 else 4;
      var w, x := Value(s[0]), Value(s[1]);
      var y: Byte := if n > 2 then Value(s[2]) else 0;
      var z: Byte := if n > 3 then Value(s[3]) else 0;
      var g := Unite(w, x, y, z);
      forall k | 0 <= k < n ensures Value(s[k]) < 64 { ValuesHaveLetters(s[k]); }
      SextetsOfUnited(w, x, y, z);
      OctetsUnfold(g);
      OctetsGroup(g);
      ClearOctets(w, x, y);
      LettersUnfold(g, s[..n]);
      SextetsAppend(s[..n], s[n..]);
      assert s == s[..n] + s[n..];
      if n == 4 {
        CanonicalReturns(s[4..]);
        assert Sextets(s)[4..] == Sextets(s[4..]);
        assert Decode(s) == Octets(g, 3) + Decode(s[4..]);
      } else {
        NoSextets(s[n..]);
      }
    }
  }

  // ---------- The loops ----------

  lemma {:induction false} EncodeAppend(a: seq<Byte>, b: seq<Byte>)
    requires |a| % 3 == 0
    ensures Encode(a + b) == Encode(a) + Encode(b)
  {
    if a == [] {
      assert a + b == b;
    } else {
      assert (a + b)[3..] == a[3..] + b;
      EncodeAppend(a[3..], b);
    }
  }

  lemma MasksSplit(a: Byte, b: Byte, c: Byte)
    ensures (a & 0xfc) >> 2 == Sextet(Group(a, b, c), 0)
    ensures ((a & 0x03) << 4) + ((b & 0xf0) >> 4) == Sextet(Group(a, b, c), 1)
    ensures ((b & 0x0f) << 2) + ((c & 0xc0) >> 6) == Sextet(Group(a, b, c), 2)
    ensures c & 0x3f == Sextet(Group(a, b, c), 3)
  {
  }

  /** The four mask and shift expressions. */
  function Slices(a: Byte, b: Byte, c: Byte): seq<Byte> {
    [(a & 0xfc) >> 2, ((a & 0x03) << 4) + ((b & 0xf0) >> 4), ((b & 0x0f) << 2) + ((c & 0xc0) >> 6), c & 0x3f]
  }

  lemma SlicesAreSextets(a: Byte, b: Byte, c: Byte)
    ensures |Slices(a, b, c)| == 4
    ensures forall k | 0 <= k < 4 :: Slices(a, b, c)[k] == Sextet(Group(a, b, c), k)
  {
    hide Sextet, Group;
    MasksSplit(a, b, c);
  }

  /** The mask and shift expressions that take three octets apart. */
  method Split(three: array<Byte>, four: array<Byte>)
    requires three.Length == 3 && four.Length == 4 && three != four
    modifies four
    ensures forall k | 0 <= k < 4 :: four[k] == Sextet(Group(three[0], three[1], three[2]), k)
  {
    hide Sextet, Group;
    var a, b, c := three[0], three[1], three[2];
    SlicesAreSextets(a, b, c);
    four[0] := (a & 0xfc) >> 2;
    four[1] := ((a & 0x03) << 4) + ((b & 0xf0) >> 4);
    four[2] := ((b & 0x0f) << 2) + ((c & 0xc0) >> 6);
    four[3] := c & 0x3f;
    ghost var slices := Slices(a, b, c);
    assert four[..] == slices;
    assert forall k | 0 <= k < 4 :: four[..][k] == four[k];
  }

  /** The letters of the first `n` positions in the buffer. */
  method Emit(four: array<Byte>, ghost g: bv24, n: nat, before: string) returns (ret: string)
    requires four.Length == 4 && n <= 4 && forall k | 0 <= k < 4 :: four[k] == Sextet(g, k)
    ensures ret == before + Letters(g, n)
  {
    hide Letter, Sextet;
    ret := before;
    var i := 0;
    while i < n
      invariant 0 <= i <= n && ret == before + Letters(g, i)
    {
      CharsAreLetters(four[i] as nat);
      ret := ret + [CHARS[four[i] as nat]];
      i := i + 1;
    }
  }

  function Filler(n: nat): string {
    if n == 0 then "" else Filler(n - 1) + "="
  }

  /** The octet at a position, zero behind the end. */
  function OctetAt(b: seq<Byte>, k: nat): Byte {
    if k < |b| then b[k] else 0
  }

  function GroupAt(b: seq<Byte>, n: nat): bv24 {
    Group(OctetAt(b, n), OctetAt(b, n + 1), OctetAt(b, n + 2))
  }

  lemma EncodeGroup(b: seq<Byte>)
    requires 1 <= |b| <= 3
    ensures Encode(b) == Letters(GroupAt(b, 0), |b| + 1) + Filler(3 - |b|)
  {
    hide Letters, Group;
    if |b| == 3 {
      assert Encode(b[3..]) == "";
    } else {
      assert Filler(1) == "=" && Filler(2) == "==";
    }
  }

  /** One more group, whole or last. */
  lemma EncodeNext(b: seq<Byte>, n: nat, size: nat)
    requires n % 3 == 0 && 1 <= size <= 3 && n + size <= |b| && (size == 3 || n + size == |b|)
    ensures Encode(b[..n + size]) == Encode(b[..n]) + Letters(GroupAt(b, n), size + 1) + Filler(3 - size)
  {
    hide Letters, Group, Encode, Filler;
    var last := b[n..n + size];
    assert b[..n + size] == b[..n] + last;
    EncodeAppend(b[..n], last);
    EncodeGroup(last);
  }

  method Base64Encode(bytes: seq<Byte>) returns (ret: string)
    ensures ret == Encode(bytes)
  {
    hide Letters, Group, Sextet, Filler, Encode;
    ret := "";
    var three, four := new Byte[3], new Byte[4];
    var i, n := 0, 0;
    EncodeNothing();
    while n < |bytes|
      invariant 0 <= i <= n <= |bytes| && i < 3 && (n - i) % 3 == 0
      invariant forall k | 0 <= k < i :: three[k] == OctetAt(bytes, n - i + k)
      invariant ret == Encode(bytes[..n - i])
    {
      three[i] := bytes[n];
      i, n := i + 1, n + 1;
      if i == 3 {
        Split(three, four);
        ret := Emit(four, GroupAt(bytes, n - 3), 4, ret);
        EncodeNext(bytes, n - 3, 3);
        NoFiller();
        i := 0;
      }
    }
    if i > 0 {
      var j := i;
      while j < 3
        invariant i <= j <= 3
        invariant forall k | 0 <= k < j :: three[k] == OctetAt(bytes, n - i + k)
      {
        three[j] := 0;
        j := j + 1;
      }
      Split(three, four);
      ret := Emit(four, GroupAt(bytes, n - i), i + 1, ret);
      EncodeNext(bytes, n - i, i);
      ret := Pad(i, ret);
    }
    assert bytes[..n] == bytes;
  }

  lemma EncodeNothing()
    ensures Encode([]) == ""
  {
  }

  lemma NoFiller()
    ensures Filler(0) == ""
  {
  }

  method Pad(used: nat, before: string) returns (ret: string)
    requires used <= 3
    ensures ret == before + Filler(3 - used)
  {
    ret := before;
    var i := used;
    while i < 3
      invariant used <= i <= 3 && ret == before + Filler(i - used)
    {
      ret := ret + "=";
      i := i + 1;
    }
  }

  lemma {:induction false} RegroupAppend(a: seq<Byte>, b: seq<Byte>)
    requires |a| % 4 == 0
    ensures Regroup(a + b) == Regroup(a) + Regroup(b)
  {
    hide Octets, Unite;
    if a == [] {
      assert a + b == b;
    } else {
      assert (a + b)[4..] == a[4..] + b;
      RegroupAppend(a[4..], b);
    }
  }

  /** What the mask and shift expressions make of sextets. Whatever stands in the unused places of
      a short group does not matter. */
  lemma MasksJoin(w: Byte, x: Byte, y: Byte, z: Byte)
    requires w < 64 && x < 64
    ensures (w << 2) + ((x & 0x30) >> 4) == Octet(Unite(w, x, 0, 0), 0)
    ensures y < 64 ==> ((x & 0xf) << 4) + ((y & 0x3c) >> 2) == Octet(Unite(w, x, y, 0), 1)
    ensures y < 64 && z < 64 ==> ((y & 0x3) << 6) + z == Octet(Unite(w, x, y, z), 2)
  {
  }

  lemma FirstOctets(w: Byte, x: Byte, y: Byte, z: Byte)
    requires w < 64 && x < 64 && y < 64 && z < 64
    ensures Octet(Unite(w, x, y, z), 0) == Octet(Unite(w, x, y, 0), 0) == Octet(Unite(w, x, 0, 0), 0)
    ensures Octet(Unite(w, x, y, z), 1) == Octet(Unite(w, x, y, 0), 1)
  {
  }

  lemma RegroupGroup(v: seq<Byte>)
    requires 1 <= |v| <= 4 && forall k | 0 <= k < |v| :: v[k] < 64
    ensures |Regroup(v)| == |v| - 1
    ensures |v| > 1 ==> Regroup(v)[0] == Octet(Unite(v[0], v[1], 0, 0), 0)
    ensures |v| > 2 ==> Regroup(v)[1] == Octet(Unite(v[0], v[1], v[2], 0), 1)
    ensures |v| > 3 ==> Regroup(v)[2] == Octet(Unite(v[0], v[1], v[2], v[3]), 2)
  {
    hide Octet, Unite, Octets;
    if |v| == 2 {
      OctetsUnfold(Unite(v[0], v[1], 0, 0));
    } else if |v| == 3 {
      OctetsUnfold(Unite(v[0], v[1], v[2], 0));
      FirstOctets(v[0], v[1], v[2], 0);
    } else if |v| == 4 {
      OctetsUnfold(Unite(v[0], v[1], v[2], v[3]));
      FirstOctets(v[0], v[1], v[2], v[3]);
      assert Regroup(v[4..]) == [];
    }
  }

  /** The three mask and shift expressions. */
  function Mask(v: seq<Byte>): seq<Byte>
    requires |v| == 4
  {
    [(v[0] << 2) + ((v[1] & 0x30) >> 4), ((v[1] & 0xf) << 4) + ((v[2] & 0x3c) >> 2), ((v[2] & 0x3) << 6) + v[3]]
  }

  lemma MaskOctets(v: seq<Byte>, count: nat)
    requires |v| == 4 && 1 <= count <= 4 && forall k | 0 <= k < count :: v[k] < 64
    ensures |Mask(v)| == 3
    ensures count > 1 ==> Mask(v)[0] == Octet(Unite(v[0], v[1], 0, 0), 0)
    ensures count > 2 ==> Mask(v)[1] == Octet(Unite(v[0], v[1], v[2], 0), 1)
    ensures count > 3 ==> Mask(v)[2] == Octet(Unite(v[0], v[1], v[2], v[3]), 2)
  {
    hide Octet, Unite;
    if count > 1 {
      MasksJoin(v[0], v[1], v[2], v[3]);
    }
  }

  lemma MaskRegroups(v: seq<Byte>, count: nat)
    requires |v| == 4 && 1 <= count <= 4 && forall k | 0 <= k < count :: v[k] < 64
    ensures Mask(v)[..count - 1] == Regroup(v[..count])
  {
    hide Mask, Octet, Unite, Regroup;
    MaskOctets(v, count);
    RegroupGroup(v[..count]);
  }

  /** The first `count` places of the buffer hold sextets. */
  method Join(four: array<Byte>, three: array<Byte>, ghost count: nat)
    requires three.Length == 3 && four.Length == 4 && three != four
    requires 1 <= count <= 4 && forall k | 0 <= k < count :: four[k] < 64
    modifies three
    ensures three[..count - 1] == Regroup(four[..count])
  {
    hide Regroup;
    ghost var v := four[..];
    MaskRegroups(v, count);
    assert v[..count] == four[..count];
    three[0] := (four[0] << 2) + ((four[1] & 0x30) >> 4);
    three[1] := ((four[1] & 0xf) << 4) + ((four[2] & 0x3c) >> 2);
    three[2] := ((four[2] & 0x3) << 6) + four[3];
    assert three[..] == Mask(v);
    assert three[..][..count - 1] == three[..count - 1];
  }

  /** Every character of the buffer is replaced by its index in the alphabet. */
  method LookUp(four: array<Byte>)
    requires four.Length == 4
    modifies four
    ensures forall k | 0 <= k < 4 :: four[k] == Index(old(four[k]))
  {
    hide Index;
    var i := 0;
    while i < 4
      invariant 0 <= i <= 4
      invariant forall k | 0 <= k < i :: four[k] == Index(old(four[k]))
      invariant forall k | i <= k < 4 :: four[k] == old(four[k])
    {
      four[i] := Index(four[i]);
      i := i + 1;
    }
  }

  method Append(before: seq<Byte>, three: array<Byte>, n: nat) returns (ret: seq<Byte>)
    requires n <= three.Length
    ensures ret == before + three[..n]
  {
    ret := before;
    var j := 0;
    while j < n
      invariant 0 <= j <= n && ret == before + three[..j]
    {
      ret := ret + [three[j]];
      j := j + 1;
    }
  }

  /** One group of the characters from `n` on, whole or last. */
  lemma DecodeNext(s: string, n: nat, size: nat, v: seq<Byte>)
    requires n % 4 == 0 && 1 <= size == |v| <= 4 && n + size <= |s|
    requires forall k | 0 <= k < n + size :: IsBase64(s[k])
    requires forall k | 0 <= k < size :: v[k] == Value(s[n + k])
    ensures forall k | 0 <= k < size :: v[k] < 64
    ensures Decode(s[..n + size]) == Decode(s[..n]) + Regroup(v)
  {
    hide Value, IsBase64, Regroup, Letter, Sextets;
    var next := s[n..n + size];
    SextetsAppend(s[..n], next);
    assert s[..n + size] == s[..n] + next;
    SextetsAppend(next, "");
    assert next + "" == next;
    assert Sextets("") == [] by { NoSextets(""); }
    assert Sextets(next) == v;
    RegroupAppend(Sextets(s[..n]), v);
    forall k | 0 <= k < size ensures v[k] < 64 { ValuesHaveLetters(s[n + k]); }
  }

  /** The letter a buffer place holds. */
  predicate Holds(b: Byte, c: char) { IsBase64(c) && b == Code(c) }

  lemma HeldValue(b: Byte, c: char)
    requires Holds(b, c)
    ensures Index(b) == Value(c)
  {
  }

  /** Decoding stops in front of the first character that is not a letter. */
  lemma DecodeStops(s: string, n: nat)
    requires n <= |s| && (forall k | 0 <= k < n :: IsBase64(s[k])) && (n < |s| ==> !IsBase64(s[n]))
    ensures Decode(s) == Decode(s[..n])
  {
    hide Value, IsBase64, Regroup, Sextets;
    SextetsAppend(s[..n], s[n..]);
    assert s == s[..n] + s[n..];
    NoSextets(s[n..]);
    assert Sextets(s[..n]) + [] == Sextets(s[..n]);
  }

  /** The loops over the buffers for one group, whole or last. */
  method DecodeGroup(ghost s: string, ghost n: nat, size: nat, four: array<Byte>, three: array<Byte>, before: seq<Byte>)
    returns (ret: seq<Byte>)
    requires three.Length == 3 && four.Length == 4 && three != four
    requires n % 4 == 0 && 1 <= size <= 4 && n + size <= |s| && forall k | 0 <= k < n + size :: IsBase64(s[k])
    requires forall k | 0 <= k < size :: Holds(four[k], s[n + k])
    requires before == Decode(s[..n])
    modifies four, three
    ensures ret == Decode(s[..n + size])
  {
    hide Value, Index, IsBase64, Code, Holds, Regroup, Decode;
    forall k | 0 <= k < size ensures Index(four[k]) == Value(s[n + k]) { HeldValue(four[k], s[n + k]); }
    LookUp(four);
    DecodeNext(s, n, size, four[..size]);
    Join(four, three, size);
    ret := Append(before, three, size - 1);
  }

  method Base64Decode(encoded: string) returns (ret: seq<Byte>)
    ensures ret == Decode(encoded)
  {
    hide Code, Decode;
    var four, three := new Byte[4], new Byte[3];
    ret := [];
    var i, n := 0, 0;
    assert Decode("") == [] by { DecodeNothing(); }
    while n < |encoded| && encoded[n] != '=' && IsBase64(encoded[n])
      invariant 0 <= i <= n <= |encoded| && i < 4 && (n - i) % 4 == 0
      invariant forall k | 0 <= k < n :: IsBase64(encoded[k])
      invariant forall k | 0 <= k < i :: Holds(four[k], encoded[n - i + k])
      invariant ret == Decode(encoded[..n - i])
    {
      hide IsBase64;
      four[i] := Code(encoded[n]);
      i, n := i + 1, n + 1;
      if i == 4 {
        ret := DecodeGroup(encoded, n - 4, 4, four, three, ret);
        i := 0;
      }
    }
    DecodeStops(encoded, n);
    if i > 0 {
      hide IsBase64, Holds;
      var j := i;
      while j < 4
        invariant i <= j <= 4
        invariant forall k | 0 <= k < i :: Holds(four[k], encoded[n - i + k])
      {
        four[j] := 0;
        j := j + 1;
      }
      ret := DecodeGroup(encoded, n - i, i, four, three, ret);
    }
  }
}
