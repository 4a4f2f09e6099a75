/** ParseHttpContentChunk: the resumable decoder of chunked HTTP bodies. */
module ChunkedBody {
  import opened Wrappers
  import opened Chars

  const CRLF := "\r\n"
  const TWO_64 := 0x1_0000_0000_0000_0000
  /** No std::string is longer. */
  const MAX_SIZE := 0x3FFF_FFFF_FFFF_FFFF

  // ---------- Library functions ----------

  /** std::string::find */
  function Find(s: string, pattern: string): (r: Option<nat>)
    ensures r.Some? ==> r.value + |pattern| <= |s|
    decreases |s|
  {
    if pattern <= s then Some(0)
    else if s == [] then None
    else match Find(s[1..], pattern)
         case None => None
         case Some(i) => Some(i + 1)
  }

  /** The longest run of hexadecimal digits at the start. */
  function HexRun(s: string): (r: string)
    ensures IsHexRun(r)
  {
    if s == [] || !IsHex(s[0]) then [] else [s[0]] + HexRun(s[1..])
  }

  function SkipSpaces(s: string): string {
    if s != [] && IsSpace(s[0]) then SkipSpaces(s[1..]) else s
  }

  /** `stream >> std::hex >> size`: white space, a sign, a 0x prefix and digits; 0 without digits,
      the largest value on overflow, and a negative number modulo 2^64. */
  function ReadHex(s: string): (n: nat)
    ensures n < TWO_64
  {
    var t := SkipSpaces(s);
    var signed := t != [] && (t[0] == '+' || t[0] == '-');
    var u := if signed then t[1..] else t;
    var digits := if "0x" <= u || "0X" <= u then HexRun(u[2..]) else HexRun(u);
    var v := HexNumber(digits);
    if v >= TWO_64 then TWO_64 - 1
    else if signed && t[0] == '-' then (TWO_64 - v) % TWO_64
    else v
  }

  /** std::string::substr */
  function Substr(s: string, pos: nat, n: nat): string
    requires pos <= |s|
  {
    if pos + n <= |s| then s[pos..pos + n] else s[pos..]
  }

  // ---------- The decoder ----------

  /** One turn of the loop: not enough input, the last chunk, or a chunk and the input behind it. */
  datatype Pass = Short | Last | Chunk(data: string, rest: string)

  /** Where a chunk with its header of `pos` bytes ends, in size_t arithmetic. */
  function ChunkEnd(pos: nat, size: nat): nat {
    (pos + 4 + size) % TWO_64
  }

  function OnePass(input: string): Pass {
    match Find(input, CRLF)
    case None => Short
    case Some(pos) =>
      var size := ReadHex(input[..pos]);
      if size == 0 then Last
      else if ChunkEnd(pos, size) > |input| then Short
      else Chunk(Substr(input, pos + 2, size), input[ChunkEnd(pos, size)..])
  }

  datatype Status = NeedMore | Done | Diverges

  /** What a call returns: the status, the bytes appended to the result, and the input that is left. */
  datatype Decoded = Decoded(status: Status, output: string, left: string)

  function Prefixed(data: string, d: Decoded): Decoded {
    d.(output := data + d.output)
  }

  /** The decoder on a whole buffer. A pass that leaves the buffer as it was repeats for ever. */
  function Decode(input: string): Decoded
    decreases |input|
  {
    match OnePass(input)
    case Short => Decoded(NeedMore, [], input)
    case Last => Decoded(if Find(input, CRLF + CRLF).Some? then Done else NeedMore, [], input)
    case Chunk(data, rest) =>
      if |rest| < |input| then Prefixed(data, Decode(rest)) else Decoded(Diverges, data, input)
  }

  /** The size line at the front announces a chunk that ends at 2^64, which wraps to the start of
      the buffer. */
  predicate StandsStill(input: string) {
    match Find(input, CRLF)
    case None => false
    case Some(pos) => ReadHex(input[..pos]) != 0 && ChunkEnd(pos, ReadHex(input[..pos])) == 0
  }

  /** Some size line that the decoder comes to stands still. */
  predicate Stuck(input: string)
    decreases |input|
  {
    StandsStill(input) ||
    match OnePass(input)
    case Chunk(_, rest) => |rest| < |input| && Stuck(rest)
    case _ => false
  }

  /** On every string that can exist the size is the one that reaches exactly to 2^64. */
  lemma StandsStillAtTwo64(input: string)
    requires |input| <= MAX_SIZE
    ensures StandsStill(input) <==>
              Find(input, CRLF).Some? &&
              ReadHex(input[..Find(input, CRLF).value]) == TWO_64 - 4 - Find(input, CRLF).value
  {
    hide ReadHex, Find;
  }

  /** The loop does not end exactly on the buffers in which some size line stands still. */
  lemma {:induction false} DivergesExactlyWhenStuck(input: string)
    ensures Decode(input).status == Diverges <==> Stuck(input)
    decreases |input|
  {
    hide Find, ReadHex;
    match OnePass(input) {
      case Short =>
      case Last =>
      case Chunk(data, rest) => if |rest| < |input| { DivergesExactlyWhenStuck(rest); }
    }
  }

  method ParseHttpContentChunk(input: string, result: string) returns (status: int, input': string, result': string)
    requires !Stuck(input)
    ensures var d := Decode(input);
            status == (if d.status == Done then 0 else 1) && result' == result + d.output && input' == d.left
  {
    hide ReadHex, Find, ChunkEnd, Substr, Decode, Prefixed, Stuck;
    input', result' := input, result;
    DivergesExactlyWhenStuck(input);
    ghost var appended := "";
    PrefixedNothing(result, Decode(input));
    while true
      invariant result' == result + appended && Decode(input) == Prefixed(appended, Decode(input'))
      decreases |input'|
    {
      PrefixedStatus(appended, Decode(input'));
      DecodeUnfold(input');
      var start := Find(input', CRLF);
      if start.None? {
        return 1, input', result';
      }
      var chunkSize := ReadHex(input'[..start.value]);
      if chunkSize == 0 {
        break;
      }
      var posNum := ChunkEnd(start.value, chunkSize);
      if posNum > |input'| {
        return 1, input', result';
      }
      var data := Substr(input', start.value + 2, chunkSize);
      PrefixedTwice(appended, data, Decode(input'[posNum..]));
      assert result + (appended + data) == result' + data;
      appended := appended + data;
      result' := result' + data;
      input' := input'[posNum..];
    }
    var lastChunkEnd := Find(input', CRLF + CRLF);
    if lastChunkEnd.None? {
      return 1, input', result';
    }
    return 0, input', result';
  }

  /** The decoder by the outcome of its first pass. */
  lemma DecodeUnfold(input: string)
    ensures var d := Decode(input);
            match OnePass(input)
            case Short => d == Decoded(NeedMore, [], input)
            case Last => d == Decoded(if Find(input, CRLF + CRLF).Some? then Done else NeedMore, [], input)
            case Chunk(data, rest) => d.status != Diverges ==> |rest| < |input| && d == Prefixed(data, Decode(rest))
  {
    hide OnePass, Find;
  }

  lemma PrefixedNothing(result: string, d: Decoded)
    ensures Prefixed("", d) == d && result + "" == result
  {
    assert "" + d.output == d.output;
  }

  lemma PrefixedStatus(a: string, d: Decoded)
    ensures Prefixed(a, d).status == d.status && Prefixed(a, d).left == d.left
    ensures d.output == "" ==> Prefixed(a, d).output == a
  {
    assert a + "" == a;
  }

  lemma PrefixedTwice(a: string, b: string, d: Decoded)
    ensures Prefixed(a, Prefixed(b, d)) == Prefixed(a + b, d)
  {
    assert a + (b + d.output) == a + b + d.output;
  }

  // ---------- Fragmentation ----------

  lemma {:induction false} FindExtends(a: string, b: string, pattern: string)
    requires Find(a, pattern).Some?
    ensures Find(a + b, pattern) == Find(a, pattern)
    decreases |a|
  {
    assert (a + b)[..|pattern|] == a[..|pattern|];
    if !(pattern <= a) {
      assert (a + b)[1..] == a[1..] + b;
      FindExtends(a[1..], b, pattern);
    }
  }

  /** The pass ends inside the buffer although its end, as a natural number, lies beyond 2^64. */
  predicate PassWraps(input: string) {
    match Find(input, CRLF)
    case None => false
    case Some(pos) =>
      var size := ReadHex(input[..pos]);
      size != 0 && pos + 4 + size >= TWO_64 && ChunkEnd(pos, size) <= |input|
  }

  /** No pass of the decoder wraps around. */
  predicate Unwrapped(input: string)
    decreases |input|
  {
    !PassWraps(input) &&
    match OnePass(input)
    case Chunk(_, rest) => |rest| < |input| && Unwrapped(rest)
    case _ => true
  }

  /** The header of a chunk: where it ends and the size it announces. */
  lemma HeaderExtends(a: string, b: string)
    requires Find(a, CRLF).Some?
    ensures Find(a + b, CRLF) == Find(a, CRLF)
    ensures (a + b)[..Find(a, CRLF).value] == a[..Find(a, CRLF).value]
  {
    FindExtends(a, b, CRLF);
  }

  /** A completed pass without wrap-around is the same on a longer buffer. */
  lemma PassExtends(a: string, b: string)
    requires OnePass(a) != Short && !PassWraps(a)
    ensures !PassWraps(a + b)
    ensures OnePass(a + b) == match OnePass(a)
              case Last => Last
              case Chunk(data, rest) => Chunk(data, rest + b)
  {
    hide ReadHex, Find;
    HeaderExtends(a, b);
    var pos := Find(a, CRLF).value;
    var size := ReadHex(a[..pos]);
    if size != 0 {
      ExtendSlices(a, b, pos + 2, pos + 2 + size);
      ExtendSlices(a, b, 0, ChunkEnd(pos, size));
    }
  }

  lemma ExtendSlices(a: string, b: string, i: nat, j: nat)
    requires i <= j <= |a|
    ensures (a + b)[i..j] == a[i..j] && (a + b)[j..] == a[j..] + b && (a + b)[i..] == a[i..] + b
  {
  }

  /** A pass that wraps takes all of the buffer for its data, however long the buffer is. */
  lemma WrappedPassExtends(a: string, b: string)
    requires PassWraps(a) && |a + b| <= MAX_SIZE
    ensures PassWraps(a + b) && OnePass(a).Chunk?
    ensures OnePass(a + b) == Chunk(OnePass(a).data + b, OnePass(a).rest + b)
  {
    hide ReadHex, Find;
    HeaderExtends(a, b);
    var pos := Find(a, CRLF).value;
    var size := ReadHex(a[..pos]);
    ExtendSlices(a, b, pos + 2, |a|);
    ExtendSlices(a, b, 0, ChunkEnd(pos, size));
  }

  /** Calling again with more input gives what one call on all of it would have given. */
  ghost predicate Resumes(a: string, b: string) {
    var d := Decode(a);
    match d.status
    case NeedMore => Decode(a + b) == Prefixed(d.output, Decode(d.left + b))
    case Done => Decode(a + b) == d.(left := d.left + b)
    case Diverges => false
  }

  lemma {:induction false} UnwrappedResumes(a: string, b: string)
    requires Unwrapped(a)
    ensures Resumes(a, b)
    decreases |a|
  {
    hide OnePass, PassWraps, Find;
    assert Prefixed([], Decode(a + b)) == Decode(a + b);
    match OnePass(a) {
      case Short =>
      case Last =>
        PassExtends(a, b);
        if Find(a, CRLF + CRLF).Some? { FindExtends(a, b, CRLF + CRLF); }
      case Chunk(data, rest) =>
        PassExtends(a, b);
        UnwrappedResumes(rest, b);
        var d := Decode(rest);
        assert Decode(a + b) == Prefixed(data, Decode(rest + b));
        if d.status == NeedMore { PrefixedTwice(data, d.output, Decode(d.left + b)); }
    }
  }

  /** More input never makes the output shorter. */
  lemma {:induction false} OutputGrows(a: string, b: string)
    requires |a + b| <= MAX_SIZE && Decode(a).status != Diverges
    ensures |Decode(a + b).output| >=
              |Decode(a).output| + if Decode(a).status == NeedMore then |Decode(Decode(a).left + b).output| else 0
    decreases |a|
  {
    hide OnePass, PassWraps, Find;
    match OnePass(a) {
      case Short =>
      case Last =>
      case Chunk(data, rest) =>
        assert |rest + b| <= |a + b|;
        OutputGrows(rest, b);
        if PassWraps(a) { WrappedPassExtends(a, b); } else { PassExtends(a, b); }
    }
  }

  lemma PrefixedInjective(data: string, d: Decoded, e: Decoded)
    requires Prefixed(data, d) == Prefixed(data, e)
    ensures d == e
  {
    assert d.output == (data + d.output)[|data|..];
    assert e.output == (data + e.output)[|data|..];
  }

  lemma {:induction false} WrappedDoesNotResume(a: string, c: char)
    requires |a| < MAX_SIZE && !Unwrapped(a)
    ensures !Resumes(a, [c])
    decreases |a|
  {
    hide OnePass, PassWraps, Find;
    var b := [c];
    if PassWraps(a) {
      WrappedPassExtends(a, b);
      var data, rest := OnePass(a).data, OnePass(a).rest;
      if |rest| < |a| && Decode(rest).status != Diverges {
        OutputGrows(rest, b);
        assert |Decode(a + b).output| == |data| + 1 + |Decode(rest + b).output|;
      }
    } else {
      PassExtends(a, b);
      var data, rest := OnePass(a).data, OnePass(a).rest;
      if |rest| < |a| {
        WrappedDoesNotResume(rest, c);
        var d := Decode(rest);
        assert Decode(a + b) == Prefixed(data, Decode(rest + b));
        if Resumes(a, b) {
          if d.status == NeedMore {
            PrefixedTwice(data, d.output, Decode(d.left + b));
            PrefixedInjective(data, Decode(rest + b), Prefixed(d.output, Decode(d.left + b)));
          } else {
            PrefixedInjective(data, Decode(rest + b), d.(left := d.left + b));
          }
        }
      }
    }
  }

  /** Fragmentation does not matter exactly to the buffers on which no pass wraps around: after
      such a buffer a later call goes on as if all the input had come at once, and after any other
      one more byte already shows a difference. */
  lemma ResumableExactlyWhenUnwrapped(a: string)
    requires |a| < MAX_SIZE
    ensures (forall b :: Resumes(a, b)) <==> Unwrapped(a)
  {
    if Unwrapped(a) {
      forall b ensures Resumes(a, b) { UnwrappedResumes(a, b); }
    } else {
      WrappedDoesNotResume(a, '0');
    }
  }

  // ---------- Any split of a stream ----------

  function Concat(parts: seq<string>): string {
    if parts == [] then "" else parts[0] + Concat(parts[1..])
  }

  /** Calling the decoder once per part, on what the last call left and the next part, until it is
      done; parts that arrive later stay unread. */
  function Feed(left: string, parts: seq<string>): Decoded
    decreases |parts|
  {
    if parts == [] then Decoded(NeedMore, [], left)
    else
      var d := Decode(left + parts[0]);
      if d.status == NeedMore then Prefixed(d.output, Feed(d.left, parts[1..]))
      else d.(left := d.left + Concat(parts[1..]))
  }

  /** If no pass wraps on a stream then none wraps on what a call leaves of a part of it. */
  lemma {:induction false} UnwrappedLeft(a: string, b: string)
    requires Unwrapped(a + b) && |a + b| <= MAX_SIZE
    ensures Unwrapped(a) && Unwrapped(Decode(a).left + b)
    decreases |a|
  {
    hide OnePass, PassWraps, Find;
    if OnePass(a).Short? { ShortDoesNotWrap(a); }
    if PassWraps(a) {
      WrappedPassExtends(a, b);
    } else if !OnePass(a).Short? {
      PassExtends(a, b);
      if OnePass(a).Chunk? { UnwrappedLeft(OnePass(a).rest, b); }
    }
  }

  lemma ShortDoesNotWrap(a: string)
    requires OnePass(a).Short?
    ensures !PassWraps(a)
  {
  }

  /** Any split of a stream decodes as the whole stream does. */
  lemma {:induction false} AnySplitDecodesTheSame(left: string, parts: seq<string>)
    requires parts != [] && |left + Concat(parts)| <= MAX_SIZE && Unwrapped(left + Concat(parts))
    ensures Feed(left, parts) == Decode(left + Concat(parts))
    decreases |parts|
  {
    hide OnePass, Find, Unwrapped, Decode;
    var a, b := left + parts[0], Concat(parts[1..]);
    assert left + Concat(parts) == a + b;
    UnwrappedLeft(a, b);
    UnwrappedResumes(a, b);
    var d := Decode(a);
    if d.status == NeedMore {
      LeftIsNoLonger(a);
      if |parts| > 1 {
        AnySplitDecodesTheSame(d.left, parts[1..]);
      } else {
        assert parts[1..] == [] && b == "" && d.left + b == d.left;
        NothingLeftToDo(a);
        assert Prefixed(d.output, Decoded(NeedMore, [], d.left)) == d by { assert d.output + [] == d.output; }
        assert a + b == a;
      }
    }
  }

  lemma {:induction false} LeftIsNoLonger(a: string)
    ensures |Decode(a).left| <= |a|
    decreases |a|
  {
    if OnePass(a).Chunk? && |OnePass(a).rest| < |a| { LeftIsNoLonger(OnePass(a).rest); }
  }

  /** Calling again without new input changes nothing. */
  lemma {:induction false} NothingLeftToDo(a: string)
    requires Decode(a).status == NeedMore
    ensures Decode(Decode(a).left) == Decoded(NeedMore, [], Decode(a).left)
    decreases |a|
  {
    hide Find;
    if OnePass(a).Chunk? { NothingLeftToDo(OnePass(a).rest); }
  }

  /** A pass that does not wrap shortens the buffer by at least six bytes. */
  lemma PassShortens(a: string)
    requires OnePass(a).Chunk? && !PassWraps(a)
    ensures |OnePass(a).rest| + 6 <= |a|
  {
    assert ReadHex("") == 0;
  }

  // ---------- Sizes ----------

  ghost predicate IsSign(sign: string) { sign == "" || sign == "+" || sign == "-" }

  ghost predicate IsPrefix(prefix: string) { prefix == "" || prefix == "0x" || prefix == "0X" }

  ghost predicate IsPad(pad: string) { forall i | 0 <= i < |pad| :: pad[i] as int == 32 || 9 <= pad[i] as int <= 13 }

  /** What ends a run of digits and belongs to nothing in front of them. */
  ghost predicate EndsDigits(sign: string, prefix: string, digits: string, tail: string) {
    tail != [] ==>
      && tail[0] !in LOWER_DIGITS && tail[0] !in UPPER_DIGITS
      && (prefix == "" && digits == "0" ==> tail[0] != 'x' && tail[0] != 'X')
      && (sign + prefix + digits == "" ==> !IsPad(tail[..1]) && tail[0] != '+' && tail[0] != '-')
  }

  lemma {:induction false} PadSkipped(pad: string, t: string)
    requires IsPad(pad) && (t != [] ==> !IsSpace(t[0]))
    ensures SkipSpaces(pad + t) == t
  {
    if pad == [] {
      assert pad + t == t;
    } else {
      SpacesExactly(pad[0]);
      PadSkipped(pad[1..], t);
      assert (pad + t)[1..] == pad[1..] + t;
    }
  }

  lemma PrefixPassed(sign: string, prefix: string, digits: string, tail: string)
    requires IsPrefix(prefix) && IsHexRun(digits) && EndsDigits(sign, prefix, digits, tail)
    ensures var u := prefix + digits + tail;
            (if "0x" <= u || "0X" <= u then HexRun(u[2..]) else HexRun(u)) == digits
  {
    hide HexRun;
    var u := prefix + digits + tail;
    if tail != [] { HexDigitsExactly(tail[0]); }
    HexRunOf(digits, tail);
    if prefix != "" {
      assert u == prefix + (digits + tail);
      assert |prefix| == 2 && u[..2] == prefix && u[2..] == digits + tail;
    } else {
      assert u == digits + tail;
      if |u| > 1 && u[0] == '0' && digits != [] {
        assert u[1] == if |digits| > 1 then digits[1] else tail[0];
        if |digits| > 1 { assert IsHex(digits[1]); } else { assert digits == "0"; }
        assert u[1] != 'x' && u[1] != 'X';
      }
    }
  }

  /** The first character behind the white space is no white space, and no sign unless it is the sign. */
  lemma FirstOfSize(sign: string, prefix: string, digits: string, tail: string)
    requires IsSign(sign) && IsPrefix(prefix) && IsHexRun(digits) && EndsDigits(sign, prefix, digits, tail)
    ensures var t := sign + (prefix + digits + tail);
            t != [] ==> !IsSpace(t[0]) && (sign == "" ==> t[0] != '+' && t[0] != '-')
  {
    var u := prefix + digits + tail;
    var t := sign + u;
    if sign == "" && t != [] {
      assert t == u;
      if prefix == "" && digits == [] {
        assert t == tail && tail[..1] == [tail[0]];
        SpacesExactly(tail[0]);
      } else {
        assert prefix == "" ==> t[0] == digits[0] && IsHex(digits[0]);
        assert prefix != "" ==> t[0] == prefix[0];
      }
    }
  }

  /** The digits of a size, behind any white space, sign and prefix and in either case, are read as the
      number they spell: one that does not fit as the largest, a negative one modulo 2^64, and no digits
      as 0. What follows the digits does not matter. */
  lemma SizeReads(pad: string, sign: string, prefix: string, digits: string, tail: string, n: nat)
    requires IsPad(pad) && IsSign(sign) && IsPrefix(prefix) && HexSpells(digits, n)
    requires EndsDigits(sign, prefix, digits, tail)
    ensures ReadHex(pad + (sign + (prefix + digits + tail))) ==
              if n >= 0x1_0000_0000_0000_0000 then 0xFFFF_FFFF_FFFF_FFFF
              else if sign == "-" && n > 0 then 0x1_0000_0000_0000_0000 - n
              else n
  {
    hide HexNumber, HexSpells, HexRun, EndsDigits, SkipSpaces, IsHexRun;
    var u := prefix + digits + tail;
    var t := sign + u;
    HexNumberExactly(digits, n);
    PrefixPassed(sign, prefix, digits, tail);
    FirstOfSize(sign, prefix, digits, tail);
    PadSkipped(pad, t);
    if sign == "" { assert t == u; } else { assert t[0] == sign[0] && t[1..] == u; }
  }

  /** The shortest text of a number in digits of one case is read as the number. */
  lemma SizeTextReads(n: nat, digits: string)
    requires n < TWO_64 && (digits == LOWER_DIGITS || digits == UPPER_DIGITS)
    ensures ReadHex(HexTextOf(n, digits)) == n
  {
    hide ReadHex, HexSpells, HexTextOf;
    var t := HexTextOf(n, digits);
    HexTextSpells(n, digits);
    assert IsPad("");
    SizeReads("", "", "", t, "", n);
    assert "" + ("" + ("" + t + "")) == t;
  }

  // ---------- Encoding ----------

  /** A chunk as section 4.1 of RFC 7230 writes it: the size in hexadecimal digits of either case,
      extensions, and the data. */
  datatype ChunkText = ChunkText(digits: string, extension: string, data: string)

  ghost predicate SizeLine(digits: string, extension: string, size: nat) {
    && digits != [] && HexSpells(digits, size)
    && (extension != [] ==> extension[0] == ';')
    && Find(extension, CRLF) == None
  }

  ghost predicate WellFormedChunk(c: ChunkText) {
    c.data != [] && SizeLine(c.digits, c.extension, |c.data|)
  }

  function EncodeChunk(c: ChunkText): (r: string)
    ensures |r| >= 4
  {
    c.digits + c.extension + CRLF + c.data + CRLF
  }

  function EncodeChunks(chunks: seq<ChunkText>): string {
    if chunks == [] then "" else EncodeChunk(chunks[0]) + EncodeChunks(chunks[1..])
  }

  function Payload(chunks: seq<ChunkText>): string {
    if chunks == [] then "" else chunks[0].data + Payload(chunks[1..])
  }

  /** Trailer fields, each ended by a CRLF. */
  function Trailers(lines: seq<string>): string {
    if lines == [] then "" else lines[0] + CRLF + Trailers(lines[1..])
  }

  function EncodeLast(zeros: string, extension: string, trailers: seq<string>): string {
    zeros + extension + CRLF + Trailers(trailers) + CRLF
  }

  lemma {:induction false} FindFirst(s: string, rest: string)
    requires Find(s, CRLF) == None
    ensures Find(s + CRLF + rest, CRLF) == Some(|s|)
    decreases |s|
  {
    var t := s + CRLF + rest;
    if s == [] {
      assert t == CRLF + rest;
      assert t[..2] == CRLF;
    } else {
      assert t[1..] == s[1..] + CRLF + rest;
      FindFirst(s[1..], rest);
      assert !(CRLF <= t) by {
        if |s| == 1 { assert t[1] == '\r'; } else { assert t[..2] == s[..2]; }
      }
    }
  }

  lemma {:induction false} FindNot(s: string, t: string)
    requires IsHexRun(s) && Find(t, CRLF) == None
    ensures Find(s + t, CRLF) == None
    decreases |s|
  {
    if s == [] {
      assert s + t == t;
    } else {
      assert (s + t)[1..] == s[1..] + t;
      FindNot(s[1..], t);
      assert (s + t)[0] == s[0] && IsHex(s[0]);
    }
  }

  lemma {:induction false} HexRunOf(s: string, t: string)
    requires IsHexRun(s) && (t != [] ==> !IsHex(t[0]))
    ensures HexRun(s + t) == s
    decreases |s|
  {
    if s == [] {
      assert s + t == t;
    } else {
      assert (s + t)[1..] == s[1..] + t;
      assert IsHex(s[0]);
      HexRunOf(s[1..], t);
      assert s == [s[0]] + s[1..];
    }
  }

  lemma SizeLineReads(digits: string, extension: string, size: nat)
    requires SizeLine(digits, extension, size) && size < TWO_64
    ensures ReadHex(digits + extension) == size && Find(digits + extension, CRLF) == None
  {
    hide ReadHex, HexNumber, HexSpells, Find;
    HexNumberExactly(digits, size);
    FindNot(digits, extension);
    assert EndsDigits("", "", digits, extension) by { assert ';' !in LOWER_DIGITS && ';' !in UPPER_DIGITS; }
    assert IsPad("");
    SizeReads("", "", "", digits, extension, size);
    assert "" + ("" + ("" + digits + extension)) == digits + extension;
  }

  /** Where the parts of a chunk stand. */
  lemma ChunkSlices(h: string, data: string, rest: string)
    ensures var s := h + CRLF + (data + CRLF + rest);
            && s[..|h|] == h && s[|h| + 2..|h| + 2 + |data|] == data && s[|h| + 4 + |data|..] == rest
  {
    var body := data + CRLF + rest;
    var s := h + CRLF + body;
    assert s[|h| + 2..] == body;
    assert s[|h| + 2..|h| + 2 + |data|] == body[..|data|] == data;
    assert s[|h| + 4 + |data|..] == body[|data| + 2..] == rest;
  }

  lemma ChunkPass(c: ChunkText, rest: string)
    requires WellFormedChunk(c) && |EncodeChunk(c) + rest| <= MAX_SIZE
    ensures OnePass(EncodeChunk(c) + rest) == Chunk(c.data, rest) && !PassWraps(EncodeChunk(c) + rest)
  {
    hide ReadHex, Find, HexNumber, HexSpells;
    var h, body := c.digits + c.extension, c.data + CRLF + rest;
    SizeLineReads(c.digits, c.extension, |c.data|);
    FindFirst(h, body);
    ChunkSlices(h, c.data, rest);
    ChunkSpells(c, rest);
  }

  lemma ChunkSpells(c: ChunkText, rest: string)
    ensures EncodeChunk(c) + rest == c.digits + c.extension + CRLF + (c.data + CRLF + rest)
  {
  }

  /** A text that holds the pattern somewhere. */
  lemma {:induction false} FindSomewhere(a: string, pattern: string, b: string)
    ensures Find(a + pattern + b, pattern).Some?
    decreases |a|
  {
    var s := a + pattern + b;
    if a == [] {
      assert s[..|pattern|] == pattern;
    } else {
      assert s[1..] == a[1..] + pattern + b;
      FindSomewhere(a[1..], pattern, b);
    }
  }

  lemma {:induction false} TrailersEndLine(lines: seq<string>)
    ensures lines != [] ==> exists t :: Trailers(lines) == t + CRLF
  {
    if |lines| == 1 {
      assert Trailers(lines) == lines[0] + CRLF + Trailers(lines[1..]) == lines[0] + CRLF;
    } else if lines != [] {
      TrailersEndLine(lines[1..]);
      var t :| Trailers(lines[1..]) == t + CRLF;
      assert Trailers(lines) == (lines[0] + CRLF + t) + CRLF;
    }
  }

  lemma LastPass(zeros: string, extension: string, trailers: seq<string>)
    requires SizeLine(zeros, extension, 0)
    ensures Decode(EncodeLast(zeros, extension, trailers)) == Decoded(Done, [], EncodeLast(zeros, extension, trailers))
    ensures Unwrapped(EncodeLast(zeros, extension, trailers))
  {
    hide ReadHex, Find, HexNumber;
    var h := zeros + extension;
    var s := EncodeLast(zeros, extension, trailers);
    SizeLineReads(zeros, extension, 0);
    FindFirst(h, Trailers(trailers) + CRLF);
    assert s == h + CRLF + (Trailers(trailers) + CRLF);
    assert s[..|h|] == h;
    if trailers == [] {
      assert s == h + (CRLF + CRLF) + "";
      FindSomewhere(h, CRLF + CRLF, "");
    } else {
      TrailersEndLine(trailers);
      var t :| Trailers(trailers) == t + CRLF;
      assert s == (h + CRLF + t) + (CRLF + CRLF) + "";
      FindSomewhere(h + CRLF + t, CRLF + CRLF, "");
    }
  }

  /** Decoding an encoded body gives back exactly the concatenation of its chunks, with any
      extensions and trailers. */
  lemma {:induction false} EncodedBodyDecodes(chunks: seq<ChunkText>, zeros: string, extension: string,
          trailers: seq<string>)
    requires forall i | 0 <= i < |chunks| :: WellFormedChunk(chunks[i])
    requires SizeLine(zeros, extension, 0)
    requires |EncodeChunks(chunks) + EncodeLast(zeros, extension, trailers)| <= MAX_SIZE
    ensures Decode(EncodeChunks(chunks) + EncodeLast(zeros, extension, trailers))
         == Decoded(Done, Payload(chunks), EncodeLast(zeros, extension, trailers))
    ensures Unwrapped(EncodeChunks(chunks) + EncodeLast(zeros, extension, trailers))
    decreases |chunks|
  {
    hide OnePass, PassWraps, EncodeChunk, WellFormedChunk, SizeLine;
    var last := EncodeLast(zeros, extension, trailers);
    LastPass(zeros, extension, trailers);
    if chunks == [] {
      assert EncodeChunks(chunks) + last == last;
    } else {
      var rest := EncodeChunks(chunks[1..]) + last;
      assert EncodeChunks(chunks) + last == EncodeChunk(chunks[0]) + rest;
      ChunkPass(chunks[0], rest);
      EncodedBodyDecodes(chunks[1..], zeros, extension, trailers);
    }
  }

  // ---------- A body that is not complete ----------

  ghost predicate OccursAt(s: string, pattern: string, i: nat) {
    i + |pattern| <= |s| && s[i..i + |pattern|] == pattern
  }

  lemma OccursBehind(s: string, pattern: string, i: nat)
    requires s != []
    ensures OccursAt(s, pattern, i + 1) <==> OccursAt(s[1..], pattern, i)
  {
    if i + 1 + |pattern| <= |s| { assert s[i + 1..i + 1 + |pattern|] == s[1..][i..i + |pattern|]; }
  }

  lemma OccursFirst(s: string, pattern: string)
    ensures pattern <= s <==> OccursAt(s, pattern, 0)
  {
  }

  /** The place found is the first at which the pattern occurs. */
  lemma {:induction false} FindExactly(s: string, pattern: string)
    ensures match Find(s, pattern)
            case None => forall i: nat :: !OccursAt(s, pattern, i)
            case Some(k) => OccursAt(s, pattern, k) && forall i: nat | i < k :: !OccursAt(s, pattern, i)
    decreases |s|
  {
    OccursFirst(s, pattern);
    if s == [] {
      assert forall i: nat | OccursAt(s, pattern, i) :: i == 0;
    } else {
      hide OccursAt;
      FindExactly(s[1..], pattern);
      forall i: nat | i > 0 ensures OccursAt(s, pattern, i) <==> OccursAt(s[1..], pattern, i - 1) {
        OccursBehind(s, pattern, i - 1);
      }
      if Find(s, pattern).Some? && Find(s, pattern).value > 0 {
        var k := Find(s, pattern).value;
        assert OccursAt(s[1..], pattern, k - 1);
      }
    }
  }

  lemma PrefixOccurs(p: string, s: string, pattern: string, i: nat)
    requires p <= s && OccursAt(p, pattern, i)
    ensures OccursAt(s, pattern, i)
  {
    assert p[i..i + |pattern|] == s[i..i + |pattern|];
  }

  /** Lines with their ends, and an empty line behind them. */
  function Lines(lines: seq<string>): string {
    if lines == [] then CRLF else lines[0] + CRLF + Lines(lines[1..])
  }

  ghost predicate AreLines(lines: seq<string>) {
    forall i | 0 <= i < |lines| :: lines[i] != "" && Find(lines[i], CRLF) == None
  }

  lemma TwoLineEnds(s: string, i: nat)
    requires OccursAt(s, CRLF + CRLF, i)
    ensures OccursAt(s, CRLF, i) && OccursAt(s, CRLF, i + 2) && i + 4 <= |s| && s[i] == '\r'
  {
    var pair := s[i..i + 4];
    assert s[i..i + 2] == pair[..2] == CRLF && s[i + 2..i + 4] == pair[2..] == CRLF;
    assert s[i] == pair[0];
  }

  lemma OccursInRest(line: string, rest: string, pattern: string, i: nat)
    ensures OccursAt(line + CRLF + rest, pattern, |line| + 2 + i) <==> OccursAt(rest, pattern, i)
  {
    var s := line + CRLF + rest;
    if i + |pattern| <= |rest| {
      assert s[|line| + 2 + i..|line| + 2 + i + |pattern|] == rest[i..i + |pattern|];
    }
  }

  /** Two line ends in a row occur only at the end. */
  lemma {:induction false} EmptyLineIsLast(lines: seq<string>, i: nat)
    requires lines != [] && AreLines(lines) && OccursAt(Lines(lines), CRLF + CRLF, i)
    ensures i + 4 == |Lines(lines)|
    decreases |lines|
  {
    hide Find, OccursAt;
    var line, rest := lines[0], Lines(lines[1..]);
    var s := line + CRLF + rest;
    assert line != "" && Find(line, CRLF) == None;
    FindFirst(line, rest);
    FindExactly(s, CRLF);
    TwoLineEnds(s, i);
    assert i >= |line|;
    assert lines[1..] == [] ==> rest == CRLF;
    if i == |line| {
      OccursInRest(line, rest, CRLF, 0);
      OccursFirst(rest, CRLF);
      if lines[1..] != [] { LineEndNotFirst(lines[1..]); }
    } else {
      assert i != |line| + 1 by { assert s[|line| + 1] == '\n'; }
      var j := i - |line| - 2;
      OccursInRest(line, rest, CRLF + CRLF, j);
      NoPairInLineEnd();
      if lines[1..] != [] { EmptyLineIsLast(lines[1..], j); }
    }
  }

  lemma NoPairInLineEnd()
    ensures forall j: nat :: !OccursAt(CRLF, CRLF + CRLF, j)
  {
  }

  /** No line is empty, so none begins with a line end. */
  lemma LineEndNotFirst(lines: seq<string>)
    requires AreLines(lines) && lines != []
    ensures !(CRLF <= Lines(lines))
  {
    hide Find;
    var line, rest := lines[0], Lines(lines[1..]);
    var s := line + CRLF + rest;
    assert line != "" && Find(line, CRLF) == None;
    FindFirst(line, rest);
    FindExactly(s, CRLF);
    OccursFirst(s, CRLF);
  }

  lemma {:induction false} TrailersAreLines(lines: seq<string>)
    ensures Trailers(lines) + CRLF == Lines(lines)
  {
    if lines != [] {
      TrailersAreLines(lines[1..]);
      assert lines[0] + CRLF + Trailers(lines[1..]) + CRLF == lines[0] + CRLF + (Trailers(lines[1..]) + CRLF);
    } else {
      assert "" + CRLF == CRLF;
    }
  }

  /** In a prefix the pattern is found at the same place or not at all. */
  lemma FirstInPrefix(p: string, s: string, pattern: string, k: nat)
    requires p <= s && Find(s, pattern) == Some(k)
    ensures Find(p, pattern) == None || (Find(p, pattern) == Some(k) && k + |pattern| <= |p|)
  {
    hide Find;
    FindExactly(s, pattern);
    FindExactly(p, pattern);
    if Find(p, pattern).Some? {
      var pos := Find(p, pattern).value;
      PrefixOccurs(p, s, pattern, pos);
      assert k + |pattern| <= |p| && p[k..k + |pattern|] == s[k..k + |pattern|];
      assert OccursAt(p, pattern, k);
    }
  }

  lemma PrefixOfConcat(h: string, body: string, p: string)
    requires p <= h + CRLF + body && |p| >= |h|
    ensures p[..|h|] == h
  {
    var s := h + CRLF + body;
    assert forall i | 0 <= i < |h| :: p[i] == s[i] == h[i];
  }

  /** In a buffer that holds a part of a header line and what follows it, the line end is found behind
      the header or not at all. */
  lemma HeaderFound(h: string, body: string, p: string)
    requires Find(h, CRLF) == None && p <= h + CRLF + body
    ensures Find(p, CRLF) == None || (Find(p, CRLF) == Some(|h|) && |p| >= |h| + 2 && p[..|h|] == h)
  {
    hide Find;
    FindFirst(h, body);
    FirstInPrefix(p, h + CRLF + body, CRLF, |h|);
    if |p| >= |h| { PrefixOfConcat(h, body, p); }
  }

  /** A buffer that ends inside the last chunk or its trailers. */
  lemma LastIncomplete(zeros: string, extension: string, trailers: seq<string>, p: string)
    requires SizeLine(zeros, extension, 0) && AreLines(trailers)
    requires p <= EncodeLast(zeros, extension, trailers) && p != EncodeLast(zeros, extension, trailers)
    ensures Decode(p).status == NeedMore
  {
    hide Find, ReadHex, HexSpells, Lines;
    var h, s := zeros + extension, EncodeLast(zeros, extension, trailers);
    SizeLineReads(zeros, extension, 0);
    TrailersAreLines(trailers);
    assert s == h + CRLF + Lines(trailers);
    LinesUnfold(h, trailers);
    HeaderFound(h, Lines(trailers), p);
    FindExactly(p, CRLF + CRLF);
    if Find(p, CRLF + CRLF).Some? {
      var i := Find(p, CRLF + CRLF).value;
      PrefixOccurs(p, s, CRLF + CRLF, i);
      EmptyLineIsLast([h] + trailers, i);
    }
  }

  lemma LinesUnfold(line: string, lines: seq<string>)
    requires line != "" && Find(line, CRLF) == None && AreLines(lines)
    ensures AreLines([line] + lines) && Lines([line] + lines) == line + CRLF + Lines(lines)
  {
    hide Find;
    assert ([line] + lines)[1..] == lines;
  }

  /** A buffer that ends inside a chunk. */
  lemma ChunkIncomplete(c: ChunkText, p: string)
    requires WellFormedChunk(c) && |EncodeChunk(c)| <= MAX_SIZE && p <= EncodeChunk(c) && p != EncodeChunk(c)
    ensures OnePass(p) == Short
  {
    hide Find, ReadHex, HexSpells;
    var h, body := c.digits + c.extension, c.data + CRLF;
    SizeLineReads(c.digits, c.extension, |c.data|);
    assert EncodeChunk(c) == h + CRLF + body;
    HeaderFound(h, body, p);
  }

  /** No proper prefix of an encoded body is taken for a complete one. */
  lemma {:induction false} IncompleteNeedsMore(chunks: seq<ChunkText>, zeros: string, extension: string,
                                               trailers: seq<string>, p: string)
    requires forall i | 0 <= i < |chunks| :: WellFormedChunk(chunks[i])
    requires SizeLine(zeros, extension, 0) && AreLines(trailers)
    requires var body := EncodeChunks(chunks) + EncodeLast(zeros, extension, trailers);
             |body| <= MAX_SIZE && p <= body && p != body
    ensures Decode(p).status == NeedMore
    decreases |chunks|
  {
    hide OnePass, PassWraps, EncodeChunk, EncodeLast, WellFormedChunk, SizeLine, AreLines;
    var last := EncodeLast(zeros, extension, trailers);
    if chunks == [] {
      assert EncodeChunks(chunks) + last == last;
      LastIncomplete(zeros, extension, trailers, p);
    } else {
      var first, rest := EncodeChunk(chunks[0]), EncodeChunks(chunks[1..]) + last;
      var body := EncodeChunks(chunks) + last;
      assert body == first + rest;
      if |p| < |first| {
        assert p == body[..|p|] == first[..|p|];
        ChunkIncomplete(chunks[0], p);
      } else {
        var q := p[|first|..];
        assert p == body[..|p|];
        assert p == first + q && q == rest[..|q|];
        ChunkPass(chunks[0], q);
        IncompleteNeedsMore(chunks[1..], zeros, extension, trailers, q);
      }
    }
  }

  /** However an encoded body arrives, the calls together return its payload. */
  lemma EncodedBodyDecodesInPieces(parts: seq<string>, chunks: seq<ChunkText>, zeros: string, extension: string,
          trailers: seq<string>)
    requires forall i | 0 <= i < |chunks| :: WellFormedChunk(chunks[i])
    requires SizeLine(zeros, extension, 0)
    requires Concat(parts) == EncodeChunks(chunks) + EncodeLast(zeros, extension, trailers)
    requires |Concat(parts)| <= MAX_SIZE
    ensures Feed("", parts).status == Done && Feed("", parts).output == Payload(chunks)
  {
    EncodedBodyDecodes(chunks, zeros, extension, trailers);
    assert "" + Concat(parts) == Concat(parts);
    AnySplitDecodesTheSame("", parts);
  }

  /** A pass that wraps to 0 leaves the buffer as it is, so the loop does not end: the size "-6"
      is read as 2^64 - 6. */
  lemma WrappedPassMayDiverge()
    ensures Decode("-6\r\n").status == Diverges
  {
    var s := "-6\r\n";
    assert s[1..] == "6\r\n" && s[1..][1..] == CRLF;
    assert !(CRLF <= s[1..]) && !(CRLF <= s) by { assert s[0] != CRLF[0] && s[1] != CRLF[0]; }
    assert s[1..] != [];
    assert Find(CRLF, CRLF) == Some(0);
    assert Find(s[1..], CRLF) == Some(1);
    assert Find(s, CRLF) == Some(2);
    assert s[..2] == "-6" && "-6"[1..] == "6" && "6"[1..] == "";
    assert HexRun("6") == "6" && HexNumber("6") == 6 by { assert "6"[..0] == ""; }
    assert ReadHex("-6") == TWO_64 - 6;
    assert OnePass(s) == Chunk(Substr(s, 4, TWO_64 - 6), s[0..]);
    assert s[0..] == s;
  }
}
