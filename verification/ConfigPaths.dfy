/** How config_map reads a section key: the path of its segments. */
module ConfigPaths {
  import opened Chars

  type Path = seq<string>

  // ---------- strip ----------

  function Strip(s: string): (r: string) {
    if s == [] then s
    else if IsSpace(s[0]) then Strip(s[1..])
    else if IsSpace(s[|s| - 1]) then Strip(s[..|s| - 1])
    else s
  }

  ghost predicate Blank(s: string) { forall i | 0 <= i < |s| :: IsSpace(s[i]) }

  /** Neither the first nor the last character is white space. */
  predicate Trimmed(s: string) {
    s != [] ==> !IsSpace(s[0]) && !IsSpace(s[|s| - 1])
  }

  lemma {:induction false} StripRemovesPadding(before: string, s: string, after: string)
    requires Blank(before) && Trimmed(s) && Blank(after)
    ensures Strip(before + s + after) == s
    decreases |before| + |after|
  {
    var t := before + s + after;
    if before != [] {
      assert IsSpace(before[0]) && t[0] == before[0] && t[1..] == before[1..] + s + after;
      StripRemovesPadding(before[1..], s, after);
    } else if after != [] {
      var a := after[..|after| - 1];
      assert IsSpace(after[|after| - 1]) && t[|t| - 1] == after[|after| - 1];
      assert t[..|t| - 1] == before + s + a;
      StripRemovesPadding(before, s, a);
      if s == [] {
        assert t == after && IsSpace(after[0]);
        StripBlank(after);
      } else {
        assert t[0] == s[0];
      }
    } else {
      assert t == s;
    }
  }

  lemma {:induction false} StripBlank(s: string)
    requires Blank(s)
    ensures Strip(s) == []
  {
    if s != [] {
      assert IsSpace(s[0]);
      StripBlank(s[1..]);
    }
  }

  /** config_map::strip: one index runs forward and one backward; an empty string when they cross. */
  method StripString(str: string) returns (r: string)
    ensures r == Strip(str)
  {
    var head := 0;
    while head != |str| && IsSpace(str[head])
      invariant 0 <= head <= |str| && Blank(str[..head])
    {
      head := head + 1;
    }
    var tail := |str|;
    while tail != 0 && IsSpace(str[tail - 1])
      invariant 0 <= tail <= |str| && Blank(str[tail..])
      invariant head < |str| ==> head < tail
    {
      tail := tail - 1;
    }
    if head == |str| {
      assert str[..head] == str;
      StripBlank(str);
      return "";
    }
    StripRemovesPadding(str[..head], str[head..tail], str[tail..]);
    assert str == str[..head] + str[head..tail] + str[tail..];
    return str[head..tail];
  }

  // ---------- The segments of a key ----------

  /** Backslashes count as slashes. */
  function Slashes(s: string): (r: string)
    ensures |r| == |s|
    ensures forall i | 0 <= i < |s| :: r[i] == if s[i] == '\\' then '/' else s[i]
  {
    if s == [] then [] else [if s[0] == '\\' then '/' else s[0]] + Slashes(s[1..])
  }

  /** The length of the piece before the first slash. */
  function PieceLength(s: string): (n: nat)
    ensures n <= |s| && (n < |s| ==> s[n] == '/')
    ensures forall i | 0 <= i < n :: s[i] != '/'
  {
    if s == [] || s[0] == '/' then 0 else 1 + PieceLength(s[1..])
  }

  lemma {:induction false} PieceEnd(s: string, n: nat)
    requires n <= |s| && (n < |s| ==> s[n] == '/')
    requires forall i | 0 <= i < n :: s[i] != '/'
    ensures PieceLength(s) == n
  {
    if n > 0 {
      assert s[0] != '/';
      forall i | 0 <= i < n - 1 ensures s[1..][i] != '/' { assert s[i + 1] != '/'; }
      PieceEnd(s[1..], n - 1);
    }
  }

  /** The stripped pieces between slashes, without the empty ones. */
  function Pieces(s: string): Path {
    var n := PieceLength(s);
    var rest := if n < |s| then Pieces(s[n + 1..]) else [];
    var sub := Strip(s[..n]);
    if sub == "" then rest else [sub] + rest
  }

  /** The path a section key selects. */
  function Segments(key: string): Path {
    Pieces(Slashes(key))
  }

  /** The pieces behind the slash at `head`; none at the end. */
  function PiecesBehind(str: string, head: nat): Path
    requires head <= |str|
  {
    if head < |str| then Pieces(str[head + 1..]) else []
  }

  /** One turn of the loop of set_section: the stripped piece behind a slash, and where the next
      slash is. */
  method NextPiece(str: string, head: nat) returns (sub: string, tail: nat)
    requires head < |str|
    ensures head < tail <= |str| && (tail < |str| ==> str[tail] == '/')
    ensures PiecesBehind(str, head) == (if sub == "" then [] else [sub]) + PiecesBehind(str, tail)
  {
    hide Strip;
    ghost var rest := str[head + 1..];
    tail := head + 1 + PieceLength(str[head + 1..]);
    sub := StripString(str[head + 1..tail]);
    assert rest[..tail - head - 1] == str[head + 1..tail];
    if tail < |str| {
      assert str[tail] == rest[tail - head - 1] && rest[tail - head..] == str[tail + 1..];
    }
  }

  // ---------- One path, many spellings ----------

  predicate IsSeparator(c: char) { c == '/' || c == '\\' || IsSpace(c) }

  ghost predicate Separator(s: string) { forall i | 0 <= i < |s| :: IsSeparator(s[i]) }

  /** A segment as it can come out of a key. */
  predicate IsSegment(s: string) {
    s != "" && Trimmed(s) && '/' !in s && '\\' !in s
  }

  predicate HasSlash(s: string) { '/' in s || '\\' in s }

  /** A spelling of a path: each segment behind its separator, and what trails. */
  function Spelling(separators: seq<string>, segments: Path, trailing: string): string
    requires |separators| == |segments|
  {
    if segments == [] then trailing
    else separators[0] + segments[0] + Spelling(separators[1..], segments[1..], trailing)
  }

  lemma SlashesConcat(a: string, b: string)
    ensures Slashes(a + b) == Slashes(a) + Slashes(b)
  {
    assert forall i | 0 <= i < |a + b| :: Slashes(a + b)[i] == (Slashes(a) + Slashes(b))[i];
  }

  /** A separator in front of a text does not add a segment. */
  lemma {:induction false} LeadingSeparator(sep: string, s: string)
    requires Separator(sep)
    ensures Pieces(Slashes(sep) + s) == Pieces(s)
    decreases |sep|
  {
    var t := Slashes(sep) + s;
    if sep == [] {
      assert t == s;
    } else {
      assert IsSeparator(sep[0]);
      var u := Slashes(sep[1..]) + s;
      assert t == [if sep[0] == '\\' then '/' else sep[0]] + u;
      assert t[1..] == u;
      LeadingSeparator(sep[1..], s);
      if t[0] == '/' {
        assert t[..0] == "" && Pieces(t) == Pieces(u);
      } else {
        LeadingBlank(t[0], u);
      }
    }
  }

  lemma LeadingBlank(c: char, s: string)
    requires IsSpace(c)
    ensures Pieces([c] + s) == Pieces(s)
  {
    var t := [c] + s;
    var n := PieceLength(s);
    assert t[1..] == s;
    assert PieceLength(t) == n + 1;
    assert t[..n + 1][1..] == s[..n];
    assert Strip(t[..n + 1]) == Strip(s[..n]);
    assert n < |s| ==> t[n + 2..] == s[n + 1..];
  }

  lemma PieceBehind(seg: string, u: string)
    requires '/' !in seg
    ensures PieceLength(seg + u) == |seg| + PieceLength(u)
  {
    hide PieceLength;
    var n := PieceLength(u);
    var t := seg + u;
    forall i | 0 <= i < |seg| + n ensures t[i] != '/' {
      if i < |seg| { assert t[i] == seg[i]; } else { assert t[i] == u[i - |seg|]; }
    }
    PieceEnd(t, |seg| + n);
  }

  lemma PiecesUnfold(s: string)
    ensures var n := PieceLength(s);
            var rest := if n < |s| then Pieces(s[n + 1..]) else [];
            Pieces(s) == if Strip(s[..n]) == "" then rest else [Strip(s[..n])] + rest
  {
  }

  lemma NothingIsBlank()
    ensures Blank("")
  {
  }

  /** A segment in front of blanks that reach to the next slash or to the end. */
  lemma SegmentThenBlanks(seg: string, u: string)
    requires IsSegment(seg) && Blank(u[..PieceLength(u)])
    ensures Pieces(seg + u) == [seg] + Pieces(u)
  {
    hide Strip, PieceLength, Pieces, Blank, Trimmed;
    var n := PieceLength(u);
    var t := seg + u;
    PieceBehind(seg, u);
    PiecesUnfold(t);
    PiecesUnfold(u);
    assert t[..|seg| + n] == "" + seg + u[..n];
    assert Blank("") by { NothingIsBlank(); }
    StripRemovesPadding("", seg, u[..n]);
    StripBlank(u[..n]);
    if n < |u| {
      assert t[|seg| + n + 1..] == u[n + 1..];
    }
  }

  lemma SeparatorStartsBlank(sep: string, s: string)
    requires Separator(sep) && (HasSlash(sep) || s == "")
    ensures var u := Slashes(sep) + s; Blank(u[..PieceLength(u)])
  {
    var u := Slashes(sep) + s;
    var n := PieceLength(u);
    assert n <= |sep| by {
      if HasSlash(sep) {
        var i :| 0 <= i < |sep| && (sep[i] == '/' || sep[i] == '\\');
        assert u[i] == '/';
      }
    }
    forall i | 0 <= i < n ensures IsSpace(u[i]) { assert IsSeparator(sep[i]) && u[i] == Slashes(sep)[i]; }
  }

  /** What follows a segment: the next separator, if any, and the rest. */
  lemma RestOfSpelling(separators: seq<string>, segments: Path, trailing: string)
    requires |separators| == |segments| && segments != []
    requires forall i | 0 <= i < |segments| :: Separator(separators[i])
    requires forall i | 0 < i < |segments| :: HasSlash(separators[i])
    requires Separator(trailing)
    ensures var u := Slashes(Spelling(separators[1..], segments[1..], trailing)); Blank(u[..PieceLength(u)])
  {
    var rest := Spelling(separators[1..], segments[1..], trailing);
    if |segments| == 1 {
      SeparatorStartsBlank(trailing, "");
      assert Slashes(trailing) + "" == Slashes(rest);
    } else {
      var more := segments[1] + Spelling(separators[1..][1..], segments[1..][1..], trailing);
      assert rest == separators[1] + more;
      SlashesConcat(separators[1], more);
      SeparatorStartsBlank(separators[1], Slashes(more));
    }
  }

  /** Backslashes, repeated slashes, blank pieces and padding do not matter: every spelling of a
      path selects it. */
  lemma {:induction false} SpellingPieces(separators: seq<string>, segments: Path, trailing: string)
    requires |separators| == |segments|
    requires forall i | 0 <= i < |segments| :: IsSegment(segments[i]) && Separator(separators[i])
    requires forall i | 0 < i < |segments| :: HasSlash(separators[i])
    requires Separator(trailing)
    ensures Segments(Spelling(separators, segments, trailing)) == segments
    decreases |segments|
  {
    hide Pieces, Slashes, PieceLength, Blank;
    if segments == [] {
      LeadingSeparator(trailing, "");
      assert Slashes(trailing) + "" == Slashes(trailing);
      NoPieces();
    } else {
      var seg := segments[0];
      var rest := Spelling(separators[1..], segments[1..], trailing);
      SpellingPieces(separators[1..], segments[1..], trailing);
      RestOfSpelling(separators, segments, trailing);
      SlashesConcat(separators[0], seg + rest);
      SlashesConcat(seg, rest);
      assert Spelling(separators, segments, trailing) == separators[0] + (seg + rest);
      assert Slashes(seg) == seg by { assert forall i | 0 <= i < |seg| :: Slashes(seg)[i] == seg[i]; }
      LeadingSeparator(separators[0], seg + Slashes(rest));
      SegmentThenBlanks(seg, Slashes(rest));
      assert segments == [seg] + segments[1..];
    }
  }

  lemma NoPieces()
    ensures Pieces("") == []
  {
    assert ""[..0] == "";
  }
}
