/** Tokens and the texts they stand on, both ways: a text of the language is read as one token, and what
    is read as a token is a text of the language. */
module JsonTokens {
  import opened Wrappers
  import opened Sequences
  import opened JsonValue
  import opened JsonNumbers
  import opened JsonStrings
  import opened JsonGrammar
  import opened JsonSyntax
  import opened JsonDialect

  lemma TextAt(doc: string, pos: nat, t: string)
    requires At(doc, pos, t)
    ensures pos + |t| <= |doc| && doc[pos..pos + |t|] == t
  {
  }

  lemma TokenAt(doc: string, pos: nat)
    requires pos < |doc| && !IsSpace(doc[pos])
    ensures var (kind, end) := TokenBody(doc, pos + 1, doc[pos]);
            ReadToken(doc, pos) == Token(kind, pos, end)
    ensures doc[pos] != '/' ==> SkipComments(doc, pos) == ReadToken(doc, pos)
  {
  }

  // ---------- White space ----------

  /** The white space of section 2 of RFC 8259. */
  lemma BlanksExactly(c: char)
    ensures IsSpace(c) <==> c as int in {0x20, 0x09, 0x0A, 0x0D}
  {
    assert ' ' as int == 0x20 && '\t' as int == 0x09 && '\n' as int == 0x0A && '\r' as int == 0x0D;
  }

  lemma {:induction false} GapSkipped(doc: string, pos: nat, gap: string)
    requires At(doc, pos, gap) && IsGap(gap)
    ensures SkipSpaces(doc, pos) == SkipSpaces(doc, pos + |gap|)
    ensures ReadToken(doc, pos) == ReadToken(doc, pos + |gap|)
    ensures SkipComments(doc, pos) == SkipComments(doc, pos + |gap|)
    decreases |gap|
  {
    hide TokenBody;
    if gap != [] {
      assert gap == [gap[0]] + gap[1..];
      AtSplit(doc, pos, [gap[0]], gap[1..]);
      AtIndex(doc, pos, gap, 0);
      GapSkipped(doc, pos + 1, gap[1..]);
    }
  }

  lemma {:induction false} SkippedIsGap(doc: string, pos: nat)
    requires pos <= |doc|
    ensures IsGap(doc[pos..SkipSpaces(doc, pos)])
    decreases |doc| - pos
  {
    var end := SkipSpaces(doc, pos);
    if pos < end {
      SkippedIsGap(doc, pos + 1);
      var t, rest := doc[pos..end], doc[pos + 1..end];
      forall i | 0 <= i < |t| ensures IsSpace(t[i]) {
        if i > 0 { assert t[i] == rest[i - 1]; }
      }
    }
  }

  // ---------- Comments ----------

  lemma {:induction false} BlockCommentEnds(doc: string, pos: nat, end: nat)
    requires pos + 2 <= end <= |doc| && doc[end - 2] == '*' && doc[end - 1] == '/'
    requires forall i | pos <= i < end - 2 :: !(doc[i] == '*' && doc[i + 1] == '/')
    ensures CStyleCommentEnd(doc, pos) == (true, end)
    decreases end - pos
  {
    if pos + 2 < end {
      assert !(doc[pos] == '*' && doc[pos + 1] == '/');
      BlockCommentEnds(doc, pos + 1, end);
    }
  }

  lemma {:induction false} BlockCommentRead(doc: string, pos: nat)
    requires pos <= |doc|
    ensures var (closed, end) := CStyleCommentEnd(doc, pos);
            if closed then
              && pos + 2 <= end && doc[end - 2] == '*' && doc[end - 1] == '/'
              && forall i | pos <= i < end - 2 :: !(doc[i] == '*' && doc[i + 1] == '/')
            else end == |doc|
    decreases |doc| - pos
  {
    if pos < |doc| && !(doc[pos] == '*' && CharAt(doc, pos + 1, '/')) {
      BlockCommentRead(doc, pos + 1);
    }
  }

  lemma {:induction false} LineCommentEnds(doc: string, pos: nat, last: nat)
    requires pos <= last < |doc| && IsLineEnd(doc[last]) && forall i | pos <= i < last :: !IsLineEnd(doc[i])
    ensures CppStyleCommentEnd(doc, pos) == last + if doc[last] == '\r' && CharAt(doc, last + 1, '\n') then 2 else 1
    decreases last - pos
  {
    if pos < last {
      assert !IsLineEnd(doc[pos]);
      LineCommentEnds(doc, pos + 1, last);
    }
  }

  /** A line comment that does not run to the end of the document. */
  lemma {:induction false} LineCommentRead(doc: string, pos: nat) returns (last: nat)
    requires pos <= |doc| && CppStyleCommentEnd(doc, pos) < |doc|
    ensures pos <= last < |doc| && IsLineEnd(doc[last]) && forall i | pos <= i < last :: !IsLineEnd(doc[i])
    decreases |doc| - pos
  {
    if IsLineEnd(doc[pos]) {
      last := pos;
    } else {
      last := LineCommentRead(doc, pos + 1);
    }
  }

  /** What readToken does behind a slash. */
  lemma SlashReads(doc: string, pos: nat)
    requires CharAt(doc, pos, '/')
    ensures ReadToken(doc, pos) == Token(if CommentEnd(doc, pos + 1).0 then Comment else ErrorToken, pos,
                                         CommentEnd(doc, pos + 1).1)
    ensures ReadToken(doc, pos).kind == Comment ==> SkipComments(doc, pos) == SkipComments(doc, ReadToken(doc, pos).end)
  {
    hide CommentEnd;
  }

  lemma BlockCommentSkipped(doc: string, pos: nat, c: string)
    requires At(doc, pos, c) && IsBlockComment(c)
    ensures ReadToken(doc, pos) == Token(Comment, pos, pos + |c|)
    ensures SkipComments(doc, pos) == SkipComments(doc, pos + |c|)
  {
    hide ReadToken, SkipComments, CStyleCommentEnd;
    var end := pos + |c|;
    assert forall i | 0 <= i < |c| :: doc[pos + i] == c[i];
    assert c[0] == c[..2][0] && c[1] == c[..2][1];
    assert c[|c| - 2] == c[|c| - 2..][0] && c[|c| - 1] == c[|c| - 2..][1];
    forall i | pos + 2 <= i < end - 2 ensures !(doc[i] == '*' && doc[i + 1] == '/') {
      assert doc[i] == c[i - pos] && doc[i + 1] == c[i - pos + 1];
    }
    BlockCommentEnds(doc, pos + 2, end);
    SlashReads(doc, pos);
  }

  lemma LineCommentSkipped(doc: string, pos: nat, c: string)
    requires At(doc, pos, c) && IsLineComment(c)
    ensures ReadToken(doc, pos).kind == Comment
    ensures SkipComments(doc, pos) == SkipComments(doc, pos + |c|)
  {
    hide ReadToken, SkipComments, CppStyleCommentEnd;
    var end := pos + |c|;
    assert forall i | 0 <= i < |c| :: doc[pos + i] == c[i];
    assert c[0] == c[..2][0] && c[1] == c[..2][1];
    forall i | pos + 2 <= i < end - 1 ensures !IsLineEnd(doc[i]) {
      assert doc[i] == c[i - pos];
    }
    LineCommentEnds(doc, pos + 2, end - 1);
    SlashReads(doc, pos);
    if CharAt(doc, end, '\n') { GapSkipped(doc, end, doc[end..end + 1]); }
  }

  lemma CommentSkipped(doc: string, pos: nat, c: string)
    requires At(doc, pos, c) && IsComment(c)
    ensures ReadToken(doc, pos).kind == Comment
    ensures SkipComments(doc, pos) == SkipComments(doc, pos + |c|)
  {
    hide ReadToken, SkipComments, At, IsBlockComment, IsLineComment;
    if IsBlockComment(c) { BlockCommentSkipped(doc, pos, c); } else { LineCommentSkipped(doc, pos, c); }
  }

  // ---------- Fillers ----------

  lemma {:induction false} GapIsFiller(s: string)
    requires IsGap(s)
    ensures IsFiller(s)
  {
    if s != "" {
      assert IsSpace(s[0]);
      GapIsFiller(s[1..]);
    }
  }

  lemma CommentThenFiller(c: string, s: string)
    requires IsComment(c) && IsFiller(s)
    ensures IsFiller(c + s)
  {
    var t := c + s;
    assert t[..|c|] == c && t[|c|..] == s;
  }

  lemma SpaceThenFiller(c: char, s: string)
    requires IsSpace(c) && IsFiller(s)
    ensures IsFiller([c] + s)
  {
    assert ([c] + s)[1..] == s;
  }

  lemma {:induction false} FillerConcat(a: string, b: string)
    requires IsFiller(a) && IsFiller(b)
    ensures IsFiller(a + b)
    decreases |a|
  {
    hide IsFiller, IsComment;
    if a == "" {
      assert a + b == b;
    } else if IsSpace(a[0]) && IsFiller(a[1..]) {
      FillerConcat(a[1..], b);
      SpaceThenFiller(a[0], a[1..] + b);
      assert [a[0]] + (a[1..] + b) == a + b;
    } else {
      var k := FirstComment(a);
      FillerConcat(a[k..], b);
      CommentThenFiller(a[..k], a[k..] + b);
      assert a[..k] + (a[k..] + b) == a + b;
    }
  }

  lemma GapUnfolds(s: string)
    requires s != ""
    ensures IsGap(s) <==> IsSpace(s[0]) && IsGap(s[1..])
  {
    if IsSpace(s[0]) && IsGap(s[1..]) { assert forall i | 1 <= i < |s| :: s[i] == s[1..][i - 1]; }
  }

  lemma {:induction false} FillerSkipped(doc: string, pos: nat, s: string)
    requires At(doc, pos, s) && IsFiller(s)
    ensures SkipComments(doc, pos) == SkipComments(doc, pos + |s|)
    ensures if IsGap(s) then ReadToken(doc, pos) == ReadToken(doc, pos + |s|) else ReadToken(doc, pos).kind == Comment
    decreases |s|
  {
    hide ReadToken, SkipComments, IsComment, At, IsGap;
    if s == "" {
      assert IsGap(s) by { EmptyGap(); }
    } else {
      GapUnfolds(s);
      var k := if IsSpace(s[0]) && IsFiller(s[1..]) then 1 else FirstComment(s);
      assert s == s[..k] + s[k..];
      AtSplit(doc, pos, s[..k], s[k..]);
      FillerSkipped(doc, pos + k, s[k..]);
      if IsSpace(s[0]) && IsFiller(s[1..]) {
        GapUnfolds(s[..k]);
        EmptyGap();
        assert s[..k][1..] == "";
        GapSkipped(doc, pos, s[..k]);
      } else {
        CommentSkipped(doc, pos, s[..k]);
        CommentsStart(s[..k]);
      }
    }
  }

  lemma EmptyGap()
    ensures IsGap("")
  {
  }

  /** The length of the comment a filler begins with. */
  ghost function FirstComment(s: string): (k: nat)
    requires IsFiller(s) && s != "" && !(IsSpace(s[0]) && IsFiller(s[1..]))
    ensures 0 < k <= |s| && IsComment(s[..k]) && IsFiller(s[k..])
  {
    var k :| 0 < k <= |s| && IsComment(s[..k]) && IsFiller(s[k..]);
    k
  }

  lemma CommentsStart(c: string)
    requires IsComment(c)
    ensures |c| >= 2 && c[0] == '/'
  {
    assert c[0] == c[..2][0];
  }

  lemma FillerStarts(s: string)
    requires IsFiller(s) && s != ""
    ensures IsSpace(s[0]) || s[0] == '/'
  {
    if !(IsSpace(s[0]) && IsFiller(s[1..])) { CommentsStart(s[..FirstComment(s)]); }
  }

  lemma BlockCommentIsFiller(doc: string, pos: nat)
    requires CharAt(doc, pos, '/') && CharAt(doc, pos + 1, '*') && CStyleCommentEnd(doc, pos + 2).0
    ensures IsFiller(doc[pos..CStyleCommentEnd(doc, pos + 2).1])
  {
    hide IsFiller, CStyleCommentEnd;
    var end := CStyleCommentEnd(doc, pos + 2).1;
    var t := doc[pos..end];
    BlockCommentRead(doc, pos + 2);
    assert t[..2] == "/*" && t[|t| - 2..] == "*/";
    CommentThenNothing(t);
  }

  lemma CommentThenNothing(c: string)
    requires IsComment(c)
    ensures IsFiller(c)
  {
    assert IsFiller("");
    CommentThenFiller(c, "");
    assert c + "" == c;
  }

  /** A line comment, with the line feed behind a carriage return. */
  lemma LineCommentIsFiller(doc: string, pos: nat)
    requires CharAt(doc, pos, '/') && CharAt(doc, pos + 1, '/') && CppStyleCommentEnd(doc, pos + 2) < |doc|
    ensures IsFiller(doc[pos..CppStyleCommentEnd(doc, pos + 2)])
  {
    hide IsFiller, CppStyleCommentEnd;
    var last := LineCommentRead(doc, pos + 2);
    LineCommentEnds(doc, pos + 2, last);
    var end := CppStyleCommentEnd(doc, pos + 2);
    var c, lineFeed := doc[pos..last + 1], doc[last + 1..end];
    assert forall i | 0 <= i < |c| :: c[i] == doc[pos + i];
    assert c[..2] == "//";
    assert IsLineComment(c);
    GapIsFiller(lineFeed);
    CommentThenFiller(c, lineFeed);
    assert c + lineFeed == doc[pos..end];
  }

  /** The comment that is read at a position. */
  lemma CommentRead(doc: string, pos: nat)
    requires CharAt(doc, pos, '/') && ReadToken(doc, pos).kind == Comment && ReadToken(doc, pos).end < |doc|
    ensures ReadToken(doc, pos).start == pos && IsFiller(doc[pos..ReadToken(doc, pos).end])
  {
    hide ReadToken, IsFiller, CStyleCommentEnd, CppStyleCommentEnd;
    SlashReads(doc, pos);
    if doc[pos + 1] == '*' { BlockCommentIsFiller(doc, pos); } else { LineCommentIsFiller(doc, pos); }
  }

  /** Every comment begins with a slash, behind white space. */
  lemma CommentsHaveSlashes(doc: string, pos: nat)
    requires pos <= |doc| && ReadToken(doc, pos).kind == Comment
    ensures var start := SkipSpaces(doc, pos);
            CharAt(doc, start, '/') && ReadToken(doc, pos) == ReadToken(doc, start)
  {
    hide StringEnd, NumberEnd, CommentEnd, KeywordEnd;
  }

  /** What is skipped in front of a token is filler. */
  lemma {:induction false} SkippedIsFiller(doc: string, pos: nat)
    requires pos <= |doc| && SkipComments(doc, pos).start < |doc|
    ensures var s := doc[pos..SkipComments(doc, pos).start];
            IsFiller(s) && (if IsGap(s) then ReadToken(doc, pos) == SkipComments(doc, pos)
                            else ReadToken(doc, pos).kind == Comment)
    decreases |doc| - pos
  {
    hide IsFiller, ReadToken, IsGap;
    var start, u := SkipSpaces(doc, pos), ReadToken(doc, pos);
    var s, gap := doc[pos..SkipComments(doc, pos).start], doc[pos..start];
    SkippedIsGap(doc, pos);
    GapIsFiller(gap);
    if u.kind == Comment {
      SkippedIsFiller(doc, u.end);
      CommentsHaveSlashes(doc, pos);
      CommentRead(doc, start);
      var c, rest := doc[start..u.end], doc[u.end..SkipComments(doc, pos).start];
      FillerConcat(c, rest);
      FillerConcat(gap, c + rest);
      assert s == gap + (c + rest);
      NotAGap(s, start - pos);
    } else {
      assert u.start == start by { TokenStart(doc, pos); }
    }
  }

  lemma NotAGap(s: string, i: nat)
    requires i < |s| && !IsSpace(s[i])
    ensures !IsGap(s)
  {
  }

  lemma TokenStart(doc: string, pos: nat)
    requires pos <= |doc|
    ensures ReadToken(doc, pos).start == SkipSpaces(doc, pos)
  {
  }

  // ---------- Numbers ----------

  lemma {:induction false} DigitsExactly(t: string, pos: nat, end: nat)
    requires pos <= end <= |t| && IsDigits(t[pos..end]) && (end < |t| ==> !IsDigit(t[end]))
    ensures SkipDigits(t, pos) == end
    decreases end - pos
  {
    if pos < end {
      assert t[pos] == t[pos..end][0] && t[pos + 1..end] == t[pos..end][1..];
      DigitsExactly(t, pos + 1, end);
    }
  }

  lemma {:induction false} DigitsRead(t: string, pos: nat)
    requires pos <= |t|
    ensures var end := SkipDigits(t, pos); IsDigits(t[pos..end]) && (end < |t| ==> !IsDigit(t[end]))
    decreases |t| - pos
  {
    if pos < |t| && IsDigit(t[pos]) {
      DigitsRead(t, pos + 1);
      var end := SkipDigits(t, pos);
      assert t[pos..end] == [t[pos]] + t[pos + 1..end];
    }
  }

  predicate IsMark(c: char) { c == '.' || c == 'e' || c == 'E' }

  lemma FractionExactly(t: string, pos: nat, end: nat)
    requires pos <= end <= |t| && IsLooseFraction(t[pos..end]) && (end < |t| ==> t[end] == 'e' || t[end] == 'E')
    ensures FractionEnd(t, pos) == end && (pos < |t| ==> IsMark(t[pos]))
  {
    if pos < end {
      assert t[pos] == t[pos..end][0] && t[pos + 1..end] == t[pos..end][1..];
      DigitsExactly(t, pos + 1, end);
    }
  }

  lemma ExponentExactly(t: string, pos: nat)
    requires pos <= |t| && IsLooseExponent(t[pos..])
    ensures ExponentEnd(t, pos) == |t| && (pos < |t| ==> t[pos] == 'e' || t[pos] == 'E')
  {
    var e := t[pos..];
    if e != "" {
      assert t[pos] == e[0] && t[pos + 1..|t|] == e[1..];
      if |e| > 1 {
        assert t[pos + 1] == e[1] && t[pos + 2..|t|] == e[2..];
      }
      var signed := |e| > 1 && (e[1] == '+' || e[1] == '-');
      DigitsExactly(t, pos + if signed then 2 else 1, |t|);
    }
  }

  /** The reader's scan finds the parts of a number. */
  lemma PartsRead(t: string)
    requires t != "" && (t[0] == '-' || IsDigit(t[0])) && NumberEnd(t, 1) == |t|
    ensures IsLooseNumeral(t)
  {
    hide SkipDigits, FractionEnd, ExponentEnd, IsLooseFraction, IsLooseExponent, IsDigits, SpellNumber;
    var d := SkipDigits(t, 1);
    var f := FractionEnd(t, d);
    DigitsRead(t, 1);
    FractionRead(t, d);
    ExponentRead(t, f);
    SpellParts(t, d, f);
    assert IsLooseNumber(PartsAt(t, d, f));
  }

  /** The number whose parts end at the given positions. */
  function PartsAt(t: string, d: nat, f: nat): Number
    requires 1 <= d <= f <= |t|
  {
    Number(t[0] == '-', if t[0] == '-' then t[1..d] else t[..d], t[d..f], t[f..])
  }

  lemma SpellParts(t: string, d: nat, f: nat)
    requires 1 <= d <= f <= |t| && (t[0] == '-' || IsDigit(t[0])) && IsDigits(t[1..d])
    ensures SpellNumber(PartsAt(t, d, f)) == t && IsDigits(PartsAt(t, d, f).digits)
    ensures t[0] != '-' ==> PartsAt(t, d, f).digits != ""
  {
    assert t[..d] == [t[0]] + t[1..d];
    assert t == t[..d] + t[d..f] + t[f..];
    assert t[0] != '-' ==> "" + t[..d] == t[..d];
  }

  lemma FractionRead(t: string, pos: nat)
    requires pos <= |t|
    ensures IsLooseFraction(t[pos..FractionEnd(t, pos)])
  {
    hide SkipDigits;
    if CharAt(t, pos, '.') {
      DigitsRead(t, pos + 1);
      var end := FractionEnd(t, pos);
      assert t[pos..end][1..] == t[pos + 1..end];
    }
  }

  lemma ExponentRead(t: string, pos: nat)
    requires pos <= |t| && ExponentEnd(t, pos) == |t|
    ensures IsLooseExponent(t[pos..])
  {
    hide SkipDigits;
    var e := t[pos..];
    if e != "" {
      var signed := |e| > 1 && (e[1] == '+' || e[1] == '-');
      var k := if signed then 2 else 1;
      DigitsRead(t, pos + k);
      assert e[k..] == t[pos + k..|t|];
    }
  }

  /** The loose numbers are exactly the texts a number token may have. */
  lemma NumeralExactly(t: string)
    ensures IsLooseNumeral(t) <==> t != "" && (t[0] == '-' || IsDigit(t[0])) && NumberEnd(t, 1) == |t|
  {
    hide SkipDigits, FractionEnd, ExponentEnd, IsLooseFraction, IsLooseExponent;
    if IsLooseNumeral(t) {
      var n :| IsLooseNumber(n) && t == SpellNumber(n);
      var d := |n.digits| + if n.minus then 1 else 0;
      var f := d + |n.fraction|;
      assert t == ((if n.minus then "-" else "") + n.digits) + n.fraction + n.exponent;
      assert t[d..f] == n.fraction && t[f..] == n.exponent;
      assert t[1..d] == if n.minus then n.digits else n.digits[1..];
      assert t[0] == if n.minus then '-' else n.digits[0];
      ExponentExactly(t, f);
      FractionExactly(t, d, f);
      DigitsExactly(t, 1, d);
    }
    if t != "" && (t[0] == '-' || IsDigit(t[0])) && NumberEnd(t, 1) == |t| { PartsRead(t); }
  }

  function Least(a: nat, b: nat): nat {
    if a < b then a else b
  }

  lemma {:induction false} DigitsCut(doc: string, start: nat, end: nat, pos: nat)
    requires start <= pos <= end <= |doc|
    ensures SkipDigits(doc[start..end], pos - start) == Least(SkipDigits(doc, pos), end) - start
    decreases end - pos
  {
    if pos < end && IsDigit(doc[pos]) { DigitsCut(doc, start, end, pos + 1); }
  }

  /** The scan of a number in a part of the document goes as far as it can. */
  lemma NumberCut(doc: string, start: nat, end: nat, pos: nat)
    requires start <= pos <= end <= |doc|
    ensures NumberEnd(doc[start..end], pos - start) == Least(NumberEnd(doc, pos), end) - start
  {
    hide SkipDigits, FractionEnd, ExponentEnd;
    DigitsCut(doc, start, end, pos);
    var d := SkipDigits(doc, pos);
    var f := FractionEnd(doc, d);
    FractionCut(doc, start, end, Least(d, end));
    if d <= end { ExponentCut(doc, start, end, Least(f, end)); } else { NothingCut(doc[start..end]); }
    if f > end { NothingCut(doc[start..end]); }
  }

  lemma NothingCut(t: string)
    ensures FractionEnd(t, |t|) == ExponentEnd(t, |t|) == |t|
  {
  }

  lemma FractionCut(doc: string, start: nat, end: nat, pos: nat)
    requires start <= pos <= end <= |doc|
    ensures FractionEnd(doc[start..end], pos - start) == Least(FractionEnd(doc, pos), end) - start
  {
    hide SkipDigits;
    if pos < end && doc[pos] == '.' { DigitsCut(doc, start, end, pos + 1); }
  }

  lemma ExponentCut(doc: string, start: nat, end: nat, pos: nat)
    requires start <= pos <= end <= |doc|
    ensures ExponentEnd(doc[start..end], pos - start) == Least(ExponentEnd(doc, pos), end) - start
  {
    hide SkipDigits;
    var t, k := doc[start..end], pos - start;
    if pos < end {
      assert t[k] == doc[pos];
      DigitsCut(doc, start, end, pos + 1);
    }
    if pos + 1 < end {
      assert t[k + 1] == doc[pos + 1];
      DigitsCut(doc, start, end, pos + 2);
    }
  }

  /** `t` cannot be a longer number with the character behind it. */
  ghost predicate Complete(doc: string, end: nat, t: string) {
    end < |doc| && IsLooseNumeral(t) ==> !IsLooseNumeral(t + [doc[end]])
  }

  /** The text of a number token is a number that is complete, and the only one. */
  lemma NumberTokenExactly(doc: string, pos: nat, end: nat)
    requires pos < end <= |doc| && (doc[pos] == '-' || IsDigit(doc[pos]))
    ensures IsLooseNumeral(doc[pos..end]) && Complete(doc, end, doc[pos..end]) <==> NumberEnd(doc, pos + 1) == end
  {
    hide NumberEnd, IsLooseNumeral;
    var t := doc[pos..end];
    NumberCut(doc, pos, end, pos + 1);
    NumeralExactly(t);
    if end < |doc| {
      var longer := doc[pos..end + 1];
      assert longer == t + [doc[end]];
      NumberCut(doc, pos, end + 1, pos + 1);
      NumeralExactly(longer);
    }
  }

  predicate IsNumberChar(c: char) { IsDigit(c) || IsMark(c) || c == '+' || c == '-' }

  /** The end of the document, or a character that no number holds. */
  ghost predicate Stops(doc: string, pos: nat) {
    pos <= |doc| && (pos < |doc| ==> !IsNumberChar(doc[pos]))
  }

  lemma LastOfNumber(n: Number)
    requires IsLooseNumber(n)
    ensures var t := SpellNumber(n); t != "" && IsNumberChar(t[|t| - 1])
  {
    var e, f, t := n.exponent, n.fraction, SpellNumber(n);
    if e != "" {
      assert t[|t| - 1] == e[|e| - 1];
      assert |e| > 1 ==> e[1..][|e| - 2] == e[|e| - 1];
      assert |e| > 2 ==> e[2..][|e| - 3] == e[|e| - 1];
    } else if f != "" {
      assert t[|t| - 1] == f[|f| - 1];
      assert |f| > 1 ==> f[1..][|f| - 2] == f[|f| - 1];
    } else if n.digits != "" {
      assert t[|t| - 1] == n.digits[|n.digits| - 1];
    }
  }

  lemma StopsComplete(doc: string, end: nat, t: string)
    requires Stops(doc, end)
    ensures Complete(doc, end, t)
  {
    if end < |doc| && IsLooseNumeral(t + [doc[end]]) {
      var n :| IsLooseNumber(n) && t + [doc[end]] == SpellNumber(n);
      LastOfNumber(n);
    }
  }

  // ---------- Strings ----------

  lemma {:induction false} RawEnds(doc: string, pos: nat, raw: string)
    requires At(doc, pos, raw + "\"") && IsRaw(raw)
    ensures StringEnd(doc, pos) == (true, pos + |raw| + 1)
    decreases |raw|
  {
    AtIndex(doc, pos, raw + "\"", 0);
    if raw != "" {
      var k := if raw[0] == '\\' then 2 else 1;
      assert raw + "\"" == raw[..k] + (raw[k..] + "\"");
      AtSplit(doc, pos, raw[..k], raw[k..] + "\"");
      RawEnds(doc, pos + k, raw[k..]);
    }
  }

  lemma {:induction false} RawRead(doc: string, pos: nat)
    requires pos <= |doc|
    ensures var (closed, end) := StringEnd(doc, pos);
            if closed then doc[end - 1] == '\"' && IsRaw(doc[pos..end - 1]) else end == |doc|
    decreases |doc| - pos
  {
    if pos < |doc| && doc[pos] != '\"' {
      var k := if doc[pos] == '\\' && pos + 1 < |doc| then 2 else 1;
      RawRead(doc, pos + k);
      var (closed, end) := StringEnd(doc, pos);
      if closed {
        var raw := doc[pos..end - 1];
        assert raw[0] == doc[pos] && raw[k..] == doc[pos + k..end - 1];
      }
    }
  }

  lemma LiteralExactly(doc: string, pos: nat, end: nat)
    requires pos < end <= |doc| && doc[pos] == '\"'
    ensures IsLiteral(doc[pos..end]) <==> StringEnd(doc, pos + 1) == (true, end)
    ensures IsLiteral(doc[pos..end]) ==> doc[pos..end][1..end - pos - 1] == doc[pos + 1..end - 1]
  {
    hide StringEnd, IsRaw, At;
    var t := doc[pos..end];
    RawRead(doc, pos + 1);
    assert t[0] == doc[pos] && t[|t| - 1] == doc[end - 1];
    if |t| >= 2 {
      SliceOfSlice(doc, pos, end, 1, |t| - 1);
      if IsLiteral(t) { ClosedRawEnds(doc, pos + 1, end - 1); }
    }
  }

  lemma ClosedRawEnds(doc: string, pos: nat, quote: nat)
    requires pos <= quote < |doc| && doc[quote] == '\"' && IsRaw(doc[pos..quote])
    ensures StringEnd(doc, pos) == (true, quote + 1)
  {
    var raw := doc[pos..quote];
    assert raw + "\"" == doc[pos..quote + 1];
    RawEnds(doc, pos, raw);
  }

  // ---------- Words ----------

  /** What a number token is read as, and what its text denotes. */
  lemma NumberExactly(cfg: Config, doc: string, pos: nat, end: nat, v: Value)
    requires pos < end <= |doc| && (doc[pos] == '-' || IsDigit(doc[pos]))
    ensures var t, word := ReadToken(doc, pos), doc[pos..end];
            (t.end == end && ScalarResult(cfg, doc, t) == Ok(v, end)) <==>
            (WordValue(cfg, word) == Some(v) && Complete(doc, end, word))
  {
    hide NumberEnd, IsLooseNumeral, DecodeNumber, StringEnd, Unescape, Complete;
    var t, word := ReadToken(doc, pos), doc[pos..end];
    TokenAt(doc, pos);
    NumberTokenExactly(doc, pos, end);
    assert word[0] == doc[pos];
    assert t == Token(NumberToken, pos, NumberEnd(doc, pos + 1));
    if t.end == end {
      assert TokenText(doc, t) == word;
    }
  }

  lemma StringExactly(cfg: Config, doc: string, pos: nat, end: nat, v: Value)
    requires pos < end <= |doc| && doc[pos] == '\"'
    ensures var t, word := ReadToken(doc, pos), doc[pos..end];
            t.end == end && ScalarResult(cfg, doc, t) == Ok(v, end) <==> WordValue(cfg, word) == Some(v)
    ensures !IsLooseNumeral(doc[pos..end])
  {
    hide StringEnd, Unescape, IsLiteral, DecodeNumber;
    TokenAt(doc, pos);
    LiteralExactly(doc, pos, end);
    NumeralExactly(doc[pos..end]);
  }

  lemma KeywordExactly(doc: string, pos: nat, end: nat, pattern: string)
    requires pos < end <= |doc|
    ensures doc[pos..end] == [doc[pos]] + pattern <==> KeywordEnd(doc, pos + 1, pattern) == (true, end)
    ensures !KeywordEnd(doc, pos + 1, pattern).0 ==> KeywordEnd(doc, pos + 1, pattern).1 == pos + 1
    ensures pattern != "" && KeywordEnd(doc, pos + 1, pattern).0 ==> CharAt(doc, pos + 1, pattern[0])
  {
    var word := doc[pos..end];
    assert word == [doc[pos]] + doc[pos + 1..end];
    if word == [doc[pos]] + pattern { assert doc[pos + 1..end] == word[1..] == pattern; }
  }

  /** Every other word is a name. */
  lemma NameExactly(cfg: Config, doc: string, pos: nat, end: nat, v: Value)
    requires pos < end <= |doc| && !IsSpace(doc[pos])
    requires doc[pos] != '\"' && doc[pos] != '-' && !IsDigit(doc[pos])
    ensures var t, word := ReadToken(doc, pos), doc[pos..end];
            t.end == end && ScalarResult(cfg, doc, t) == Ok(v, end) <==> WordValue(cfg, word) == Some(v)
    ensures !IsLooseNumeral(doc[pos..end])
  {
    hide IsLooseNumeral, DecodeNumber, StringEnd, Unescape, NumberEnd, CommentEnd, KeywordEnd;
    var word, c := doc[pos..end], doc[pos];
    TokenAt(doc, pos);
    NumeralExactly(word);
    assert word[0] == c;
    KeywordExactly(doc, pos, end, "rue");
    KeywordExactly(doc, pos, end, "alse");
    KeywordExactly(doc, pos, end, "ull");
    assert ['t'] + "rue" == "true" && ['f'] + "alse" == "false" && ['n'] + "ull" == "null";
  }

  /** The reader reads a word as a value exactly when the word denotes it and cannot be a longer number. */
  lemma WordExactly(cfg: Config, doc: string, pos: nat, end: nat, v: Value)
    requires pos < end <= |doc| && !IsSpace(doc[pos])
    ensures var t, word := ReadToken(doc, pos), doc[pos..end];
            (t.end == end && ScalarResult(cfg, doc, t) == Ok(v, end)) <==>
            (WordValue(cfg, word) == Some(v) && Complete(doc, end, word))
  {
    hide ScalarResult, WordValue, ReadToken, IsLooseNumeral;
    var c := doc[pos];
    if c == '-' || IsDigit(c) {
      NumberExactly(cfg, doc, pos, end, v);
    } else if c == '\"' {
      StringExactly(cfg, doc, pos, end, v);
    } else {
      NameExactly(cfg, doc, pos, end, v);
    }
  }

  // ---------- Separators ----------

  /** A token that is neither a closing brace nor a comment, with text behind it, is a separator. */
  lemma SeparatorRead(doc: string, pos: nat)
    requires pos < |doc| && !IsSpace(doc[pos])
    requires ReadToken(doc, pos).kind !in {ObjectEnd, Comment} && ReadToken(doc, pos).end < |doc|
    ensures IsSeparator(doc[pos..ReadToken(doc, pos).end])
  {
    hide NumberEnd, StringEnd, CStyleCommentEnd, CppStyleCommentEnd, KeywordEnd, IsLooseNumeral, IsLiteral;
    TokenAt(doc, pos);
    var end := ReadToken(doc, pos).end;
    var t, c := doc[pos..end], doc[pos];
    assert t[0] == c;
    if c == '-' || IsDigit(c) {
      NumberTokenExactly(doc, pos, end);
    } else if c == '\"' {
      RawRead(doc, pos + 1);
      LiteralExactly(doc, pos, end);
    } else if c == '/' {
      if doc[pos + 1] == '*' { BlockCommentRead(doc, pos + 2); }
      assert t[1] == doc[pos + 1];
    } else {
      KeywordExactly(doc, pos, end, "rue");
      KeywordExactly(doc, pos, end, "alse");
      KeywordExactly(doc, pos, end, "ull");
      assert ['t'] + "rue" == "true" && ['f'] + "alse" == "false" && ['n'] + "ull" == "null";
    }
  }

  /** What a member or a closing brace begins with. */
  predicate OpensEntry(c: char) { IsSpace(c) || c in {'/', '\"', '}'} }

  lemma SeparatorReads(doc: string, pos: nat, t: string)
    requires At(doc, pos, t) && IsSeparator(t) && pos + |t| < |doc| && OpensEntry(doc[pos + |t|])
    ensures ReadToken(doc, pos) == SkipComments(doc, pos) && ReadToken(doc, pos).end == pos + |t|
    ensures ReadToken(doc, pos).kind !in {ObjectEnd, Comment}
  {
    hide NumberEnd, StringEnd, CStyleCommentEnd, CppStyleCommentEnd, KeywordEnd, IsLooseNumeral, IsLiteral, ReadToken;
    var end := pos + |t|;
    NumeralExactly(t);
    SeparatorStarts(t);
    assert t == doc[pos..end] && t[0] == doc[pos];
    var c := doc[pos];
    TokenAt(doc, pos);
    if c == '-' || IsDigit(c) {
      if |t| == 1 { OneCharNumber(t); }
      StopsComplete(doc, end, t);
      NumberTokenExactly(doc, pos, end);
    } else if c == '\"' {
      LiteralExactly(doc, pos, end);
    } else if c == '/' {
      assert t[1] == doc[pos + 1];
    } else {
      KeywordExactly(doc, pos, end, "rue");
      KeywordExactly(doc, pos, end, "alse");
      KeywordExactly(doc, pos, end, "ull");
      assert ['t'] + "rue" == "true" && ['f'] + "alse" == "false" && ['n'] + "ull" == "null";
    }
  }

  lemma SeparatorStarts(t: string)
    requires IsSeparator(t)
    ensures t != "" && !IsSpace(t[0]) && t[0] != '}' && (t[0] == '/' ==> |t| == 2 && t[1] !in {'*', '/'})
    ensures t[0] == '\"' ==> IsLiteral(t)
    ensures t[0] == '-' || IsDigit(t[0]) ==> IsLooseNumeral(t) || |t| == 1
    ensures t[0] != '\"' && t[0] != '/' && t[0] != '-' && !IsDigit(t[0]) ==> IsName(t) || |t| == 1
  {
    NumeralExactly(t);
  }

  lemma OneCharNumber(t: string)
    requires |t| == 1 && (t[0] == '-' || IsDigit(t[0]))
    ensures IsLooseNumeral(t)
  {
    NumeralExactly(t);
  }
}
