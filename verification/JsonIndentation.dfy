/** What a reader sees of a layout: every line is indented by three blanks per open container, and an
    array stands on one line exactly when it is short and flat. */
module JsonIndentation {
  import opened JsonValue
  import opened JsonNumbers
  import opened JsonStrings
  import opened Sequences
  import opened JsonGrammar
  import opened JsonText
  import opened JsonSyntax
  import opened JsonLiterals
  import opened JsonTree
  import opened JsonStyled
  import opened JsonLayout

  // ---------- Scanning a document ----------

  /** Where a scan stands with respect to string literals, and how many containers are open. */
  datatype Scan = Scan(mode: Mode, open: int)

  function Brackets(c: char): int {
    if c == '[' || c == '{' then 1 else if c == ']' || c == '}' then -1 else 0
  }

  function Passed(s: Scan, c: char): Scan {
    Scan(Next(s.mode, c), s.open + if s.mode == Outside then Brackets(c) else 0)
  }

  function After(s: Scan, t: string): Scan
    decreases t
  {
    if t == "" then s else After(Passed(s, t[0]), t[1..])
  }

  lemma {:induction false} AfterConcat(s: Scan, a: string, b: string)
    ensures After(s, a + b) == After(After(s, a), b)
    decreases |a|
  {
    if a == "" {
      assert a + b == b;
    } else {
      assert (a + b)[1..] == a[1..] + b;
      AfterConcat(Passed(s, a[0]), a[1..], b);
    }
  }

  /** A line begins with exactly three blanks per open container; one that it closes with its first
      character does not count. */
  ghost predicate StartsLine(line: string, open: int) {
    exists k | 0 <= k < |line| :: StartsWithBlanks(line, k) && k == 3 * (open + if Brackets(line[k]) < 0 then -1 else 0)
  }

  ghost predicate StartsWithBlanks(line: string, k: nat)
    requires k < |line|
  {
    (forall i | 0 <= i < k :: line[i] == ' ') && line[k] != ' '
  }

  /** `i` is a line feed outside string literals. */
  ghost predicate FeedAt(s: Scan, t: string, i: nat) {
    i < |t| && t[i] == '\n' && After(s, t[..i]).mode == Outside
  }

  ghost predicate Aligned(s: Scan, t: string) {
    forall i: nat | FeedAt(s, t, i) :: StartsLine(t[i + 1..], After(s, t[..i]).open)
  }

  lemma LinesExtend(line: string, open: int, b: string)
    requires StartsLine(line, open)
    ensures StartsLine(line + b, open)
  {
    var k :| 0 <= k < |line| && StartsWithBlanks(line, k) &&
      k == 3 * (open + if Brackets(line[k]) < 0 then -1 else 0);
    var t := line + b;
    assert forall i | 0 <= i <= k :: t[i] == line[i];
    assert StartsWithBlanks(t, k);
  }

  lemma AlignedConcat(s: Scan, a: string, b: string)
    requires Aligned(s, a) && Aligned(After(s, a), b)
    ensures Aligned(s, a + b) && After(s, a + b) == After(After(s, a), b)
  {
    hide StartsLine, After;
    AfterConcat(s, a, b);
    var t := a + b;
    forall i: nat | FeedAt(s, t, i) ensures StartsLine(t[i + 1..], After(s, t[..i]).open) {
      if i < |a| {
        assert t[..i] == a[..i] && t[i + 1..] == a[i + 1..] + b;
        assert FeedAt(s, a, i);
        LinesExtend(a[i + 1..], After(s, a[..i]).open, b);
      } else {
        var j := i - |a|;
        assert t[..i] == a + b[..j] && t[i + 1..] == b[j + 1..];
        AfterConcat(s, a, b[..j]);
        assert FeedAt(After(s, a), b, j);
      }
    }
  }

  /** Keeps the scan where it is and has aligned lines. */
  ghost predicate Neutral(s: Scan, t: string) { Aligned(s, t) && After(s, t) == s }

  lemma NeutralConcat(s: Scan, a: string, b: string)
    requires Neutral(s, a) && Neutral(s, b)
    ensures Neutral(s, a + b)
  {
    hide Aligned, After;
    AlignedConcat(s, a, b);
  }

  // ---------- Words ----------

  /** Neither blanks nor quotes nor brackets. */
  ghost predicate Solid(t: string) {
    forall i | 0 <= i < |t| :: !IsSpace(t[i]) && t[i] != '\"' && Brackets(t[i]) == 0
  }

  lemma {:induction false} SolidIsNeutral(s: Scan, t: string)
    requires (forall i | 0 <= i < |t| :: t[i] != '\n' && t[i] != '\"' && Brackets(t[i]) == 0) && s.mode == Outside
    ensures Neutral(s, t)
    decreases |t|
  {
    if t != "" {
      assert t[0] != '\"' && Brackets(t[0]) == 0;
      SolidIsNeutral(s, t[1..]);
    }
  }

  lemma {:induction false} InsideStays(open: int, raw: string)
    requires IsRaw(raw)
    ensures After(Scan(Inside, open), raw) == Scan(Inside, open)
    decreases |raw|
  {
    if raw != "" {
      var k := if raw[0] == '\\' then 2 else 1;
      InsideStays(open, raw[k..]);
      assert k == 2 ==> raw[1..][1..] == raw[2..];
    }
  }

  lemma NoFeedsAligned(s: Scan, t: string)
    requires '\n' !in t
    ensures Aligned(s, t)
  {
    assert forall i: nat | i < |t| :: t[i] != '\n';
  }

  lemma QuotesAreNeutral(s: Scan, text: string)
    requires s.mode == Outside
    ensures Neutral(s, Quote(text)) && '\n' !in Quote(text)
  {
    hide After, Aligned, Escape, IsRaw;
    var raw := Escape(text);
    EscapeIsRaw(text);
    EscapeHasNoControls(text);
    NoFeedsAligned(s, Quote(text));
    QuoteSteps(s, raw);
    AfterConcat(s, "\"", raw);
    AfterConcat(s, "\"" + raw, "\"");
    InsideStays(s.open, raw);
  }

  lemma QuoteSteps(s: Scan, raw: string)
    requires s.mode == Outside
    ensures After(s, "\"") == Scan(Inside, s.open) && After(Scan(Inside, s.open), "\"") == s
  {
    assert "\""[1..] == "";
  }

  // ---------- Layouts ----------

  /** No null string pointers, and doubles are printed as words. */
  ghost predicate Tidy(v: Value) {
    match v
    case NoStr => false
    case Real(text) => text != "" && Solid(text)
    case Arr(elems) => forall i | 0 <= i < |elems| :: Tidy(elems[i])
    case Obj(members) => forall i | 0 <= i < |members| :: Tidy(members[i].value)
    case _ => true
  }

  /** A text that begins and ends with something visible and does not begin with a closing bracket. */
  ghost predicate Visible(t: string) {
    t != "" && t[0] != ' ' && Brackets(t[0]) >= 0 && t[|t| - 1] != ' ' && t[|t| - 1] != '\n'
  }

  lemma BracketPair(s: Scan, open: string, inner: string, close: string)
    requires s.mode == Outside && (open == "[" || open == "{") && (close == "]" || close == "}")
    requires Neutral(Scan(Outside, s.open + 1), inner)
    ensures Neutral(s, open + inner + close)
  {
    hide Aligned, After;
    Bracket(s, open);
    Bracket(Scan(Outside, s.open + 1), close);
    NoFeedsAligned(s, open);
    NoFeedsAligned(Scan(Outside, s.open + 1), close);
    AlignedConcat(s, open, inner);
    AlignedConcat(s, open + inner, close);
  }

  lemma Bracket(s: Scan, c: string)
    requires s.mode == Outside && |c| == 1 && Brackets(c[0]) != 0
    ensures After(s, c) == Scan(Outside, s.open + Brackets(c[0])) && '\n' !in c
  {
    assert c[1..] == "";
  }

  lemma LeafIsNeutral(v: Value, depth: nat)
    requires IsLeaf(v) && Tidy(v)
    ensures Neutral(Scan(Outside, depth), Text(v, ":")) && Visible(Text(v, ":")) && '\n' !in Text(v, ":")
  {
    hide Neutral, Quote;
    var s := Scan(Outside, depth);
    match v {
      case Int(n) => IntIsNeutral(s, n);
      case UInt(u) => IntIsNeutral(s, u);
      case Str(text) =>
        QuotesAreNeutral(s, text);
        QuotesAreVisible(text);
      case Arr(_) =>
        EmptyContainers(s);
        assert Text(v, ":") == "[" + "]" == "[]";
      case Obj(_) =>
        EmptyContainers(s);
        assert Text(v, ":") == "{" + "}" == "{}";
      case _ => SolidIsNeutral(s, Text(v, ":"));
    }
  }

  lemma QuotesAreVisible(text: string)
    ensures Visible(Quote(text))
  {
    hide Escape;
  }

  lemma IntIsNeutral(s: Scan, n: int)
    requires s.mode == Outside
    ensures Neutral(s, IntText(n)) && Visible(IntText(n)) && '\n' !in IntText(n)
  {
    hide Neutral, Digits;
    DigitsDenote(Magnitude(n));
    var t := IntText(n);
    forall i | 0 <= i < |t| ensures t[i] == '-' || IsDigit(t[i]) {
      if n < 0 && i > 0 { assert t[i] == Digits(-n)[i - 1]; }
    }
    SolidIsNeutral(s, t);
  }

  lemma EmptyContainers(s: Scan)
    requires s.mode == Outside
    ensures Neutral(s, "[]") && Neutral(s, "{}")
  {
    hide Neutral;
    SolidIsNeutral(Scan(Outside, s.open + 1), "");
    BracketPair(s, "[", "", "]");
    BracketPair(s, "{", "", "}");
    assert "[" + "" + "]" == "[]" && "{" + "" + "}" == "{}";
  }

  lemma {:induction false} JoinedIsNeutral(elems: seq<Value>, depth: nat)
    requires forall i | 0 <= i < |elems| :: IsLeaf(elems[i]) && Tidy(elems[i])
    ensures Neutral(Scan(Outside, depth), Joined(elems)) && '\n' !in Joined(elems)
    decreases |elems|
  {
    hide Neutral, Text;
    var s := Scan(Outside, depth);
    if elems == [] {
      SolidIsNeutral(s, "");
    } else {
      var n := |elems| - 1;
      var separator := if n == 0 then "" else ", ";
      JoinedIsNeutral(elems[..n], depth);
      LeafIsNeutral(elems[n], depth);
      SolidIsNeutral(s, separator);
      NeutralConcat(s, Joined(elems[..n]), separator);
      NeutralConcat(s, Joined(elems[..n]) + separator, Text(elems[n], ":"));
    }
  }

  lemma OneLineIsNeutral(elems: seq<Value>, depth: nat)
    requires forall i | 0 <= i < |elems| :: IsLeaf(elems[i]) && Tidy(elems[i])
    ensures Neutral(Scan(Outside, depth), OneLine(elems)) && Visible(OneLine(elems)) && '\n' !in OneLine(elems)
  {
    hide Neutral, Joined;
    var inner := Scan(Outside, depth + 1);
    JoinedIsNeutral(elems, depth + 1);
    SolidIsNeutral(inner, " ");
    NeutralConcat(inner, " ", Joined(elems));
    NeutralConcat(inner, " " + Joined(elems), " ");
    BracketPair(Scan(Outside, depth), "[", " " + Joined(elems) + " ", "]");
    assert "[" + (" " + Joined(elems) + " ") + "]" == OneLine(elems);
  }

  lemma MarginStartsLine(depth: nat, t: string, open: int)
    requires t != "" && t[0] != ' ' && open == depth + if Brackets(t[0]) < 0 then 1 else 0
    ensures StartsLine(Margin(depth) + t, open)
  {
    hide Margin, Brackets;
    assert StartsWithBlanks(Margin(depth) + t, 3 * depth);
  }

  lemma MarginPassed(s: Scan, depth: nat)
    requires s.mode == Outside
    ensures After(s, "\n" + Margin(depth)) == s
  {
    hide Margin;
    var m := Margin(depth);
    SolidIsNeutral(s, m);
    assert ("\n" + m)[1..] == m;
  }

  /** A line feed and a margin in front of something visible. */
  lemma LineIsAligned(s: Scan, depth: nat, t: string)
    requires s.mode == Outside && t != "" && t[0] != ' '
    requires s.open == depth + if Brackets(t[0]) < 0 then 1 else 0
    requires Aligned(s, t)
    ensures Aligned(s, "\n" + Margin(depth) + t) && After(s, "\n" + Margin(depth) + t) == After(s, t)
  {
    hide Margin, After, StartsLine, Brackets;
    var gap := "\n" + Margin(depth);
    var all := gap + t;
    MarginPassed(s, depth);
    AfterConcat(s, gap, t);
    forall i: nat | FeedAt(s, all, i) ensures StartsLine(all[i + 1..], After(s, all[..i]).open) {
      if i < |gap| {
        assert i == 0;
        assert all[1..] == Margin(depth) + t;
        assert all[..0] == "";
        NothingPassed(s);
        MarginStartsLine(depth, t, s.open);
      } else {
        var j := i - |gap|;
        assert all[..i] == gap + t[..j] && all[i + 1..] == t[j + 1..];
        AfterConcat(s, gap, t[..j]);
        assert FeedAt(s, t, j);
      }
    }
  }

  lemma NothingPassed(s: Scan)
    ensures After(s, "") == s
  {
  }

  /** A container on several lines, with its closing bracket on a line of its own. */
  lemma ContainerIsNeutral(open: string, lines: string, close: string, depth: nat)
    requires (open == "[" || open == "{") && (close == "]" || close == "}")
    requires Neutral(Scan(Outside, depth + 1), lines)
    ensures Neutral(Scan(Outside, depth), open + lines + ("\n" + Margin(depth)) + close)
  {
    hide Aligned, After, Margin;
    var s, inner, last := Scan(Outside, depth), Scan(Outside, depth + 1), "\n" + Margin(depth) + close;
    Bracket(s, open);
    NoFeedsAligned(s, open);
    Bracket(inner, close);
    NoFeedsAligned(inner, close);
    LineIsAligned(inner, depth, close);
    AlignedConcat(s, open, lines);
    AlignedConcat(s, open + lines, last);
    assert open + lines + ("\n" + Margin(depth)) + close == open + lines + last;
  }

  lemma LineIsNeutral(depth: nat, t: string)
    requires Neutral(Scan(Outside, depth), t) && Visible(t)
    ensures Neutral(Scan(Outside, depth), "\n" + Margin(depth) + t)
  {
    hide Aligned, After, Margin;
    LineIsAligned(Scan(Outside, depth), depth, t);
  }

  lemma CommaIsNeutral(depth: nat, first: bool)
    ensures Neutral(Scan(Outside, depth), Comma(first))
  {
    hide Neutral;
    SolidIsNeutral(Scan(Outside, depth), Comma(first));
  }

  lemma BreakIsLine(last: string, depth: nat)
    requires Visible(last)
    ensures Break(last, depth) == "\n" + Margin(depth)
  {
  }

  lemma {:induction false} LayoutIsNeutral(v: Value, depth: nat)
    requires Tidy(v)
    ensures Neutral(Scan(Outside, depth), Layout(v, depth)) && Visible(Layout(v, depth))
    decreases v, 1
  {
    hide Neutral, Text, Margin, ElementLines, MemberLines, Break, OneLine, FitsOnLine;
    if IsLeaf(v) {
      LeafLayout(v, depth);
      LeafIsNeutral(v, depth);
    } else {
      match v {
        case Arr(elems) =>
          if FitsOnLine(elems) {
            FittingElements(elems);
            OneLineIsNeutral(elems, depth);
          } else {
            LayoutIsNeutral(elems[|elems| - 1], depth + 1);
            BreakIsLine(Layout(elems[|elems| - 1], depth + 1), depth);
            ElementLinesAreNeutral(elems, depth + 1);
            ContainerIsNeutral("[", ElementLines(elems, depth + 1), "]", depth);
          }
        case Obj(members) =>
          LayoutIsNeutral(members[|members| - 1].value, depth + 1);
          BreakIsLine(Layout(members[|members| - 1].value, depth + 1), depth);
          MemberLinesAreNeutral(members, depth + 1);
          ContainerIsNeutral("{", MemberLines(members, depth + 1), "}", depth);
      }
    }
  }

  lemma FittingElements(elems: seq<Value>)
    requires FitsOnLine(elems)
    ensures forall i | 0 <= i < |elems| :: IsLeaf(elems[i])
  {
  }

  lemma {:induction false} ElementLinesAreNeutral(elems: seq<Value>, depth: nat)
    requires forall i | 0 <= i < |elems| :: Tidy(elems[i])
    ensures Neutral(Scan(Outside, depth), ElementLines(elems, depth))
    decreases elems, 0
  {
    hide Neutral, Tidy, Layout, Margin, Visible;
    var s := Scan(Outside, depth);
    if elems == [] {
      SolidIsNeutral(s, "");
    } else {
      var n := |elems| - 1;
      var front, line := ElementLines(elems[..n], depth), ElementLine(elems[n], depth);
      ElementLinesAreNeutral(elems[..n], depth);
      LayoutIsNeutral(elems[n], depth);
      LineIsNeutral(depth, Layout(elems[n], depth));
      CommaIsNeutral(depth, n == 0);
      NeutralConcat(s, front, Comma(n == 0));
      NeutralConcat(s, front + Comma(n == 0), line);
    }
  }

  lemma {:induction false} MemberLinesAreNeutral(members: seq<Member>, depth: nat)
    requires forall i | 0 <= i < |members| :: Tidy(members[i].value)
    ensures Neutral(Scan(Outside, depth), MemberLines(members, depth))
    decreases members, 0
  {
    hide Neutral, Tidy, MemberLine;
    var s := Scan(Outside, depth);
    if members == [] {
      SolidIsNeutral(s, "");
    } else {
      var n := |members| - 1;
      var front := MemberLines(members[..n], depth);
      MemberLinesAreNeutral(members[..n], depth);
      MemberLineIsNeutral(members[n], depth);
      CommaIsNeutral(depth, n == 0);
      NeutralConcat(s, front, Comma(n == 0));
      NeutralConcat(s, front + Comma(n == 0), MemberLine(members[n], depth));
    }
  }

  lemma {:induction false} MemberLineIsNeutral(m: Member, depth: nat)
    requires Tidy(m.value)
    ensures Neutral(Scan(Outside, depth), MemberLine(m, depth))
    decreases m, 2
  {
    hide Neutral, Tidy, Layout, Margin, Quote;
    var s, quoted, text := Scan(Outside, depth), Quote(CString(m.name)), Layout(m.value, depth);
    LayoutIsNeutral(m.value, depth);
    QuotesAreNeutral(s, CString(m.name));
    QuotesAreVisible(CString(m.name));
    SolidIsNeutral(s, " : ");
    NeutralConcat(s, quoted, " : ");
    NeutralConcat(s, quoted + " : ", text);
    var t := quoted + " : " + text;
    assert t[0] == quoted[0] && t[|t| - 1] == text[|text| - 1];
    LineIsNeutral(depth, t);
    assert "\n" + Margin(depth) + t == "\n" + Margin(depth) + quoted + " : " + text;
  }

  // ---------- Main results ----------

  /** Every line of a styled document begins with exactly three blanks per container open there, not
      counting one that the line closes with its first character; at its last line feed none is open. */
  lemma StyledIsIndented(v: Value, r: string, i: nat)
    requires Tidy(v) && r == Layout(v, 0) + "\n" && FeedAt(Scan(Outside, 0), r, i)
    ensures var open := After(Scan(Outside, 0), r[..i]).open;
            if i + 1 == |r| then open == 0 else StartsLine(r[i + 1..], open)
  {
    hide Layout, StartsLine, After, Visible;
    var s, t := Scan(Outside, 0), Layout(v, 0);
    LayoutIsNeutral(v, 0);
    if i == |t| {
      assert r[..i] == t;
    } else {
      assert r[..i] == t[..i] && r[i + 1..] == t[i + 1..] + "\n";
      assert FeedAt(s, t, i);
      LinesExtend(t[i + 1..], After(s, t[..i]).open, "\n");
    }
  }

  /** An array takes one line exactly when no element is a filled container, there are fewer than 25
      elements, and the line has less than 74 characters. */
  lemma OneLineExactly(elems: seq<Value>, depth: nat)
    requires elems != [] && Tidy(Arr(elems))
    ensures '\n' !in Layout(Arr(elems), depth) <==>
            && (forall i | 0 <= i < |elems| :: IsLeaf(elems[i])) && |elems| < 25
            && 4 + 2 * (|elems| - 1) + Lengths(elems) < 74
  {
    hide Neutral, Text, Margin, Joined, OneLine, Lengths, Break;
    LineLength(elems);
    if FitsOnLine(elems) {
      OneLineIsNeutral(elems, depth);
    } else {
      hide ElementLines;
      FeedInLines(elems, depth + 1);
      var lines := ElementLines(elems, depth + 1);
      assert '\n' in "[" + lines;
    }
  }

  lemma FeedInLines(elems: seq<Value>, depth: nat)
    requires elems != []
    ensures '\n' in ElementLines(elems, depth)
  {
    hide Layout, Margin;
    var line := ElementLine(elems[|elems| - 1], depth);
    assert line[0] == '\n';
    assert '\n' in line;
  }
}
