/** The reader reads every text of its language as the value of its tree. */
module JsonReading {
  import opened Wrappers
  import opened JsonValue
  import opened JsonStrings
  import opened JsonGrammar
  import opened JsonSyntax
  import opened JsonDialect
  import opened JsonTokens

  /** A value is read in `needed` levels, or the reader throws. */
  function Outcome(depth: nat, needed: nat, v: Value, end: nat): Result {
    if depth + needed <= 1000 then Ok(v, end) else Threw
  }

  // ---------- Gaps and punctuation ----------

  /** What may precede a value does not matter. */
  lemma LeadSkipped(cfg: Config, doc: string, pos: nat, lead: string, depth: nat)
    requires At(doc, pos, lead) && IsLead(cfg, lead)
    ensures JsonGrammar.ReadValue(cfg, doc, pos, depth) == JsonGrammar.ReadValue(cfg, doc, pos + |lead|, depth)
  {
    hide ReadToken, SkipComments, ValueFrom;
    if cfg.allowComments { FillerSkipped(doc, pos, lead); } else { GapSkipped(doc, pos, lead); }
  }

  function Punctuation(c: char): TokenType {
    match c
    case ',' => ArraySeparator
    case ':' => MemberSeparator
    case '{' => ObjectBegin
    case '}' => ObjectEnd
    case '[' => ArrayBegin
    case ']' => ArrayEnd
    case _ => ErrorToken
  }

  lemma PunctuationReads(doc: string, pos: nat, c: char)
    requires CharAt(doc, pos, c) && Punctuation(c) != ErrorToken
    ensures SkipSpaces(doc, pos) == pos
    ensures SkipComments(doc, pos) == ReadToken(doc, pos) == Token(Punctuation(c), pos, pos + 1)
  {
    TokenAt(doc, pos);
  }

  /** A punctuation character behind white space. */
  lemma GapThenPunctuation(doc: string, pos: nat, gap: string, c: char)
    requires At(doc, pos, gap + [c]) && IsGap(gap) && Punctuation(c) != ErrorToken
    ensures ReadToken(doc, pos) == Token(Punctuation(c), pos + |gap|, pos + |gap| + 1)
    ensures SkipSpaces(doc, pos) == pos + |gap| && CharAt(doc, pos + |gap|, c)
  {
    hide ReadToken, SkipComments;
    AtSplit(doc, pos, gap, [c]);
    AtIndex(doc, pos + |gap|, [c], 0);
    GapSkipped(doc, pos, gap);
    PunctuationReads(doc, pos + |gap|, c);
  }

  /** A punctuation character behind white space and comments. */
  lemma FillerThenPunctuation(doc: string, pos: nat, filler: string, c: char)
    requires At(doc, pos, filler + [c]) && IsFiller(filler) && Punctuation(c) != ErrorToken
    ensures SkipComments(doc, pos) == Token(Punctuation(c), pos + |filler|, pos + |filler| + 1)
    ensures ReadToken(doc, pos).kind == if IsGap(filler) then Punctuation(c) else Comment
  {
    hide ReadToken, SkipComments, IsFiller, IsGap;
    AtSplit(doc, pos, filler, [c]);
    AtIndex(doc, pos + |filler|, [c], 0);
    FillerSkipped(doc, pos, filler);
    PunctuationReads(doc, pos + |filler|, c);
  }

  /** What follows a value does not continue a number. */
  lemma FillerStops(doc: string, pos: nat, filler: string, rest: string)
    requires At(doc, pos, filler + rest) && IsFiller(filler)
    requires IsGap(filler) ==> rest != "" && !IsNumberChar(rest[0])
    ensures Stops(doc, pos)
  {
    hide IsFiller;
    var t := filler + rest;
    if filler == "" { assert IsGap(filler); assert t == rest; } else { FillerStarts(filler); }
    AtIndex(doc, pos, t, 0);
  }

  // ---------- Words ----------

  lemma WordStarts(cfg: Config, t: string)
    requires WordValue(cfg, t).Some?
    ensures t != "" && !IsSpace(t[0])
  {
    hide NumberValue, Unescape;
    NumeralExactly(t);
  }

  lemma ScalarTokens(cfg: Config, doc: string, t: Token)
    requires IsToken(doc, t) && ScalarResult(cfg, doc, t).Ok?
    ensures t.kind in {StringToken, NumberToken, TrueToken, FalseToken, NullToken}
  {
  }

  lemma WordReads(cfg: Config, doc: string, pos: nat, t: string, depth: nat)
    requires WordValue(cfg, t).Some? && At(doc, pos, t) && Complete(doc, pos + |t|, t)
    ensures JsonGrammar.ReadValue(cfg, doc, pos, depth) == Outcome(depth, 1, WordValue(cfg, t).value, pos + |t|)
  {
    hide TokenBody, ReadToken, ScalarResult, WordValue, Complete, At;
    var v, end := WordValue(cfg, t).value, pos + |t|;
    TextAt(doc, pos, t);
    WordStarts(cfg, t);
    AtIndex(doc, pos, t, 0);
    WordExactly(cfg, doc, pos, end, v);
    ScalarTokens(cfg, doc, ReadToken(doc, pos));
  }

  // ---------- Arrays ----------

  /** What readValue does behind an opening bracket. */
  lemma ArrayStep(cfg: Config, doc: string, pos: nat, depth: nat)
    requires CharAt(doc, pos, '[')
    ensures JsonGrammar.ReadValue(cfg, doc, pos, depth) ==
              if depth >= STACK_LIMIT then Threw
              else JsonGrammar.ReadArray(cfg, doc, SkipSpaces(doc, pos + 1), depth + 1)
  {
    hide TokenBody, ReadToken, SkipComments, JsonGrammar.ReadArray, ScalarResult;
    PunctuationReads(doc, pos, '[');
  }

  /** A closing bracket is not an element. */
  lemma BracketFails(cfg: Config, doc: string, pos: nat)
    requires pos <= |doc| && CharAt(doc, SkipSpaces(doc, pos), ']')
    ensures ReadItems(cfg, doc, pos, 0, []) == Failed
  {
    hide TokenBody, ReadToken, SkipComments;
    var next := SkipSpaces(doc, pos);
    SkippedIsGap(doc, pos);
    GapSkipped(doc, pos, doc[pos..next]);
    PunctuationReads(doc, next, ']');
    assert JsonGrammar.ReadValue(cfg, doc, pos, 0) == Failed;
  }

  /** Where something that is an element can be read, readArray sees no bracket behind the white space. */
  lemma NonEmptyArray(cfg: Config, doc: string, pos: nat, depth: nat)
    requires pos <= |doc| && ReadItems(cfg, doc, pos, 0, []) != Failed
    ensures JsonGrammar.ReadArray(cfg, doc, SkipSpaces(doc, pos), depth) == ReadItems(cfg, doc, pos, depth, [])
  {
    hide ReadToken, SkipComments, ReadItems;
    var next := SkipSpaces(doc, pos);
    if CharAt(doc, next, ']') { BracketFails(cfg, doc, pos); }
    SpacesBeforeItems(cfg, doc, pos, depth);
  }

  lemma SpacesBeforeItems(cfg: Config, doc: string, pos: nat, depth: nat)
    requires pos <= |doc|
    ensures ReadItems(cfg, doc, SkipSpaces(doc, pos), depth, []) == ReadItems(cfg, doc, pos, depth, [])
  {
    hide ReadToken, SkipComments, ValueFrom;
    var next := SkipSpaces(doc, pos);
    SkippedIsGap(doc, pos);
    GapSkipped(doc, pos, doc[pos..next]);
    assert JsonGrammar.ReadValue(cfg, doc, next, depth) == JsonGrammar.ReadValue(cfg, doc, pos, depth);
  }

  /** One element that is read, and the punctuation behind it. */
  lemma ItemStep(cfg: Config, doc: string, pos: nat, depth: nat, acc: seq<Value>, r: Result)
    requires pos <= |doc| && r == JsonGrammar.ReadValue(cfg, doc, pos, depth)
    requires r.Ok? ==> SkipComments(doc, r.end).kind == ArraySeparator || SkipComments(doc, r.end).kind == ArrayEnd
    ensures !r.Ok? ==> ReadItems(cfg, doc, pos, depth, acc) == r
    ensures r.Ok? ==>
              var t, longer := SkipComments(doc, r.end), acc + [r.value];
              ReadItems(cfg, doc, pos, depth, acc) ==
                if t.kind == ArrayEnd then Ok(Arr(longer), t.end) else ReadItems(cfg, doc, t.end, depth, longer)
  {
    hide ReadToken, SkipComments, JsonGrammar.ReadValue;
  }

  /** Where the parts of an element stand. */
  lemma ElementParts(doc: string, pos: nat, e: Element)
    requires At(doc, pos, ElementText(e))
    ensures var start := pos + |e.before|;
            var end := start + |Text(e.value)|;
            && At(doc, pos, e.before) && At(doc, start, Text(e.value))
            && At(doc, end, e.after + NextElementText(e.next))
            && pos + |ElementText(e)| == end + |e.after| + |NextElementText(e.next)|
  {
    hide At;
    var t, tail := Text(e.value), e.after + NextElementText(e.next);
    AtSplit(doc, pos, e.before, t + tail);
    AtSplit(doc, pos + |e.before|, t, tail);
  }

  /** Behind an element: the closing bracket, or a comma and the next element. */
  lemma AfterElement(doc: string, pos: nat, after: string, next: Option<Element>)
    requires At(doc, pos, after + NextElementText(next)) && IsFiller(after)
    ensures Stops(doc, pos)
    ensures SkipComments(doc, pos).end == pos + |after| + 1
    ensures match next
            case None => SkipComments(doc, pos).kind == ArrayEnd && |NextElementText(next)| == 1
            case Some(e) =>
              && SkipComments(doc, pos).kind == ArraySeparator
              && At(doc, pos + |after| + 1, ElementText(e)) && |NextElementText(next)| == 1 + |ElementText(e)|
  {
    hide At, IsFiller, SkipComments, ElementText, Stops;
    FillerStops(doc, pos, after, NextElementText(next));
    match next {
      case None => FillerThenPunctuation(doc, pos, after, ']');
      case Some(e) =>
        assert after + NextElementText(next) == (after + ",") + ElementText(e);
        AtSplit(doc, pos, after + ",", ElementText(e));
        FillerThenPunctuation(doc, pos, after, ',');
    }
  }

  lemma {:induction false} ElementsRead(cfg: Config, doc: string, pos: nat, e: Element, depth: nat, acc: seq<Value>)
    requires ElementsDenoted(cfg, e).Some? && At(doc, pos, ElementText(e))
    ensures ReadItems(cfg, doc, pos, depth, acc)
         == Outcome(depth, ElementsNesting(e), Arr(acc + ElementsDenoted(cfg, e).value), pos + |ElementText(e)|)
    decreases e
  {
    hide At, IsFiller, IsLead, Stops, SkipComments, ElementText, NextElementText, Text, Denoted, ElementsDenoted,
      Nesting, ElementsNesting, JsonGrammar.ReadValue, ReadItems, Complete;
    var start := pos + |e.before|;
    var end := start + |Text(e.value)|;
    ElementsUnfold(cfg, e);
    ElementParts(doc, pos, e);
    AfterElement(doc, end, e.after, e.next);
    LeadSkipped(cfg, doc, pos, e.before, depth);
    PhraseReadsBefore(cfg, doc, start, e.value, depth);
    var v := Denoted(cfg, e.value).value;
    TextAt(doc, pos, ElementText(e));
    ItemStep(cfg, doc, pos, depth, acc, Outcome(depth, Nesting(e.value), v, end));
    match e.next {
      case None =>
      case Some(next) =>
        if depth + Nesting(e.value) <= STACK_LIMIT {
          ElementsRead(cfg, doc, end + |e.after| + 1, next, depth, acc + [v]);
          var rest := ElementsDenoted(cfg, next).value;
          assert acc + [v] + rest == acc + ([v] + rest);
        }
    }
  }

  // ---------- Objects ----------

  /** What readValue does behind an opening brace. */
  lemma ObjectStep(cfg: Config, doc: string, pos: nat, depth: nat)
    requires CharAt(doc, pos, '{')
    ensures JsonGrammar.ReadValue(cfg, doc, pos, depth) ==
              if depth >= STACK_LIMIT then Threw else ReadMembers(cfg, doc, pos + 1, depth + 1, [], true)
  {
    hide TokenBody, ReadToken, SkipComments, ReadMembers, ScalarResult;
    PunctuationReads(doc, pos, '{');
  }

  /** The closing brace where a member may stand. */
  lemma CloseReads(cfg: Config, doc: string, pos: nat, m: Entry, depth: nat, acc: seq<Member>, mayClose: bool)
    requires m.Close? && EntriesDenoted(cfg, acc, m, mayClose).Some? && At(doc, pos, EntryText(m))
    ensures pos + |EntryText(m)| <= |doc|
    ensures EntriesDenoted(cfg, acc, m, mayClose).value == acc && EntriesNesting(m) == 0
    ensures ReadMembers(cfg, doc, pos, depth, acc, mayClose) == Ok(Obj(acc), pos + |EntryText(m)|)
  {
    hide ReadToken, SkipComments, MemberFrom, At, IsFiller;
    TextAt(doc, pos, EntryText(m));
    FillerThenPunctuation(doc, pos, m.gap, '}');
  }

  /** One member that is read, and what is behind it. */
  lemma MemberStep(cfg: Config, doc: string, pos: nat, depth: nat, acc: seq<Member>, mayClose: bool, name: string,
                   r: Result)
    requires pos <= |doc| && SkipComments(doc, pos).kind == StringToken
    requires Unescape(LiteralText(doc, SkipComments(doc, pos))) == Some(name)
    requires ReadToken(doc, SkipComments(doc, pos).end).kind == MemberSeparator
    requires r == JsonGrammar.ReadValue(cfg, doc, ReadToken(doc, SkipComments(doc, pos).end).end, depth)
    requires r.Ok? ==> ReadToken(doc, r.end).kind in {ObjectEnd, ArraySeparator, Comment}
    ensures ReadMembers(cfg, doc, pos, depth, acc, mayClose) ==
              match r
              case Ok(v, end) =>
                var t := SkipComments(doc, end);
                if t.kind == ObjectEnd then Ok(Obj(SetMember(acc, name, v)), t.end)
                else ReadMembers(cfg, doc, t.end, depth, SetMember(acc, name, v), name == "")
              case _ => r
  {
    hide TokenBody, ReadToken, SkipComments, JsonGrammar.ReadValue, Unescape, SetMember;
    var t := SkipComments(doc, pos);
    assert ReadMembers(cfg, doc, pos, depth, acc, mayClose) == MemberFrom(cfg, doc, t, depth, acc);
    if r.Ok? {
      assert MemberFrom(cfg, doc, t, depth, acc)
          == AfterMember(cfg, doc, r.end, depth, SetMember(acc, name, r.value), name == "");
    }
  }

  /** Where the parts of a member stand. */
  ghost predicate EntryAt(doc: string, pos: nat, m: Entry)
    requires m.Entry?
  {
    var name := pos + |m.before|;
    var colon := name + |m.name| + 2;
    var value := colon + |m.beforeColon| + 1;
    var end := value + |m.afterColon| + |Text(m.value)|;
    && At(doc, pos, m.before) && At(doc, name, "\"" + m.name + "\"") && At(doc, colon, m.beforeColon + ":")
    && At(doc, value, m.afterColon) && At(doc, value + |m.afterColon|, Text(m.value))
    && At(doc, end, m.after + NextText(m.next))
    && pos + |EntryText(m)| == end + |m.after| + |NextText(m.next)|
  }

  lemma EntryParts(doc: string, pos: nat, m: Entry)
    requires m.Entry? && At(doc, pos, EntryText(m))
    ensures EntryAt(doc, pos, m)
  {
    hide At, Text, NextText;
    var quoted, colon := "\"" + m.name + "\"", m.beforeColon + ":";
    var value, tail := Text(m.value), m.after + NextText(m.next);
    var p1 := pos + |m.before|;
    var p2 := p1 + |quoted|;
    var p3 := p2 + |colon|;
    AtSplit(doc, pos, m.before, quoted + (colon + (m.afterColon + (value + tail))));
    AtSplit(doc, p1, quoted, colon + (m.afterColon + (value + tail)));
    AtSplit(doc, p2, colon, m.afterColon + (value + tail));
    AtSplit(doc, p3, m.afterColon, value + tail);
    AtSplit(doc, p3 + |m.afterColon|, value, tail);
  }

  /** The name of a member and its colon. */
  lemma NameThenColon(cfg: Config, doc: string, pos: nat, m: Entry, depth: nat)
    requires m.Entry? && EntryAt(doc, pos, m)
    requires IsFiller(m.before) && IsGap(m.beforeColon) && IsLead(cfg, m.afterColon) && IsRaw(m.name)
    ensures var name := pos + |m.before|;
            var value := name + |m.name| + 2 + |m.beforeColon| + 1;
            var t := Token(StringToken, name, name + |m.name| + 2);
            && SkipComments(doc, pos) == t && IsToken(doc, t) && LiteralText(doc, t) == m.name
            && ReadToken(doc, t.end).kind == MemberSeparator && ReadToken(doc, t.end).end == value
            && JsonGrammar.ReadValue(cfg, doc, value, depth)
               == JsonGrammar.ReadValue(cfg, doc, value + |m.afterColon|, depth)
  {
    hide TokenBody, ReadToken, SkipComments, JsonGrammar.ReadValue, At, IsGap, IsRaw, IsFiller, IsLead, Text, NextText;
    var name := pos + |m.before|;
    var colon := name + |m.name| + 2;
    FillerSkipped(doc, pos, m.before);
    LiteralReads(doc, name, m.name);
    GapThenPunctuation(doc, colon, m.beforeColon, ':');
    LeadSkipped(cfg, doc, colon + |m.beforeColon| + 1, m.afterColon, depth);
  }

  lemma LiteralReads(doc: string, pos: nat, raw: string)
    requires At(doc, pos, "\"" + raw + "\"") && IsRaw(raw)
    ensures SkipComments(doc, pos) == Token(StringToken, pos, pos + |raw| + 2)
    ensures LiteralText(doc, Token(StringToken, pos, pos + |raw| + 2)) == raw
  {
    hide StringEnd;
    QuotedAt(doc, pos, raw);
    RawEnds(doc, pos + 1, raw);
    TokenAt(doc, pos);
  }

  /** A member, or the closing brace, begins with white space, a comment, a quote or a brace. */
  lemma EntryStarts(cfg: Config, acc: seq<Member>, m: Entry, mayClose: bool)
    requires EntriesDenoted(cfg, acc, m, mayClose).Some?
    ensures EntryText(m) != "" && OpensEntry(EntryText(m)[0])
  {
    hide IsFiller, Text, NextText, IsSeparator;
    var lead := if m.Close? then m.gap else m.before;
    if m.Entry? { EntriesUnfold(cfg, acc, m, mayClose); }
    if lead != "" {
      FillerStarts(lead);
      assert EntryText(m)[0] == lead[0];
    } else if m.Entry? {
      var rest := (m.beforeColon + ":") + (m.afterColon + (Text(m.value) + (m.after + NextText(m.next))));
      assert EntryText(m) == ("\"" + m.name + "\"") + rest;
    }
  }

  /** Behind a member: the closing brace, or a separator and what follows it. */
  lemma AfterEntry(cfg: Config, doc: string, pos: nat, after: string, next: Option<Separated>, acc: seq<Member>,
                   mayClose: bool)
    requires At(doc, pos, after + NextText(next)) && IsFiller(after)
    requires next.Some? ==> var s := next.value;
               && (s.separator == "," || (!IsGap(after) && IsSeparator(s.separator)))
               && EntriesDenoted(cfg, acc, s.entry, mayClose).Some?
    ensures Stops(doc, pos)
    ensures ReadToken(doc, pos).kind in {ObjectEnd, ArraySeparator, Comment}
    ensures match next
            case None =>
              SkipComments(doc, pos) == Token(ObjectEnd, pos + |after|, pos + |after| + 1) && |NextText(next)| == 1
            case Some(s) =>
              var start := pos + |after + s.separator|;
              && SkipComments(doc, pos).kind != ObjectEnd && SkipComments(doc, pos).end == start
              && At(doc, start, EntryText(s.entry)) && |NextText(next)| == |s.separator| + |EntryText(s.entry)|
  {
    hide At, IsFiller, SkipComments, ReadToken, EntryText, EntriesDenoted, IsSeparator, IsGap, Stops, OpensEntry;
    match next {
      case None =>
        FillerStops(doc, pos, after, "}");
        FillerThenPunctuation(doc, pos, after, '}');
      case Some(s) =>
        var rest := EntryText(s.entry);
        assert after + NextText(next) == (after + s.separator) + rest;
        AtSplit(doc, pos, after + s.separator, rest);
        EntryStarts(cfg, acc, s.entry, mayClose);
        AtIndex(doc, pos + |after + s.separator|, rest, 0);
        FillerStops(doc, pos, after, s.separator + rest);
        if s.separator == "," {
          FillerThenPunctuation(doc, pos, after, ',');
        } else {
          AtSplit(doc, pos, after, s.separator);
          FillerSkipped(doc, pos, after);
          TextAt(doc, pos + |after + s.separator|, rest);
          SeparatorReads(doc, pos + |after|, s.separator);
        }
    }
  }

  lemma {:induction false} EntriesRead(cfg: Config, doc: string, pos: nat, m: Entry, depth: nat, acc: seq<Member>,
                                       mayClose: bool)
    requires EntriesDenoted(cfg, acc, m, mayClose).Some? && At(doc, pos, EntryText(m)) && depth <= STACK_LIMIT
    ensures ReadMembers(cfg, doc, pos, depth, acc, mayClose)
         == Outcome(depth, EntriesNesting(m), Obj(EntriesDenoted(cfg, acc, m, mayClose).value), pos + |EntryText(m)|)
    decreases m
  {
    hide At, IsFiller, IsLead, IsGap, IsRaw, Stops, ReadToken, SkipComments, Text, NextText, Denoted, SetMember,
      Nesting, JsonGrammar.ReadValue, ReadMembers, Complete, Unescape, LiteralText, IsToken, IsSeparator;
    hide EntryText, EntriesDenoted, EntriesNesting;
    if m.Close? {
      CloseReads(cfg, doc, pos, m, depth, acc, mayClose);
    } else {
      TextAt(doc, pos, EntryText(m));
      EntriesUnfold(cfg, acc, m, mayClose);
      EntryParts(doc, pos, m);
      NameThenColon(cfg, doc, pos, m, depth);
      var start := pos + |m.before| + |m.name| + 2 + |m.beforeColon| + 1 + |m.afterColon|;
      var end := start + |Text(m.value)|;
      var name, v := Unescape(m.name).value, Denoted(cfg, m.value).value;
      var longer := SetMember(acc, name, v);
      AfterEntry(cfg, doc, end, m.after, m.next, longer, name == "");
      PhraseReadsBefore(cfg, doc, start, m.value, depth);
      MemberStep(cfg, doc, pos, depth, acc, mayClose, name, Outcome(depth, Nesting(m.value), v, end));
      if m.next.Some? && depth + Nesting(m.value) <= STACK_LIMIT {
        var s := m.next.value;
        EntriesRead(cfg, doc, end + |m.after + s.separator|, s.entry, depth, longer, name == "");
      }
    }
  }

  // ---------- Values ----------

  /** A number must not go on behind its text. */
  ghost predicate EndsAt(doc: string, end: nat, p: Phrase) {
    p.Scalar? ==> Complete(doc, end, p.text)
  }

  lemma {:induction false} PhraseReadsBefore(cfg: Config, doc: string, pos: nat, p: Phrase, depth: nat)
    requires Denoted(cfg, p).Some? && At(doc, pos, Text(p)) && Stops(doc, pos + |Text(p)|)
    ensures JsonGrammar.ReadValue(cfg, doc, pos, depth)
         == Outcome(depth, Nesting(p), Denoted(cfg, p).value, pos + |Text(p)|)
    decreases p, 2
  {
    hide JsonGrammar.ReadValue, Denoted, Text, Nesting, At, Stops, Complete;
    if p.Scalar? { StopsComplete(doc, pos + |Text(p)|, p.text); }
    PhraseReads(cfg, doc, pos, p, depth);
  }

  /** Wherever the text of a tree stands, the reader reads its value and stops right behind it, unless
      it is nested too deep. */
  lemma {:induction false} PhraseReads(cfg: Config, doc: string, pos: nat, p: Phrase, depth: nat)
    requires Denoted(cfg, p).Some? && At(doc, pos, Text(p)) && EndsAt(doc, pos + |Text(p)|, p)
    ensures JsonGrammar.ReadValue(cfg, doc, pos, depth)
         == Outcome(depth, Nesting(p), Denoted(cfg, p).value, pos + |Text(p)|)
    decreases p, 1
  {
    hide JsonGrammar.ReadValue, ReadItems, ReadMembers, At, Complete, WordValue, IsGap, ElementText, EntryText,
      ElementsDenoted, EntriesDenoted, ElementsNesting, EntriesNesting, SkipSpaces;
    if !p.Scalar? {
      var open := if p.Members? then "{" else "[";
      AtSplit(doc, pos, open, Text(p)[1..]);
      AtIndex(doc, pos, open, 0);
    }
    match p {
      case Scalar(t) => WordReads(cfg, doc, pos, t, depth);
      case EmptyArray(gap) =>
        ArrayStep(cfg, doc, pos, depth);
        GapThenPunctuation(doc, pos + 1, gap, ']');
      case Elements(e) =>
        ArrayStep(cfg, doc, pos, depth);
        ElementsRead(cfg, doc, pos + 1, e, 0, []);
        NonEmptyArray(cfg, doc, pos + 1, depth + 1);
        ElementsRead(cfg, doc, pos + 1, e, depth + 1, []);
        assert [] + ElementsDenoted(cfg, e).value == ElementsDenoted(cfg, e).value;
      case Members(m) =>
        ObjectStep(cfg, doc, pos, depth);
        if depth < STACK_LIMIT { EntriesRead(cfg, doc, pos + 1, m, depth + 1, [], true); }
    }
  }
}
