/** The reader accepts nothing but its language: whatever it reads is the text of a tree. */
module JsonExactness {
  import opened Wrappers
  import opened JsonValue
  import opened JsonStrings
  import opened JsonGrammar
  import opened JsonSyntax
  import opened JsonDialect
  import opened JsonTokens
  import opened JsonReading
  import opened JsonObjects

  // ---------- Tokens that are read ----------

  /** A token is what is read at its first character, which is not white space. */
  lemma {:induction false} TokenStands(doc: string, pos: nat)
    requires pos <= |doc| && SkipComments(doc, pos).start < |doc|
    ensures var t := SkipComments(doc, pos);
            !IsSpace(doc[t.start]) && t == ReadToken(doc, t.start) && t.kind != Comment
    decreases |doc| - pos
  {
    hide ReadToken;
    var u := ReadToken(doc, pos);
    if u.kind == Comment { TokenStands(doc, u.end); } else { TokenReadAgain(doc, pos); }
  }

  lemma TokenReadAgain(doc: string, pos: nat)
    requires pos <= |doc| && ReadToken(doc, pos).start < |doc|
    ensures var t := ReadToken(doc, pos);
            t.start == SkipSpaces(doc, pos) && !IsSpace(doc[t.start]) && t == ReadToken(doc, t.start)
  {
    hide TokenBody;
  }

  /** The text of a punctuation token. */
  lemma PunctuationStands(doc: string, pos: nat, c: char)
    requires pos < |doc| && !IsSpace(doc[pos]) && Punctuation(c) != ErrorToken
    ensures var t := ReadToken(doc, pos); t.kind == Punctuation(c) ==> t.end == pos + 1 && doc[pos..t.end] == [c]
  {
    hide StringEnd, NumberEnd, CommentEnd, KeywordEnd;
    TokenAt(doc, pos);
    assert doc[pos..pos + 1] == [doc[pos]];
  }

  lemma StringStands(doc: string, pos: nat)
    requires pos < |doc| && !IsSpace(doc[pos]) && ReadToken(doc, pos).kind == StringToken
    ensures var t := ReadToken(doc, pos);
            IsRaw(LiteralText(doc, t)) && doc[pos..t.end] == "\"" + LiteralText(doc, t) + "\""
  {
    hide NumberEnd, CommentEnd, KeywordEnd, IsRaw, StringEnd;
    TokenAt(doc, pos);
    RawRead(doc, pos + 1);
  }

  lemma Joined(doc: string, a: nat, b: nat, c: nat)
    requires a <= b <= c <= |doc|
    ensures doc[a..c] == doc[a..b] + doc[b..c]
  {
  }

  /** What stands in front of a value may precede it. */
  lemma LeadRead(cfg: Config, doc: string, pos: nat)
    requires pos <= |doc| && FirstToken(cfg, doc, pos).start < |doc|
    ensures var t := FirstToken(cfg, doc, pos);
            IsLead(cfg, doc[pos..t.start]) && !IsSpace(doc[t.start]) && t == ReadToken(doc, t.start)
  {
    hide ReadToken, SkipComments, IsFiller;
    if cfg.allowComments {
      SkippedIsFiller(doc, pos);
      TokenStands(doc, pos);
    } else {
      SkippedIsGap(doc, pos);
      TokenReadAgain(doc, pos);
    }
  }

  // ---------- Values ----------

  lemma ValueStarts(cfg: Config, doc: string, t: Token, depth: nat)
    requires IsToken(doc, t) && ValueFrom(cfg, doc, t, depth).Ok?
    ensures t.kind != EndOfStream && t.start < t.end
  {
    hide ReadMembers, JsonGrammar.ReadArray;
  }

  lemma {:induction false} ValueIsPhrase(cfg: Config, doc: string, pos: nat, depth: nat)
    returns (lead: string, p: Phrase)
    requires pos <= |doc| && JsonGrammar.ReadValue(cfg, doc, pos, depth).Ok?
    ensures var r := JsonGrammar.ReadValue(cfg, doc, pos, depth);
            && IsLead(cfg, lead) && doc[pos..r.end] == lead + Text(p)
            && Denoted(cfg, p) == Some(r.value) && EndsAt(doc, r.end, p) && depth + Nesting(p) <= STACK_LIMIT
    decreases |doc| - pos, 1
  {
    hide FirstToken, ReadToken, ReadMembers, JsonGrammar.ReadArray, IsLead, ScalarResult, Complete, WordValue,
      ElementText, EntryText, SkipSpaces, ElementsDenoted, EntriesDenoted;
    var t := FirstToken(cfg, doc, pos);
    var r := JsonGrammar.ReadValue(cfg, doc, pos, depth);
    assert r == ValueFrom(cfg, doc, t, depth + 1);
    ValueStarts(cfg, doc, t, depth + 1);
    LeadRead(cfg, doc, pos);
    lead := doc[pos..t.start];
    Joined(doc, pos, t.start, r.end);
    Joined(doc, t.start, t.end, r.end);
    if t.kind == ObjectBegin {
      PunctuationStands(doc, t.start, '{');
      var m := MembersAreEntries(cfg, doc, t.end, depth + 1, [], true);
      p := Members(m);
    } else if t.kind == ArrayBegin {
      PunctuationStands(doc, t.start, '[');
      p := ArrayIsPhrase(cfg, doc, t.end, depth + 1);
    } else {
      p := Scalar(doc[t.start..t.end]);
      WordExactly(cfg, doc, t.start, t.end, r.value);
    }
  }

  /** An array behind its opening bracket. */
  lemma {:induction false} ArrayIsPhrase(cfg: Config, doc: string, pos: nat, depth: nat) returns (p: Phrase)
    requires pos <= |doc| && JsonGrammar.ReadArray(cfg, doc, SkipSpaces(doc, pos), depth).Ok? && depth <= STACK_LIMIT
    ensures var r := JsonGrammar.ReadArray(cfg, doc, SkipSpaces(doc, pos), depth);
            && "[" + doc[pos..r.end] == Text(p) && Denoted(cfg, p) == Some(r.value) && !p.Scalar?
            && depth + Nesting(p) <= STACK_LIMIT + 1
    decreases |doc| - pos, 3
  {
    hide ReadItems, ElementText, ElementsDenoted, ElementsNesting, IsGap;
    var next := SkipSpaces(doc, pos);
    if CharAt(doc, next, ']') {
      SkippedIsGap(doc, pos);
      p := EmptyArray(doc[pos..next]);
      Joined(doc, pos, next, next + 1);
    } else {
      SpacesBeforeItems(cfg, doc, pos, depth);
      var e := ItemsAreElements(cfg, doc, pos, depth, []);
      p := Elements(e);
      assert [] + ElementsDenoted(cfg, e).value == ElementsDenoted(cfg, e).value;
    }
  }

  // ---------- Arrays ----------

  /** What stands behind an element that is not the last thing read. */
  lemma FillerRead(doc: string, pos: nat)
    requires pos <= |doc| && SkipComments(doc, pos).kind != EndOfStream
    ensures var t := SkipComments(doc, pos);
            && IsFiller(doc[pos..t.start]) && !IsSpace(doc[t.start]) && t == ReadToken(doc, t.start)
            && (if IsGap(doc[pos..t.start]) then ReadToken(doc, pos) == t else ReadToken(doc, pos).kind == Comment)
  {
    hide ReadToken, SkipComments, IsFiller;
    SkippedIsFiller(doc, pos);
    TokenStands(doc, pos);
  }

  /** What readArray does with an element. */
  lemma ItemsOk(cfg: Config, doc: string, pos: nat, depth: nat, acc: seq<Value>)
    requires pos <= |doc| && ReadItems(cfg, doc, pos, depth, acc).Ok?
    ensures var r := JsonGrammar.ReadValue(cfg, doc, pos, depth);
            && r.Ok?
            && var t := SkipComments(doc, r.end);
               && (t.kind == ArraySeparator || t.kind == ArrayEnd)
               && ReadItems(cfg, doc, pos, depth, acc) ==
                  if t.kind == ArrayEnd then Ok(Arr(acc + [r.value]), t.end)
                  else ReadItems(cfg, doc, t.end, depth, acc + [r.value])
  {
    hide ReadToken, SkipComments, JsonGrammar.ReadValue;
  }

  /** The parts of an element stand one behind the other. */
  lemma ElementJoined(doc: string, pos: nat, e: Element, after: nat, behind: nat, end: nat)
    requires pos <= after <= behind <= end <= |doc|
    requires doc[pos..after] == e.before + Text(e.value) && doc[after..behind] == e.after
    requires doc[behind..end] == NextElementText(e.next)
    ensures doc[pos..end] == ElementText(e)
  {
    hide Text, NextElementText;
    var text, tail := Text(e.value), e.after + NextElementText(e.next);
    Joined(doc, after, behind, end);
    Joined(doc, pos, after, end);
    assert e.before + text + tail == e.before + (text + tail);
  }

  lemma {:induction false} ItemsAreElements(cfg: Config, doc: string, pos: nat, depth: nat, acc: seq<Value>)
    returns (e: Element)
    requires pos <= |doc| && ReadItems(cfg, doc, pos, depth, acc).Ok?
    ensures var r := ReadItems(cfg, doc, pos, depth, acc);
            && doc[pos..r.end] == ElementText(e) && ElementsDenoted(cfg, e).Some?
            && r.value == Arr(acc + ElementsDenoted(cfg, e).value) && depth + ElementsNesting(e) <= STACK_LIMIT
    decreases |doc| - pos, 2
  {
    hide ReadToken, SkipComments, JsonGrammar.ReadValue, ReadItems, IsLead, IsFiller, Text, Denoted, Nesting, Complete,
      IsGap, ElementText, ElementsDenoted, ElementsNesting;
    var r := JsonGrammar.ReadValue(cfg, doc, pos, depth);
    ItemsOk(cfg, doc, pos, depth, acc);
    var lead, p := ValueIsPhrase(cfg, doc, pos, depth);
    var t := SkipComments(doc, r.end);
    FillerRead(doc, r.end);
    e := Element(lead, p, doc[r.end..t.start], None);
    if t.kind == ArrayEnd {
      PunctuationStands(doc, t.start, ']');
    } else {
      PunctuationStands(doc, t.start, ',');
      var next := ItemsAreElements(cfg, doc, t.end, depth, acc + [r.value]);
      e := e.(next := Some(next));
      Joined(doc, t.start, t.end, ReadItems(cfg, doc, pos, depth, acc).end);
      var rest := ElementsDenoted(cfg, next).value;
      assert acc + [r.value] + rest == acc + ([r.value] + rest);
    }
    ElementDenotes(cfg, e, r.value);
    ElementJoined(doc, pos, e, r.end, t.start, ReadItems(cfg, doc, pos, depth, acc).end);
  }

  // ---------- Objects ----------

  /** What readObject does with a member. */
  lemma MembersOk(cfg: Config, doc: string, pos: nat, depth: nat, acc: seq<Member>, mayClose: bool)
    requires pos <= |doc| && ReadMembers(cfg, doc, pos, depth, acc, mayClose).Ok?
    requires SkipComments(doc, pos).kind != ObjectEnd
    ensures var t := SkipComments(doc, pos);
            && t.kind == StringToken && Unescape(LiteralText(doc, t)).Some?
            && var colon := ReadToken(doc, t.end);
               && colon.kind == MemberSeparator
               && var r := JsonGrammar.ReadValue(cfg, doc, colon.end, depth);
                  && r.Ok?
                  && ReadMembers(cfg, doc, pos, depth, acc, mayClose) ==
                     AfterMember(cfg, doc, r.end, depth, SetMember(acc, Unescape(LiteralText(doc, t)).value, r.value),
                                 Unescape(LiteralText(doc, t)).value == "")
  {
    hide ReadToken, SkipComments, JsonGrammar.ReadValue, Unescape, SetMember, AfterMember;
    var t := SkipComments(doc, pos);
    assert ReadMembers(cfg, doc, pos, depth, acc, mayClose) == MemberFrom(cfg, doc, t, depth, acc);
  }

  lemma ClosedMembers(cfg: Config, doc: string, pos: nat, depth: nat, acc: seq<Member>, mayClose: bool)
    requires pos <= |doc| && ReadMembers(cfg, doc, pos, depth, acc, mayClose).Ok?
    ensures var t, r := SkipComments(doc, pos), ReadMembers(cfg, doc, pos, depth, acc, mayClose);
            t.kind != EndOfStream && (t.kind == ObjectEnd ==> mayClose && r == Ok(Obj(acc), t.end))
  {
    hide ReadToken, SkipComments, MemberFrom;
  }

  lemma AfterOk(cfg: Config, doc: string, pos: nat, depth: nat, members: seq<Member>, mayClose: bool)
    requires pos <= |doc| && AfterMember(cfg, doc, pos, depth, members, mayClose).Ok?
    ensures var t, r := SkipComments(doc, pos), AfterMember(cfg, doc, pos, depth, members, mayClose);
            && ReadToken(doc, pos).kind in {ObjectEnd, ArraySeparator, Comment}
            && r == (if t.kind == ObjectEnd then Ok(Obj(members), t.end)
                     else ReadMembers(cfg, doc, t.end, depth, members, mayClose))
            && t.start < t.end && (t.kind != ObjectEnd ==> t.end < |doc|)
  {
    hide ReadToken, SkipComments, ReadMembers;
    var t := SkipComments(doc, pos);
    if t.kind != ObjectEnd {
      ClosedMembers(cfg, doc, t.end, depth, members, mayClose);
      TokenStands(doc, pos);
      TokenAt(doc, t.start);
    }
  }

  /** What stands in front of a colon. */
  lemma ColonRead(doc: string, pos: nat)
    requires pos <= |doc| && ReadToken(doc, pos).kind == MemberSeparator
    ensures var t := ReadToken(doc, pos);
            IsGap(doc[pos..t.start]) && doc[pos..t.end] == doc[pos..t.start] + ":"
  {
    hide ReadToken;
    var t := ReadToken(doc, pos);
    SkippedIsGap(doc, pos);
    TokenReadAgain(doc, pos);
    PunctuationStands(doc, t.start, ':');
    Joined(doc, pos, t.start, t.end);
  }

  /** The token behind a member is a comma, or a separator behind a comment. */
  lemma SeparatorStands(doc: string, pos: nat)
    requires pos <= |doc| && ReadToken(doc, pos).kind in {ObjectEnd, ArraySeparator, Comment}
    requires SkipComments(doc, pos).kind != ObjectEnd && SkipComments(doc, pos).end < |doc|
    ensures var t := SkipComments(doc, pos);
            var after, separator := doc[pos..t.start], doc[t.start..t.end];
            IsFiller(after) && (separator == "," || (!IsGap(after) && IsSeparator(separator)))
  {
    hide ReadToken, SkipComments, IsFiller, IsSeparator, IsGap;
    var t := SkipComments(doc, pos);
    SkippedIsFiller(doc, pos);
    TokenStands(doc, pos);
    SeparatorRead(doc, t.start);
    PunctuationStands(doc, t.start, ',');
  }

  /** What is read behind a member. */
  lemma {:induction false} AfterIsText(cfg: Config, doc: string, pos: nat, depth: nat, members: seq<Member>,
                                       mayClose: bool)
    returns (after: string, next: Option<Separated>)
    requires pos <= |doc| && AfterMember(cfg, doc, pos, depth, members, mayClose).Ok? && depth <= STACK_LIMIT
    ensures var r := AfterMember(cfg, doc, pos, depth, members, mayClose);
            && doc[pos..r.end] == after + NextText(next) && IsFiller(after)
            && match next
               case None => r.value == Obj(members)
               case Some(s) =>
                 && (s.separator == "," || (!IsGap(after) && IsSeparator(s.separator)))
                 && EntriesDenoted(cfg, members, s.entry, mayClose).Some?
                 && r.value == Obj(EntriesDenoted(cfg, members, s.entry, mayClose).value)
                 && depth + EntriesNesting(s.entry) <= STACK_LIMIT
    decreases |doc| - pos, 3
  {
    hide ReadToken, SkipComments, AfterMember, ReadMembers, IsFiller, IsGap, IsSeparator, EntryText, EntriesDenoted,
      EntriesNesting;
    var t, r := SkipComments(doc, pos), AfterMember(cfg, doc, pos, depth, members, mayClose);
    AfterOk(cfg, doc, pos, depth, members, mayClose);
    after := doc[pos..t.start];
    Joined(doc, pos, t.start, r.end);
    if t.kind == ObjectEnd {
      FillerRead(doc, pos);
      PunctuationStands(doc, t.start, '}');
      next := None;
    } else {
      SeparatorStands(doc, pos);
      var m := MembersAreEntries(cfg, doc, t.end, depth, members, mayClose);
      next := Some(Separated(doc[t.start..t.end], m));
      Joined(doc, t.start, t.end, r.end);
    }
  }

  /** The parts of a member stand one behind the other. */
  lemma EntryJoined(doc: string, pos: nat, m: Entry, name: nat, behindName: nat, value: nat, after: nat, end: nat)
    requires m.Entry? && pos <= name <= behindName <= value <= after <= end <= |doc|
    requires doc[pos..name] == m.before && doc[name..behindName] == "\"" + m.name + "\""
    requires doc[behindName..value] == m.beforeColon + ":" && doc[value..after] == m.afterColon + Text(m.value)
    requires doc[after..end] == m.after + NextText(m.next)
    ensures doc[pos..end] == EntryText(m)
  {
    hide Text, NextText;
    var text, tail := Text(m.value), m.after + NextText(m.next);
    Joined(doc, value, after, end);
    assert m.afterColon + text + tail == m.afterColon + (text + tail);
    Joined(doc, behindName, value, end);
    Joined(doc, name, behindName, end);
    Joined(doc, pos, name, end);
  }

  lemma {:induction false} MembersAreEntries(cfg: Config, doc: string, pos: nat, depth: nat, acc: seq<Member>,
                                             mayClose: bool)
    returns (m: Entry)
    requires pos <= |doc| && ReadMembers(cfg, doc, pos, depth, acc, mayClose).Ok? && depth <= STACK_LIMIT
    ensures var r := ReadMembers(cfg, doc, pos, depth, acc, mayClose);
            && doc[pos..r.end] == EntryText(m) && EntriesDenoted(cfg, acc, m, mayClose).Some?
            && r.value == Obj(EntriesDenoted(cfg, acc, m, mayClose).value)
            && depth + EntriesNesting(m) <= STACK_LIMIT
    decreases |doc| - pos, 2
  {
    hide ReadToken, SkipComments, AfterMember, ReadMembers, JsonGrammar.ReadValue, IsFiller, IsGap, IsLead, IsSeparator,
      Text, NextText, Denoted, Nesting, SetMember, Unescape, Complete, IsRaw;
    var t := SkipComments(doc, pos);
    ClosedMembers(cfg, doc, pos, depth, acc, mayClose);
    FillerRead(doc, pos);
    if t.kind == ObjectEnd {
      PunctuationStands(doc, t.start, '}');
      m := Close(doc[pos..t.start]);
      Joined(doc, pos, t.start, t.end);
    } else {
      hide EntryText, EntriesDenoted, EntriesNesting;
      MembersOk(cfg, doc, pos, depth, acc, mayClose);
      StringStands(doc, t.start);
      ColonRead(doc, t.end);
      var raw, colon := LiteralText(doc, t), ReadToken(doc, t.end);
      var name, r := Unescape(raw).value, JsonGrammar.ReadValue(cfg, doc, colon.end, depth);
      var lead, p := ValueIsPhrase(cfg, doc, colon.end, depth);
      var after, next := AfterIsText(cfg, doc, r.end, depth, SetMember(acc, name, r.value), name == "");
      m := Entry(doc[pos..t.start], raw, doc[t.end..colon.start], lead, p, after, next);
      EntryDenotes(cfg, acc, m, mayClose, name, r.value);
      EntryJoined(doc, pos, m, t.start, t.end, colon.end, r.end, ReadMembers(cfg, doc, pos, depth, acc, mayClose).end);
    }
  }

  // ---------- Main results ----------

  /** `doc[..end]` is a text of the language, and its tree stands for `v`. */
  ghost predicate IsTextOf(cfg: Config, doc: string, end: nat, v: Value, lead: string, p: Phrase) {
    && end <= |doc| && doc[..end] == lead + Text(p) && IsLead(cfg, lead) && EndsAt(doc, end, p)
    && Denoted(cfg, p).Some? && StandsFor(cfg, p, v)
  }

  /** A text of the language is read as its value, or throws when it is nested more than 1000 deep. */
  lemma TextsAreRead(cfg: Config, doc: string, end: nat, v: Value, lead: string, p: Phrase)
    requires IsTextOf(cfg, doc, end, v, lead, p)
    ensures JsonGrammar.ReadValue(cfg, doc, 0, 0) == Outcome(0, Nesting(p), v, end)
  {
    hide IsLead, Text, Denoted, Nesting, JsonGrammar.ReadValue, At, Complete, StandsFor;
    DenotedExactly(cfg, p, v);
    assert At(doc, 0, lead + Text(p)) by { Prefix(doc, lead + Text(p)); }
    AtSplit(doc, 0, lead, Text(p));
    LeadSkipped(cfg, doc, 0, lead, 0);
    PhraseReads(cfg, doc, |lead|, p, 0);
  }

  lemma Prefix(doc: string, t: string)
    requires |t| <= |doc| && doc[..|t|] == t
    ensures At(doc, 0, t)
  {
  }

  lemma ReadIsText(cfg: Config, doc: string, end: nat, v: Value) returns (lead: string, p: Phrase)
    requires JsonGrammar.ReadValue(cfg, doc, 0, 0) == Ok(v, end)
    ensures IsTextOf(cfg, doc, end, v, lead, p) && Nesting(p) <= STACK_LIMIT
  {
    hide Text, Denoted, Nesting, IsLead, EndsAt, JsonGrammar.ReadValue, StandsFor;
    lead, p := ValueIsPhrase(cfg, doc, 0, 0);
    DenotedExactly(cfg, p, v);
    assert doc[0..end] == doc[..end];
  }

  /** Parsing succeeds with a value, stopping at `end`, exactly when the document up to there is a
      text of the language that denotes the value and is nested at most 1000 deep; strict mode asks
      for a container as well. */
  lemma ParseAcceptsExactly(cfg: Config, doc: string, v: Value, end: nat)
    ensures Parse(cfg, doc) == Ok(v, end) <==>
            (cfg.strictRoot ==> v.Arr? || v.Obj?) &&
            exists lead, p :: IsTextOf(cfg, doc, end, v, lead, p) && Nesting(p) <= 1000
  {
    hide JsonGrammar.ReadValue, IsTextOf, Nesting;
    if exists lead, p :: IsTextOf(cfg, doc, end, v, lead, p) && Nesting(p) <= STACK_LIMIT {
      var lead, p :| IsTextOf(cfg, doc, end, v, lead, p) && Nesting(p) <= STACK_LIMIT;
      TextsAreRead(cfg, doc, end, v, lead, p);
    }
    if Parse(cfg, doc) == Ok(v, end) {
      var lead, p := ReadIsText(cfg, doc, end, v);
    }
  }

  /** Every object in a parsed value has its members in strict key order. */
  lemma ParsedKeysAreInOrder(cfg: Config, doc: string)
    requires Parse(cfg, doc).Ok?
    ensures KeysInOrder(Parse(cfg, doc).value)
  {
    hide JsonGrammar.ReadValue, StandsFor, Nesting, Text, Denoted, IsLead, EndsAt;
    var r := Parse(cfg, doc);
    var lead, p := ReadIsText(cfg, doc, r.end, r.value);
    ValuesAreInOrder(cfg, p, r.value);
  }

  /** A document that begins with a text of the language nested more than 1000 deep makes the reader throw. */
  lemma DeepTextsThrow(cfg: Config, doc: string, end: nat, v: Value, lead: string, p: Phrase)
    requires IsTextOf(cfg, doc, end, v, lead, p) && Nesting(p) > 1000
    ensures Parse(cfg, doc) == Threw
  {
    hide JsonGrammar.ReadValue, IsTextOf, Nesting;
    TextsAreRead(cfg, doc, end, v, lead, p);
  }

  /** The language is unambiguous: whatever trees a document begins with, they end at the same place
      and denote the same value, unless both are nested too deep. */
  lemma LanguageIsUnambiguous(cfg: Config, doc: string, end: nat, v: Value, lead: string, p: Phrase,
                              end': nat, v': Value, lead': string, p': Phrase)
    requires IsTextOf(cfg, doc, end, v, lead, p) && IsTextOf(cfg, doc, end', v', lead', p')
    requires Nesting(p) <= STACK_LIMIT
    ensures v == v' && end == end' && Nesting(p') <= STACK_LIMIT
  {
    hide IsTextOf, Nesting;
    TextsAreRead(cfg, doc, end, v, lead, p);
    TextsAreRead(cfg, doc, end', v', lead', p');
  }
}
