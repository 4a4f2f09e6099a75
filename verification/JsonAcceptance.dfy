/** JSON is part of the language of the reader: it accepts every JSON text, however it is spaced and
    escaped, with the value of its syntax tree. */
module JsonAcceptance {
  import opened Wrappers
  import opened JsonValue
  import opened JsonNumbers
  import opened JsonStrings
  import opened JsonGrammar
  import opened JsonSyntax
  import opened JsonDialect
  import opened JsonTokens
  import opened JsonReading

  // ---------- The tree in the language of the reader ----------

  function PhraseOf(j: Json): Phrase
    decreases j, 0
  {
    match j
    case Word(text) => Scalar(text)
    case Quoted(raw) => Scalar("\"" + raw + "\"")
    case Array(items, gap) => if items == [] then EmptyArray(gap) else Elements(ElementOf(items, gap))
    case Object(members, gap) => Members(EntryOf(members, gap))
  }

  /** The white space in front of the closing bracket belongs to the last element. */
  function ElementOf(items: seq<Item>, gap: string): Element
    requires items != []
    decreases items, 0
  {
    var i := items[0];
    if |items| == 1 then Element(i.before, PhraseOf(i.value), i.after + gap, None)
    else Element(i.before, PhraseOf(i.value), i.after, Some(ElementOf(items[1..], gap)))
  }

  function EntryOf(members: seq<Pair>, gap: string): Entry
    decreases members, 0
  {
    if members == [] then Close(gap)
    else
      var m := members[0];
      if |members| == 1
      then Entry(m.before, m.name, m.beforeColon, m.afterColon, PhraseOf(m.value), m.after + gap, None)
      else Entry(m.before, m.name, m.beforeColon, m.afterColon, PhraseOf(m.value), m.after,
                 Some(Separated(",", EntryOf(members[1..], gap))))
  }

  // ---------- It has the same text ----------

  lemma {:induction false} PhraseSpells(j: Json)
    ensures JsonDialect.Text(PhraseOf(j)) == Spell(j)
    decreases j, 1
  {
    hide SpellItem, SpellPair, ItemsTail, MembersTail, SpellItems, SpellMembers, ElementText, EntryText;
    match j {
      case Array(items, gap) =>
        assert "[" + SpellItems(items) + (gap + "]") == "[" + (SpellItems(items) + (gap + "]"));
        if items == [] {
          NoItems();
          assert "" + (gap + "]") == gap + "]";
        } else {
          ItemsFromFront(items, gap);
          ElementSpells(items, gap);
        }
      case Object(members, gap) =>
        assert "{" + SpellMembers(members) + (gap + "}") == "{" + (SpellMembers(members) + (gap + "}"));
        EntrySpells(members, gap);
      case _ =>
    }
  }

  lemma NoItems()
    ensures SpellItems([]) == "" && SpellMembers([]) == ""
  {
  }

  lemma {:induction false} ElementSpells(items: seq<Item>, gap: string)
    requires items != []
    ensures ElementText(ElementOf(items, gap)) == SpellItem(items[0]) + ItemsTail(items[1..], gap)
    decreases items, 0
  {
    hide Spell, PhraseOf, JsonDialect.Text;
    var i, rest := items[0], items[1..];
    PhraseSpells(i.value);
    var t := Spell(i.value);
    if rest == [] {
      assert i.before + (t + ((i.after + gap) + "]")) == i.before + t + i.after + (gap + "]");
    } else {
      ElementSpells(rest, gap);
      var tail := "," + (SpellItem(rest[0]) + ItemsTail(rest[1..], gap));
      assert tail == ItemsTail(rest, gap);
      assert i.before + (t + (i.after + tail)) == i.before + t + i.after + tail;
    }
  }

  lemma {:induction false} EntrySpells(members: seq<Pair>, gap: string)
    ensures EntryText(EntryOf(members, gap)) == SpellMembers(members) + (gap + "}")
    decreases members, 1
  {
    if members == [] {
      assert "" + (gap + "}") == gap + "}";
    } else {
      MembersFromFront(members, gap);
      MembersSpell(members, gap);
    }
  }

  lemma {:induction false} MembersSpell(members: seq<Pair>, gap: string)
    requires members != []
    ensures EntryText(EntryOf(members, gap)) == SpellPair(members[0]) + MembersTail(members[1..], gap)
    decreases members, 0
  {
    hide Spell, PhraseOf, JsonDialect.Text;
    var m, rest := members[0], members[1..];
    PhraseSpells(m.value);
    var quoted, colon, t := "\"" + m.name + "\"", m.beforeColon + ":", Spell(m.value);
    if rest == [] {
      SixJoined(m.before, quoted, colon, m.afterColon, t, m.after, gap + "}");
      assert (m.after + gap) + "}" == m.after + (gap + "}");
    } else {
      MembersSpell(rest, gap);
      var tail := "," + (SpellPair(rest[0]) + MembersTail(rest[1..], gap));
      assert tail == MembersTail(rest, gap);
      SixJoined(m.before, quoted, colon, m.afterColon, t, m.after, tail);
    }
  }

  lemma SixJoined(a: string, b: string, c: string, d: string, e: string, f: string, tail: string)
    ensures a + b + c + d + e + f + tail == a + (b + (c + (d + (e + (f + tail)))))
  {
  }

  // ---------- It has the same value and depth ----------

  lemma NumeralIsLoose(t: string)
    requires exists n :: IsNumber(n) && t == SpellNumber(n)
    ensures IsLooseNumeral(t) && !IsName(t) && t[0] != '\"'
  {
    var n :| IsNumber(n) && t == SpellNumber(n);
    assert IsLooseNumber(n);
    assert t[0] == if n.minus then '-' else n.digits[0];
    assert IsDigit(n.digits[0]);
  }

  lemma {:induction false} PhraseDenotes(cfg: Config, j: Json)
    requires WellSpelled(cfg, j)
    ensures Denoted(cfg, PhraseOf(j)) == Some(ValueOf(cfg, j)) && Nesting(PhraseOf(j)) == DepthOf(j)
    decreases j, 1
  {
    hide IsGap, IsRaw, Unescape, NumberValue, IsLooseNumeral, WellSpelledItem, WellSpelledPair, ItemValues, MembersOf,
      ElementsDenoted, EntriesDenoted, ElementOf, EntryOf, ItemsDepthOf, MembersDepthOf, ElementsNesting,
      EntriesNesting;
    match j {
      case Word(t) =>
        if !IsName(t) { NumeralIsLoose(t); }
      case Quoted(raw) =>
        var t := "\"" + raw + "\"";
        assert t[1..|t| - 1] == raw;
      case Array(items, gap) =>
        if items == [] { NoValues(cfg); } else { ElementsDenote(cfg, items, gap); }
      case Object(members, gap) => EntriesDenote(cfg, [], members, gap, true);
    }
  }

  lemma NoValues(cfg: Config)
    ensures ItemValues(cfg, []) == [] && ItemsDepthOf([]) == 0
  {
  }

  lemma GapConcat(a: string, b: string)
    requires IsGap(a) && IsGap(b)
    ensures IsGap(a + b)
  {
  }

  /** White space is filler anywhere. */
  lemma GapsFit(cfg: Config, gap: string)
    requires IsGap(gap)
    ensures IsLead(cfg, gap) && IsFiller(gap)
  {
    GapIsFiller(gap);
  }

  lemma {:induction false} ElementsDenote(cfg: Config, items: seq<Item>, gap: string)
    requires items != [] && IsGap(gap) && forall i | 0 <= i < |items| :: WellSpelledItem(cfg, items[i])
    ensures ElementsDenoted(cfg, ElementOf(items, gap)) == Some(ItemValues(cfg, items))
    ensures ElementsNesting(ElementOf(items, gap)) == ItemsDepthOf(items)
    decreases items, 0
  {
    hide IsGap, IsLead, IsFiller, WellSpelled, ValueOf, Denoted, PhraseOf, Nesting, DepthOf;
    var i, rest := items[0], items[1..];
    assert WellSpelledItem(cfg, i);
    PhraseDenotes(cfg, i.value);
    GapsFit(cfg, i.before);
    GapsFit(cfg, i.after);
    if rest == [] {
      GapConcat(i.after, gap);
      GapsFit(cfg, i.after + gap);
      assert [ValueOf(cfg, i.value)] + [] == [ValueOf(cfg, i.value)];
    } else {
      ElementsDenote(cfg, rest, gap);
    }
  }

  lemma {:induction false} EntriesDenote(cfg: Config, acc: seq<Member>, members: seq<Pair>, gap: string, mayClose: bool)
    requires IsGap(gap) && forall i | 0 <= i < |members| :: WellSpelledPair(cfg, members[i])
    requires members == [] ==> mayClose
    ensures EntriesDenoted(cfg, acc, EntryOf(members, gap), mayClose) == Some(MembersOf(cfg, acc, members))
    ensures EntriesNesting(EntryOf(members, gap)) == MembersDepthOf(members)
    decreases members, 0
  {
    hide IsGap, IsLead, IsFiller, IsSeparator, WellSpelled, ValueOf, Denoted, PhraseOf, Nesting, DepthOf, SetMember,
      Unescape, IsRaw;
    GapsFit(cfg, gap);
    if members != [] {
      hide EntriesDenoted, EntriesNesting;
      var m, rest := members[0], members[1..];
      assert WellSpelledPair(cfg, m);
      PhraseDenotes(cfg, m.value);
      GapsFit(cfg, m.before);
      GapsFit(cfg, m.afterColon);
      GapsFit(cfg, m.after);
      GapConcat(m.after, gap);
      GapsFit(cfg, m.after + gap);
      var name, v := Unescape(m.name).value, ValueOf(cfg, m.value);
      EntryDenotes(cfg, acc, EntryOf(members, gap), mayClose, name, v);
      if rest == [] {
        NoMembers(cfg, SetMember(acc, name, v));
      } else {
        EntriesDenote(cfg, SetMember(acc, name, v), rest, gap, name == "");
      }
    }
  }

  lemma NoMembers(cfg: Config, acc: seq<Member>)
    ensures MembersOf(cfg, acc, []) == acc && MembersDepthOf([]) == 0
  {
  }

  // ---------- Main results ----------

  lemma SpellingReads(cfg: Config, doc: string, pos: nat, j: Json, depth: nat)
    requires WellSpelled(cfg, j) && At(doc, pos, Spell(j)) && (j.Word? ==> Stops(doc, pos + |Spell(j)|))
    ensures JsonGrammar.ReadValue(cfg, doc, pos, depth) == Outcome(depth, DepthOf(j), ValueOf(cfg, j), pos + |Spell(j)|)
  {
    hide At, WellSpelled, Spell, Stops, DepthOf, ValueOf, JsonDialect.Text, Denoted, Nesting, Complete,
      JsonGrammar.ReadValue;
    var p, end := PhraseOf(j), pos + |Spell(j)|;
    PhraseSpells(j);
    PhraseDenotes(cfg, j);
    if j.Word? { StopsComplete(doc, end, p.text); }
    if j.Quoted? { QuotedIsComplete(doc, end, p.text); }
    PhraseReads(cfg, doc, pos, p, depth);
  }

  lemma QuotedIsComplete(doc: string, end: nat, t: string)
    requires t != "" && t[0] == '\"'
    ensures Complete(doc, end, t)
  {
    NumeralExactly(t);
  }

  /** Every JSON text, with any white space around it, is read as the value of its syntax tree, and
      makes the reader throw exactly when it is nested more than 1000 deep. */
  lemma EveryTextIsRead(cfg: Config, before: string, j: Json, after: string)
    requires WellSpelled(cfg, j) && IsGap(before) && IsGap(after)
    ensures var r := Parse(cfg, before + Spell(j) + after);
            if DepthOf(j) > 1000 then r.Threw?
            else if cfg.strictRoot && !j.Array? && !j.Object? then r.Failed?
            else r.Ok? && r.value == ValueOf(cfg, j)
  {
    hide At, IsGap, IsLead, WellSpelled, Spell, Stops, DepthOf, ValueOf, JsonGrammar.ReadValue;
    var t := Spell(j);
    var doc := before + t + after;
    ThreeParts(before, t, after);
    GapsFit(cfg, before);
    LeadSkipped(cfg, doc, 0, before, 0);
    GapStops(doc, |before| + |t|, after);
    RootKind(cfg, j);
    SpellingReads(cfg, doc, |before|, j, 0);
  }

  lemma RootKind(cfg: Config, j: Json)
    requires WellSpelled(cfg, j)
    ensures (ValueOf(cfg, j).Arr? <==> j.Array?) && (ValueOf(cfg, j).Obj? <==> j.Object?)
  {
    hide Unescape;
  }

  lemma ThreeParts(a: string, b: string, c: string)
    ensures var doc := a + b + c;
            At(doc, 0, a) && At(doc, |a|, b) && At(doc, |a| + |b|, c) && |doc| == |a| + |b| + |c|
  {
    var doc := a + b + c;
    assert doc[0..|a|] == a && doc[|a|..|a| + |b|] == b && doc[|a| + |b|..|a| + |b| + |c|] == c;
  }

  lemma GapStops(doc: string, pos: nat, gap: string)
    requires At(doc, pos, gap) && IsGap(gap) && pos + |gap| == |doc|
    ensures Stops(doc, pos)
  {
    if gap != "" { AtIndex(doc, pos, gap, 0); }
  }
}
