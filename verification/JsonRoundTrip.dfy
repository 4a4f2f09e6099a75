/** Reading back what FastWriter wrote. */
module JsonRoundTrip {
  import opened JsonValue
  import opened JsonNumbers
  import opened JsonStrings
  import opened JsonGrammar
  import opened JsonText
  import opened JsonSyntax
  import opened JsonTokens
  import opened JsonReading
  import opened JsonAcceptance
  import opened JsonTree
  import opened JsonObjects

  // ---------- What is read back ----------

  /** No doubles and no null string pointers, and the members of every object are in strict key
      order, as in a std::map. */
  ghost predicate Printable(v: Value) {
    match v
    case Real(_) => false
    case NoStr => false
    case Arr(elems) => forall i | 0 <= i < |elems| :: Printable(elems[i])
    case Obj(members) => InKeyOrder(members) && forall i | 0 <= i < |members| :: Printable(members[i].value)
    case _ => true
  }

  /** The value with its integers tagged as the reader tags them: int up to 2^31 - 1, else uint. */
  function Retag(v: Value): Value {
    match v
    case Int(n) => Retagged(n)
    case UInt(u) => Retagged(u)
    case Arr(elems) => Arr(RetagItems(elems))
    case Obj(members) => Obj(RetagMembers(members))
    case _ => v
  }

  function RetagItems(elems: seq<Value>): (r: seq<Value>)
    ensures |r| == |elems| && forall i | 0 <= i < |elems| :: r[i] == Retag(elems[i])
  {
    if elems == [] then [] else [Retag(elems[0])] + RetagItems(elems[1..])
  }

  function RetagMembers(members: seq<Member>): (r: seq<Member>)
    ensures |r| == |members|
    ensures forall i | 0 <= i < |members| :: r[i] == Member(members[i].name, Retag(members[i].value))
  {
    if members == [] then [] else [Member(members[0].name, Retag(members[0].value))] + RetagMembers(members[1..])
  }

  // ---------- Members in key order ----------

  ghost predicate KeysBelow(acc: seq<Member>, name: string) {
    forall i | 0 <= i < |acc| :: KeyLess(acc[i].name, name)
  }

  /** A key above all others goes to the end. */
  lemma {:induction false} SetMemberAppends(members: seq<Member>, name: string, value: Value)
    requires KeysBelow(members, name)
    ensures SetMember(members, name, value) == members + [Member(name, value)]
  {
    hide KeyLess, KeyEqual;
    if members != [] {
      assert KeyLess(members[0].name, name);
      KeyTrichotomy(members[0].name, name);
      KeyTrichotomy(name, members[0].name);
      SetMemberAppends(members[1..], name, value);
      assert members + [Member(name, value)] == [members[0]] + (members[1..] + [Member(name, value)]);
    }
  }

  lemma KeysStayBelow(members: seq<Member>, acc: seq<Member>, read: Member)
    requires |members| > 1 && InKeyOrder(members) && KeysBelow(acc, members[0].name) && read.name == members[0].name
    ensures KeysBelow(acc + [read], members[1].name)
  {
    hide KeyLess;
    assert KeyLess(members[0].name, members[1].name);
    forall i | 0 <= i < |acc + [read]| ensures KeyLess((acc + [read])[i].name, members[1].name) {
      if i < |acc| { KeyTransitive(acc[i].name, read.name, members[1].name); }
    }
  }

  lemma PrintableMembers(members: seq<Member>)
    requires members != [] && Printable(Obj(members))
    ensures Printable(members[0].value) && InKeyOrder(members) && Printable(Obj(members[1..]))
  {
    hide KeyLess;
    var rest := members[1..];
    forall i, j | 0 <= i < j < |rest| ensures KeyLess(rest[i].name, rest[j].name) {
      assert KeyLess(members[i + 1].name, members[j + 1].name);
    }
    assert forall i | 0 <= i < |rest| :: rest[i] == members[i + 1];
  }

  lemma RetagMembersUnfold(members: seq<Member>)
    requires members != []
    ensures RetagMembers(members) ==
              [Member(members[0].name, Retag(members[0].value))] + RetagMembers(members[1..])
  {
    hide Retag;
  }

  /** Appending the first member keeps the keys read so far below those to come. */
  lemma FirstMember(members: seq<Member>, acc: seq<Member>)
    requires members != [] && Printable(Obj(members)) && KeysBelow(acc, members[0].name)
    ensures var read := Member(members[0].name, Retag(members[0].value));
            && Printable(members[0].value) && Printable(Obj(members[1..]))
            && SetMember(acc, read.name, read.value) == acc + [read]
            && acc + RetagMembers(members) == acc + [read] + RetagMembers(members[1..])
            && (|members| > 1 ==> KeysBelow(acc + [read], members[1].name))
  {
    hide KeyLess, SetMember, Retag, RetagMembers, Printable, KeysBelow;
    var read := Member(members[0].name, Retag(members[0].value));
    PrintableMembers(members);
    SetMemberAppends(acc, read.name, read.value);
    RetagMembersUnfold(members);
    if |members| > 1 { KeysStayBelow(members, acc, read); }
  }

  /** The members of a std::map are gathered in the order they are in. */
  lemma {:induction false} GatheredIsRetagged(v: Value)
    requires Printable(v)
    ensures Legible(v) && Gathered(v) == Retag(v)
    decreases v, 1
  {
    match v {
      case Arr(elems) => GatheredItemsAreRetagged(elems);
      case Obj(members) =>
        GatheredMembersAreRetagged([], members);
        assert [] + RetagMembers(members) == RetagMembers(members);
      case _ =>
    }
  }

  lemma {:induction false} GatheredItemsAreRetagged(elems: seq<Value>)
    requires forall i | 0 <= i < |elems| :: Printable(elems[i])
    ensures (forall i | 0 <= i < |elems| :: Legible(elems[i])) && GatheredItems(elems) == RetagItems(elems)
    decreases elems, 0
  {
    hide Printable, Legible, Gathered, Retag;
    if elems != [] {
      GatheredIsRetagged(elems[0]);
      GatheredItemsAreRetagged(elems[1..]);
      forall i | 0 <= i < |elems| ensures Legible(elems[i]) {
        if i > 0 { assert elems[i] == elems[1..][i - 1]; }
      }
    }
  }

  lemma {:induction false} GatheredMembersAreRetagged(acc: seq<Member>, members: seq<Member>)
    requires Printable(Obj(members)) && (members != [] ==> KeysBelow(acc, members[0].name))
    ensures forall i | 0 <= i < |members| :: Legible(members[i].value)
    ensures GatheredMembers(acc, members) == acc + RetagMembers(members)
    decreases members, 0
  {
    hide Printable, Legible, Gathered, Retag, SetMember, KeysBelow;
    if members != [] {
      FirstMember(members, acc);
      GatheredIsRetagged(members[0].value);
      GatheredMembersAreRetagged(acc + [Member(members[0].name, Retag(members[0].value))], members[1..]);
      forall i | 0 <= i < |members| ensures Legible(members[i].value) {
        if i > 0 { assert members[i] == members[1..][i - 1]; }
      }
    } else {
      assert acc + [] == acc;
    }
  }

  // ---------- Main results ----------

  predicate IsColon(colon: string) { colon == ":" || colon == ": " }

  /** The tree behind the text of a value. */
  lemma TextIsWellSpelled(cfg: Config, v: Value, colon: string) returns (j: Json)
    requires Printable(v) && IsColon(colon)
    ensures Spell(j) == Text(v, colon) && WellSpelled(cfg, j)
    ensures ValueOf(cfg, j) == Retag(v) && DepthOf(j) == Depth(v)
    ensures (j.Array? <==> v.Arr?) && (j.Object? <==> v.Obj?)
  {
    var gap := colon[1..];
    j := Tree(v, gap);
    assert colon == ":" + gap;
    TreeSpells(v, gap);
    GatheredIsRetagged(v);
    TreeDenotes(cfg, v, gap);
  }

  /** Wherever the text of a value stands. */
  lemma ReadsBack(cfg: Config, doc: string, pos: nat, v: Value, depth: nat, colon: string)
    requires Printable(v) && IsColon(colon)
    requires At(doc, pos, Text(v, colon)) && Stops(doc, pos + |Text(v, colon)|)
    ensures JsonGrammar.ReadValue(cfg, doc, pos, depth) == Outcome(depth, Depth(v), Retag(v), pos + |Text(v, colon)|)
  {
    hide Text, JsonGrammar.ReadValue, Stops, At;
    var j := TextIsWellSpelled(cfg, v, colon);
    SpellingReads(cfg, doc, pos, j, depth);
  }

  /** Parsing a document FastWriter wrote gives the value back, up to the integer tags, when it is
      nested at most 1000 deep; a deeper one makes the reader throw. In strict mode the reader
      refuses a root that is not a container. */
  lemma ParseInvertsWrite(cfg: Config, v: Value, colon: string)
    requires Printable(v) && IsColon(colon)
    ensures var r := Parse(cfg, Text(v, colon) + "\n");
            if Depth(v) > 1000 then r.Threw?
            else if cfg.strictRoot && !v.Arr? && !v.Obj? then r.Failed?
            else r.Ok? && r.value == Retag(v)
  {
    hide Text, Parse, WellSpelled, DepthOf, ValueOf, Spell, Depth, Retag, Printable;
    var j := TextIsWellSpelled(cfg, v, colon);
    EveryTextIsRead(cfg, "", j, "\n");
    assert "" + Spell(j) + "\n" == Text(v, colon) + "\n";
  }

  lemma {:induction false} RetagKeepsNumbers(v: Value)
    requires Printable(v)
    ensures Retag(Retag(v)) == Retag(v) && Text(Retag(v), ":") == Text(v, ":") && Depth(Retag(v)) == Depth(v)
    decreases v, 1
  {
    match v {
      case Arr(elems) => RetagItemsKeepsNumbers(elems, true);
      case Obj(members) => RetagMembersKeepsNumbers(members, true);
      case _ =>
    }
  }

  lemma {:induction false} RetagItemsKeepsNumbers(elems: seq<Value>, first: bool)
    requires forall i | 0 <= i < |elems| :: Printable(elems[i])
    ensures var r := RetagItems(elems);
            RetagItems(r) == r && ItemsText(r, first, ":") == ItemsText(elems, first, ":")
                && ItemsDepth(r) == ItemsDepth(elems)
    decreases elems, 0
  {
    if elems != [] {
      RetagKeepsNumbers(elems[0]);
      RetagItemsKeepsNumbers(elems[1..], false);
      assert RetagItems(elems)[1..] == RetagItems(elems[1..]);
    }
  }

  lemma {:induction false} RetagMembersKeepsNumbers(members: seq<Member>, first: bool)
    requires forall i | 0 <= i < |members| :: Printable(members[i].value)
    ensures var r := RetagMembers(members);
            RetagMembers(r) == r && MembersText(r, first, ":") == MembersText(members, first, ":")
            && MembersDepth(r) == MembersDepth(members)
    decreases members, 0
  {
    if members != [] {
      RetagKeepsNumbers(members[0].value);
      RetagMembersKeepsNumbers(members[1..], false);
      assert RetagMembers(members)[1..] == RetagMembers(members[1..]);
    }
  }
}
