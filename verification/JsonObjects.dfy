/** What assigning members one after the other leaves: the members in key order, each with the value
    assigned last. The value of a text is stated here without saying how it is gathered. */
module JsonObjects {
  import opened Wrappers
  import opened JsonValue
  import opened JsonStrings
  import opened JsonGrammar
  import opened JsonSyntax
  import opened JsonDialect

  // ---------- Assignment ----------

  ghost predicate InKeyOrder(members: seq<Member>) {
    forall i, j | 0 <= i < j < |members| :: KeyLess(members[i].name, members[j].name)
  }

  lemma KeyOrderSplits(m: Member, rest: seq<Member>)
    ensures InKeyOrder([m] + rest) <==>
            InKeyOrder(rest) && forall k | k in rest :: KeyLess(m.name, k.name)
  {
    hide KeyLess;
    var all := [m] + rest;
    if InKeyOrder(all) {
      forall i, j | 0 <= i < j < |rest| ensures KeyLess(rest[i].name, rest[j].name) {
        assert rest[i] == all[i + 1] && rest[j] == all[j + 1];
      }
      forall k | k in rest ensures KeyLess(m.name, k.name) {
        var j :| 0 <= j < |rest| && rest[j] == k;
        assert KeyLess(all[0].name, all[j + 1].name);
      }
    }
    if InKeyOrder(rest) && forall k | k in rest :: KeyLess(m.name, k.name) {
      forall i, j | 0 <= i < j < |all| ensures KeyLess(all[i].name, all[j].name) {
        assert all[j] == rest[j - 1] && all[j] in rest;
      }
    }
  }

  /** The assigned name holds the assigned value, and all other names what they held. */
  ghost predicate Assigned(before: seq<Member>, name: string, value: Value, after: seq<Member>) {
    forall m :: m in after <==> if m.name == name then m.value == value else m in before
  }

  lemma {:induction false} SetMemberExactly(members: seq<Member>, name: string, value: Value)
    requires InKeyOrder(members)
    ensures InKeyOrder(SetMember(members, name, value))
    ensures Assigned(members, name, value, SetMember(members, name, value))
  {
    hide KeyLess, KeyEqual, InKeyOrder;
    var own := Member(name, value);
    if members == [] {
      KeyOrderSplits(own, []);
    } else {
      var first, rest := members[0], members[1..];
      assert members == [first] + rest;
      KeyOrderSplits(first, rest);
      KeyTrichotomy(name, first.name);
      if KeyLess(name, first.name) {
        forall k | k in members ensures KeyLess(name, k.name) && k.name != name {
          if k != first { KeyTransitive(name, first.name, k.name); }
          KeyTrichotomy(name, k.name);
        }
        KeyOrderSplits(own, members);
      } else if KeyEqual(name, first.name) {
        forall k | k in rest ensures k.name != name { KeyTrichotomy(name, k.name); }
        KeyOrderSplits(own, rest);
      } else {
        SetMemberExactly(rest, name, value);
        var longer := SetMember(rest, name, value);
        forall k | k in longer ensures KeyLess(first.name, k.name) {
          KeyTrichotomy(first.name, name);
        }
        KeyOrderSplits(first, longer);
      }
    }
  }

  /** Members in key order are determined by which they are. */
  lemma {:induction false} SameMembers(a: seq<Member>, b: seq<Member>)
    requires InKeyOrder(a) && InKeyOrder(b) && forall m :: m in a <==> m in b
    ensures a == b
    decreases |a|
  {
    hide KeyLess, InKeyOrder;
    assert b != [] ==> b[0] in b;
    if a != [] {
      assert a[0] in a && b != [];
      assert a == [a[0]] + a[1..] && b == [b[0]] + b[1..];
      KeyOrderSplits(a[0], a[1..]);
      KeyOrderSplits(b[0], b[1..]);
      KeyTrichotomy(a[0].name, b[0].name);
      assert a[0] == b[0];
      KeyTrichotomy(a[0].name, a[0].name);
      forall m ensures m in a[1..] <==> m in b[1..] {
        assert m in a <==> m == a[0] || m in a[1..];
        assert m in b <==> m == b[0] || m in b[1..];
      }
      SameMembers(a[1..], b[1..]);
    }
  }

  // ---------- The value of a text ----------

  ghost function ElementPhrases(e: Element): (ps: seq<Phrase>)
    ensures forall i | 0 <= i < |ps| :: Nesting(ps[i]) <= ElementsNesting(e)
  {
    [e.value] + match e.next case None => [] case Some(next) => ElementPhrases(next)
  }

  /** The value of the last member of the name. */
  ghost function LastNamed(m: Entry, name: string): (r: Option<Phrase>)
    ensures r.Some? ==> Nesting(r.value) <= EntriesNesting(m)
    decreases m
  {
    match m
    case Close(_) => None
    case Entry(_, raw, _, _, value, _, next) =>
      var later := match next case None => None case Some(s) => LastNamed(s.entry, name);
      if later.Some? then later
      else if Unescape(raw) == Some(name) then Some(value)
      else None
  }

  ghost predicate Names(members: seq<Member>, name: string) { exists v :: Member(name, v) in members }

  /** The value a tree stands for: an array of what its elements stand for, or an object in key order
      that has the names of its members, each with what the last member of that name stands for. */
  ghost predicate StandsFor(cfg: Config, p: Phrase, v: Value)
    decreases Nesting(p)
  {
    match p
    case Scalar(text) => WordValue(cfg, text) == Some(v)
    case EmptyArray(_) => v == Arr([])
    case Elements(e) =>
      var ps := ElementPhrases(e);
      v.Arr? && |v.elems| == |ps| && forall i | 0 <= i < |ps| :: StandsFor(cfg, ps[i], v.elems[i])
    case Members(m) =>
      && v.Obj? && InKeyOrder(v.members)
      && (forall name :: Names(v.members, name) <==> LastNamed(m, name).Some?)
      && (forall k | k in v.members ::
            LastNamed(m, k.name).Some? && StandsFor(cfg, LastNamed(m, k.name).value, k.value))
  }

  /** What gathering the members leaves, in terms of the last member of every name. */
  lemma {:induction false} LastMemberCounts(cfg: Config, acc: seq<Member>, m: Entry, mayClose: bool)
    requires EntriesDenoted(cfg, acc, m, mayClose).Some? && InKeyOrder(acc)
    ensures var members := EntriesDenoted(cfg, acc, m, mayClose).value;
            && InKeyOrder(members)
            && forall k :: k in members <==>
                 match LastNamed(m, k.name)
                 case None => k in acc
                 case Some(p) => Denoted(cfg, p) == Some(k.value)
    decreases m
  {
    hide InKeyOrder, SetMember, Unescape, Denoted;
    if m.Entry? {
      EntriesUnfold(cfg, acc, m, mayClose);
      var name, v := Unescape(m.name).value, Denoted(cfg, m.value).value;
      SetMemberExactly(acc, name, v);
      if m.next.Some? {
        LastMemberCounts(cfg, SetMember(acc, name, v), m.next.value.entry, name == "");
      }
    }
  }

  lemma {:induction false} LastIsDenoted(cfg: Config, acc: seq<Member>, m: Entry, mayClose: bool, name: string)
    requires EntriesDenoted(cfg, acc, m, mayClose).Some? && LastNamed(m, name).Some?
    ensures Denoted(cfg, LastNamed(m, name).value).Some?
    decreases m
  {
    hide SetMember, Unescape, Denoted;
    EntriesUnfold(cfg, acc, m, mayClose);
    if m.next.Some? {
      var s := m.next.value;
      var key := Unescape(m.name).value;
      if LastNamed(s.entry, name).Some? {
        LastIsDenoted(cfg, SetMember(acc, key, Denoted(cfg, m.value).value), s.entry, key == "", name);
      }
    }
  }

  lemma {:induction false} ElementsAreDenoted(cfg: Config, e: Element)
    requires ElementsDenoted(cfg, e).Some?
    ensures var values, ps := ElementsDenoted(cfg, e).value, ElementPhrases(e);
            |values| == |ps| && forall i | 0 <= i < |ps| :: Denoted(cfg, ps[i]) == Some(values[i])
    decreases e
  {
    hide Denoted;
    ElementsUnfold(cfg, e);
    if e.next.Some? { ElementsAreDenoted(cfg, e.next.value); }
  }

  /** The value the members are gathered to is the one the tree stands for, and the only one. */
  lemma {:induction false} DenotedExactly(cfg: Config, p: Phrase, v: Value)
    requires Denoted(cfg, p).Some?
    ensures StandsFor(cfg, p, v) <==> Denoted(cfg, p) == Some(v)
    decreases Nesting(p)
  {
    match p {
      case Elements(e) => ArraysExactly(cfg, e, v);
      case Members(m) => ObjectsExactly(cfg, m, v);
      case _ =>
    }
  }

  lemma {:induction false} ArraysExactly(cfg: Config, e: Element, v: Value)
    requires ElementsDenoted(cfg, e).Some?
    ensures StandsFor(cfg, Elements(e), v) <==> v == Arr(ElementsDenoted(cfg, e).value)
    decreases Nesting(Elements(e)), 0
  {
    hide Denoted, ElementsDenoted;
    var values, ps := ElementsDenoted(cfg, e).value, ElementPhrases(e);
    ElementsAreDenoted(cfg, e);
    if v.Arr? && |v.elems| == |ps| {
      forall i | 0 <= i < |ps| ensures StandsFor(cfg, ps[i], v.elems[i]) <==> v.elems[i] == values[i] {
        DenotedExactly(cfg, ps[i], v.elems[i]);
      }
      if forall i | 0 <= i < |ps| :: v.elems[i] == values[i] { assert v.elems == values; }
    }
  }

  lemma {:induction false} ObjectsExactly(cfg: Config, m: Entry, v: Value)
    requires EntriesDenoted(cfg, [], m, true).Some?
    ensures StandsFor(cfg, Members(m), v) <==> v == Obj(EntriesDenoted(cfg, [], m, true).value)
    decreases Nesting(Members(m)), 0
  {
    hide Denoted, EntriesDenoted, InKeyOrder, LastNamed;
    var members := EntriesDenoted(cfg, [], m, true).value;
    assert InKeyOrder([]) by { NoMembersInOrder(); }
    LastMemberCounts(cfg, [], m, true);
    forall name | LastNamed(m, name).Some? ensures Names(members, name) {
      LastIsDenoted(cfg, [], m, true, name);
      assert Member(name, Denoted(cfg, LastNamed(m, name).value).value) in members;
    }
    if v.Obj? {
      forall k: Member | LastNamed(m, k.name).Some?
        ensures StandsFor(cfg, LastNamed(m, k.name).value, k.value) <==> k in members
      {
        LastIsDenoted(cfg, [], m, true, k.name);
        DenotedExactly(cfg, LastNamed(m, k.name).value, k.value);
      }
      if StandsFor(cfg, Members(m), v) {
        forall k ensures k in v.members <==> k in members {
          if k in members {
            assert Names(v.members, k.name);
            var x :| Member(k.name, x) in v.members;
            assert Member(k.name, x) in members;
          }
        }
        SameMembers(v.members, members);
      }
    }
  }

  lemma NoMembersInOrder()
    ensures InKeyOrder([])
  {
  }

  /** The members of every object are in strict key order, so no name is there twice. */
  ghost predicate KeysInOrder(v: Value) {
    match v
    case Arr(elems) => forall i | 0 <= i < |elems| :: KeysInOrder(elems[i])
    case Obj(members) => InKeyOrder(members) && forall i | 0 <= i < |members| :: KeysInOrder(members[i].value)
    case _ => true
  }

  lemma WordsAreScalars(cfg: Config, t: string)
    requires WordValue(cfg, t).Some?
    ensures !WordValue(cfg, t).value.Arr? && !WordValue(cfg, t).value.Obj?
  {
    hide Unescape;
  }

  lemma {:induction false} ValuesAreInOrder(cfg: Config, p: Phrase, v: Value)
    requires StandsFor(cfg, p, v)
    ensures KeysInOrder(v)
    decreases Nesting(p)
  {
    hide InKeyOrder, Unescape, NumberValue;
    match p {
      case Elements(e) =>
        forall i | 0 <= i < |v.elems| ensures KeysInOrder(v.elems[i]) {
          ValuesAreInOrder(cfg, ElementPhrases(e)[i], v.elems[i]);
        }
      case Members(m) =>
        forall i | 0 <= i < |v.members| ensures KeysInOrder(v.members[i].value) {
          var k := v.members[i];
          assert k in v.members;
          ValuesAreInOrder(cfg, LastNamed(m, k.name).value, k.value);
        }
      case Scalar(text) => WordsAreScalars(cfg, text);
      case EmptyArray(_) =>
    }
  }
}
