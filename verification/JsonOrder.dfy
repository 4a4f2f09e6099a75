/** The ordering of JSON values is a strict total order that agrees with equality. */
module JsonOrder {
  import opened JsonValue
  import opened Sequences

  ghost predicate Ordered(v: Value) {
    Small(v) && RealFree(v)
  }

  /** Doubles are excluded: the source compares their values, under which the two zeros are equal and
      a NaN differs from itself. */
  lemma {:induction false} EqualIsIdentity(a: Value, b: Value)
    requires RealFree(a) && RealFree(b)
    ensures Equal(a, b) <==> a == b
    decreases a
  {
    match a {
      case Str(s) => if b.Str? { KeyTrichotomy(s, b.s); }
      case Arr(elems) =>
        if b.Arr? && |elems| == |b.elems| {
          forall i | 0 <= i < |elems| ensures Equal(elems[i], b.elems[i]) <==> elems[i] == b.elems[i] {
            EqualIsIdentity(elems[i], b.elems[i]);
          }
        }
      case Obj(members) =>
        if b.Obj? && |members| == |b.members| {
          forall i | 0 <= i < |members|
            ensures KeyEqual(members[i].name, b.members[i].name) && Equal(members[i].value, b.members[i].value)
              <==> members[i] == b.members[i]
          {
            KeyTrichotomy(members[i].name, b.members[i].name);
            EqualIsIdentity(members[i].value, b.members[i].value);
          }
        }
      case _ =>
    }
  }

  // ---------- Exactly one of <, ==, > ----------

  lemma {:induction false} Trichotomy(a: Value, b: Value)
    requires Ordered(a) && Ordered(b)
    ensures !(Less(a, b) && Less(b, a))
    ensures !Less(a, b) && !Less(b, a) <==> a == b
    decreases Size(a) + Size(b), 0
  {
    if TypeTag(a) == TypeTag(b) {
      match a {
        case Str(s) => if b.Str? { KeyTrichotomy(s, b.s); }
        case Arr(elems) => ElemsTrichotomy(elems, b.elems);
        case Obj(members) => MembersTrichotomy(members, b.members);
        case _ =>
      }
    }
  }

  lemma {:induction false} ElemsTrichotomy(a: seq<Value>, b: seq<Value>)
    requires forall i | 0 <= i < |a| :: Ordered(a[i])
    requires forall i | 0 <= i < |b| :: Ordered(b[i])
    ensures !(ElemsLess(a, b) && ElemsLess(b, a))
    ensures !ElemsLess(a, b) && !ElemsLess(b, a) <==> a == b
    decreases SizeElems(a) + SizeElems(b), 2
  {
    if a != [] && b != [] {
      Trichotomy(a[0], b[0]);
      ElemsTrichotomy(a[1..], b[1..]);
      assert a == [a[0]] + a[1..] && b == [b[0]] + b[1..];
    }
  }

  lemma {:induction false} MembersTrichotomy(a: seq<Member>, b: seq<Member>)
    requires forall i | 0 <= i < |a| :: Ordered(a[i].value)
    requires forall i | 0 <= i < |b| :: Ordered(b[i].value)
    ensures !(MembersLess(a, b) && MembersLess(b, a))
    ensures !MembersLess(a, b) && !MembersLess(b, a) <==> a == b
    decreases SizeMembers(a) + SizeMembers(b), 2
  {
    if a != [] && b != [] {
      KeyTrichotomy(a[0].name, b[0].name);
      Trichotomy(a[0].value, b[0].value);
      MembersTrichotomy(a[1..], b[1..]);
      assert a == [a[0]] + a[1..] && b == [b[0]] + b[1..];
    }
  }

  // ---------- Transitivity ----------

  lemma {:induction false} Transitive(a: Value, b: Value, c: Value)
    requires Ordered(a) && Ordered(b) && Ordered(c)
    requires Less(a, b) && Less(b, c)
    ensures Less(a, c)
    decreases Size(a) + Size(b) + Size(c), 0
  {
    if TypeTag(a) == TypeTag(b) == TypeTag(c) {
      match a {
        case Str(s) => if b.Str? && c.Str? { KeyTransitive(s, b.s, c.s); }
        case Arr(elems) =>
          if |elems| == |b.elems| == |c.elems| { ElemsTransitive(elems, b.elems, c.elems); }
        case Obj(members) =>
          if |members| == |b.members| == |c.members| { MembersTransitive(members, b.members, c.members); }
        case _ =>
      }
    }
  }

  lemma {:induction false} ElemsTransitive(a: seq<Value>, b: seq<Value>, c: seq<Value>)
    requires forall i | 0 <= i < |a| :: Ordered(a[i])
    requires forall i | 0 <= i < |b| :: Ordered(b[i])
    requires forall i | 0 <= i < |c| :: Ordered(c[i])
    requires ElemsLess(a, b) && ElemsLess(b, c)
    ensures ElemsLess(a, c)
    decreases SizeElems(a) + SizeElems(b) + SizeElems(c), 2
  {
    if a != [] {
      Trichotomy(a[0], b[0]);
      Trichotomy(b[0], c[0]);
      Trichotomy(a[0], c[0]);
      if Less(a[0], b[0]) && Less(b[0], c[0]) {
        Transitive(a[0], b[0], c[0]);
      } else if a[0] == b[0] == c[0] {
        ElemsTransitive(a[1..], b[1..], c[1..]);
      }
    }
  }

  lemma {:induction false} MembersTransitive(a: seq<Member>, b: seq<Member>, c: seq<Member>)
    requires forall i | 0 <= i < |a| :: Ordered(a[i].value)
    requires forall i | 0 <= i < |b| :: Ordered(b[i].value)
    requires forall i | 0 <= i < |c| :: Ordered(c[i].value)
    requires MembersLess(a, b) && MembersLess(b, c)
    ensures MembersLess(a, c)
    decreases SizeMembers(a) + SizeMembers(b) + SizeMembers(c), 2
  {
    if a != [] {
      MemberTrichotomy(a[0], b[0]);
      MemberTrichotomy(b[0], c[0]);
      MemberTrichotomy(a[0], c[0]);
      if MemberLess(a[0], b[0]) && MemberLess(b[0], c[0]) {
        MemberTransitive(a[0], b[0], c[0]);
      } else if a[0] == b[0] == c[0] {
        MembersTransitive(a[1..], b[1..], c[1..]);
      }
    }
  }

  lemma MemberTrichotomy(a: Member, b: Member)
    requires Ordered(a.value) && Ordered(b.value)
    ensures !(MemberLess(a, b) && MemberLess(b, a))
    ensures !MemberLess(a, b) && !MemberLess(b, a) <==> a == b
    decreases Size(a.value) + Size(b.value), 1
  {
    KeyTrichotomy(a.name, b.name);
    Trichotomy(a.value, b.value);
  }

  lemma MemberTransitive(a: Member, b: Member, c: Member)
    requires Ordered(a.value) && Ordered(b.value) && Ordered(c.value)
    requires MemberLess(a, b) && MemberLess(b, c)
    ensures MemberLess(a, c)
    decreases Size(a.value) + Size(b.value) + Size(c.value), 1
  {
    KeyTrichotomy(a.name, b.name);
    KeyTrichotomy(b.name, c.name);
    KeyTrichotomy(a.name, c.name);
    if KeyLess(a.name, b.name) && KeyLess(b.name, c.name) {
      KeyTransitive(a.name, b.name, c.name);
    } else if a.name == b.name == c.name {
      Transitive(a.value, b.value, c.value);
    }
  }

  // ---------- Which order it is ----------

  ghost predicate IsText(v: Value) { v.NoStr? || v.Str? }

  /** Null, signed and unsigned integers, doubles, strings, booleans, arrays, objects. */
  ghost predicate EarlierKind(a: Value, b: Value) {
    || (a.Null? && !b.Null?)
    || (a.Int? && (b.UInt? || b.Real? || IsText(b) || b.Bool? || b.Arr? || b.Obj?))
    || (a.UInt? && (b.Real? || IsText(b) || b.Bool? || b.Arr? || b.Obj?))
    || (a.Real? && (IsText(b) || b.Bool? || b.Arr? || b.Obj?))
    || (IsText(a) && (b.Bool? || b.Arr? || b.Obj?))
    || (a.Bool? && (b.Arr? || b.Obj?))
    || (a.Arr? && b.Obj?)
  }

  /** Within a kind: numbers by size, the null string pointer before every string, strings as in a
      dictionary, false before true, containers by their number of entries and then by the first
      entry in which they differ. */
  ghost predicate Precedes(a: Value, b: Value)
    decreases a
  {
    || EarlierKind(a, b)
    || (a.Int? && b.Int? && a.n < b.n)
    || (a.UInt? && b.UInt? && a.u < b.u)
    || (a.NoStr? && b.Str?)
    || (a.Str? && b.Str? && DictionaryBefore(a.s, b.s))
    || (a.Bool? && b.Bool? && !a.b && b.b)
    || (a.Arr? && b.Arr? &&
        (|| |a.elems| < |b.elems|
         || (|a.elems| == |b.elems| && exists k | 0 <= k < |a.elems| ::
               a.elems[..k] == b.elems[..k] && Precedes(a.elems[k], b.elems[k]))))
    || (a.Obj? && b.Obj? &&
        (|| |a.members| < |b.members|
         || (|a.members| == |b.members| && exists k | 0 <= k < |a.members| ::
               a.members[..k] == b.members[..k] && MemberPrecedes(a.members[k], b.members[k]))))
  }

  /** The name counts before the value. */
  ghost predicate MemberPrecedes(a: Member, b: Member)
    decreases a
  {
    DictionaryBefore(a.name, b.name) || (a.name == b.name && Precedes(a.value, b.value))
  }

  /** operator< is that order. */
  lemma {:induction false} LessExactly(a: Value, b: Value)
    requires Ordered(a) && Ordered(b)
    ensures Less(a, b) <==> Precedes(a, b)
    decreases Size(a) + Size(b), 0
  {
    hide KeyLess, DictionaryBefore;
    match a {
      case Str(s) => if b.Str? { KeyLessIsDictionaryOrder(s, b.s); }
      case Arr(elems) => if b.Arr? && |elems| == |b.elems| { ElemsLessExactly(elems, b.elems); }
      case Obj(members) => if b.Obj? && |members| == |b.members| { MembersLessExactly(members, b.members); }
      case _ =>
    }
  }

  lemma {:induction false} ElemsLessExactly(a: seq<Value>, b: seq<Value>)
    requires |a| == |b|
    requires forall i | 0 <= i < |a| :: Ordered(a[i]) && Ordered(b[i])
    ensures ElemsLess(a, b) <==> exists k | 0 <= k < |a| :: a[..k] == b[..k] && Precedes(a[k], b[k])
    decreases SizeElems(a) + SizeElems(b), 3
  {
    hide Precedes;
    if a != [] {
      Trichotomy(a[0], b[0]);
      LessExactly(a[0], b[0]);
      var c, d := a[1..], b[1..];
      ElemsLessExactly(c, d);
      if Precedes(a[0], b[0]) {
        assert a[..0] == b[..0];
      }
      if a[0] == b[0] && ElemsLess(c, d) {
        var k :| 0 <= k < |c| && c[..k] == d[..k] && Precedes(c[k], d[k]);
        PrefixesAgree(a, b, k);
        assert a[..k + 1] == b[..k + 1] && Precedes(a[k + 1], b[k + 1]);
      }
      if k :| 0 < k < |a| && a[..k] == b[..k] && Precedes(a[k], b[k]) {
        PrefixesAgree(a, b, k - 1);
        assert c[..k - 1] == d[..k - 1] && Precedes(c[k - 1], d[k - 1]);
      }
    }
  }

  lemma {:induction false} MembersLessExactly(a: seq<Member>, b: seq<Member>)
    requires |a| == |b|
    requires forall i | 0 <= i < |a| :: Ordered(a[i].value) && Ordered(b[i].value)
    ensures MembersLess(a, b) <==> exists k | 0 <= k < |a| :: a[..k] == b[..k] && MemberPrecedes(a[k], b[k])
    decreases SizeMembers(a) + SizeMembers(b), 3
  {
    hide MemberPrecedes, MemberLess;
    if a != [] {
      MemberTrichotomy(a[0], b[0]);
      MemberLessExactly(a[0], b[0]);
      var c, d := a[1..], b[1..];
      MembersLessExactly(c, d);
      if MemberPrecedes(a[0], b[0]) {
        assert a[..0] == b[..0];
      }
      if a[0] == b[0] && MembersLess(c, d) {
        var k :| 0 <= k < |c| && c[..k] == d[..k] && MemberPrecedes(c[k], d[k]);
        PrefixesAgree(a, b, k);
        assert a[..k + 1] == b[..k + 1] && MemberPrecedes(a[k + 1], b[k + 1]);
      }
      if k :| 0 < k < |a| && a[..k] == b[..k] && MemberPrecedes(a[k], b[k]) {
        PrefixesAgree(a, b, k - 1);
        assert c[..k - 1] == d[..k - 1] && MemberPrecedes(c[k - 1], d[k - 1]);
      }
    }
  }

  lemma {:induction false} MemberLessExactly(a: Member, b: Member)
    requires Ordered(a.value) && Ordered(b.value)
    ensures MemberLess(a, b) <==> MemberPrecedes(a, b)
    decreases Size(a.value) + Size(b.value), 1
  {
    hide Less, Precedes, KeyLess, DictionaryBefore;
    KeyTrichotomy(a.name, b.name);
    KeyLessIsDictionaryOrder(a.name, b.name);
    LessExactly(a.value, b.value);
  }

  // ---------- Main results ----------

  /** `Compare` tells which of the two comes first. */
  lemma CompareExactly(a: Value, b: Value)
    requires Ordered(a) && Ordered(b)
    ensures Compare(a, b) == if Precedes(a, b) then -1 else if a == b then 0 else 1
    ensures Compare(a, b) == 1 <==> Precedes(b, a)
  {
    hide Less, Precedes;
    Trichotomy(a, b);
    LessExactly(a, b);
    LessExactly(b, a);
  }

  /** `Compare` is antisymmetric in sign and returns 0 exactly when operator== holds. */
  lemma CompareAgreesWithEqual(a: Value, b: Value)
    requires Ordered(a) && Ordered(b)
    ensures Compare(a, b) == 0 <==> Equal(a, b)
    ensures Compare(a, b) == -Compare(b, a)
  {
    Trichotomy(a, b);
    EqualIsIdentity(a, b);
  }

  /** Every container in the value holds fewer than `n` entries. */
  ghost predicate Below(v: Value, n: nat) {
    match v
    case Arr(elems) => |elems| < n && forall i | 0 <= i < |elems| :: Below(elems[i], n)
    case Obj(members) => |members| < n && forall i | 0 <= i < |members| :: Below(members[i].value, n)
    case _ => true
  }

  ghost predicate Comparable(v: Value, n: nat) {
    RealFree(v) && Below(v, n)
  }

  /** operator< is a strict total order on the values without doubles whose containers hold fewer
      than `n` entries. */
  ghost predicate StrictTotalOrderBelow(n: nat) {
    && (forall a, b | Comparable(a, n) && Comparable(b, n) :: !(Less(a, b) && Less(b, a)))
    && (forall a, b | Comparable(a, n) && Comparable(b, n) && a != b :: Less(a, b) || Less(b, a))
    && (forall a, b, c | Comparable(a, n) && Comparable(b, n) && Comparable(c, n) ::
          Less(a, b) && Less(b, c) ==> Less(a, c))
  }

  lemma {:induction false} BelowIsSmall(v: Value, n: nat)
    requires Below(v, n) && n <= 0x8000_0000
    ensures Small(v)
    decreases v
  {
    match v {
      case Arr(elems) => forall i | 0 <= i < |elems| ensures Small(elems[i]) { BelowIsSmall(elems[i], n); }
      case Obj(members) =>
        forall i | 0 <= i < |members| ensures Small(members[i].value) { BelowIsSmall(members[i].value, n); }
      case _ =>
    }
  }

  /** The difference of two sizes is cut to 32 bits: the empty array and an array of 2^31 nulls each
      come before the other. */
  lemma HugeArraysAreNotOrdered(huge: seq<Value>)
    requires |huge| == 0x8000_0000 && forall i | 0 <= i < |huge| :: huge[i] == Null
    ensures Less(Arr(huge), Arr([])) && Less(Arr([]), Arr(huge))
    ensures forall n: nat | n > 0x8000_0000 :: Comparable(Arr([]), n) && Comparable(Arr(huge), n)
  {
    assert ToInt32(|huge| - 0) == -0x8000_0000;
    assert ToInt32(0 - |huge|) == -0x8000_0000;
    forall n: nat | n > 0x8000_0000 ensures Comparable(Arr(huge), n) {
      forall i | 0 <= i < |huge| ensures Below(huge[i], n) && RealFree(huge[i]) { assert huge[i] == Null; }
    }
  }

  /** 2^31 is exactly the size up to which the order is one. */
  lemma OrderedExactlyBelowTwo31(n: nat)
    ensures StrictTotalOrderBelow(n) <==> n <= 0x8000_0000
  {
    if n <= 0x8000_0000 {
      forall v | Comparable(v, n) ensures Ordered(v) { BelowIsSmall(v, n); }
      forall a, b | Comparable(a, n) && Comparable(b, n)
        ensures !(Less(a, b) && Less(b, a)) && (Less(a, b) || Less(b, a) || a == b)
      {
        Trichotomy(a, b);
      }
      forall a, b, c | Comparable(a, n) && Comparable(b, n) && Comparable(c, n) && Less(a, b) && Less(b, c)
        ensures Less(a, c)
      {
        Transitive(a, b, c);
      }
    } else {
      HugeArraysAreNotOrdered(seq(0x8000_0000, _ => Null));
    }
  }
}
