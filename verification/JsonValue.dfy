/** The value type of the JSON library (class Value): its data, its ordering and its equality. */
module JsonValue {

  /** A byte of a string is a `char`; the source only ever holds characters below 256.
      `Real` keeps a double as the text it prints as, `NoStr` is a string value whose
      pointer is null, arrays are dense, and an object lists the entries of its
      std::map in key order. */
  datatype Value =
    | Null
    | Int(n: LargestInt)
    | UInt(u: LargestUInt)
    | Real(text: string)
    | NoStr
    | Str(s: string)
    | Bool(b: bool)
    | Arr(elems: seq<Value>)
    | Obj(members: seq<Member>)

  datatype Member = Member(name: string, value: Value)

  const MAX_INT := 0x7FFF_FFFF
  const MIN_INT64 := -0x8000_0000_0000_0000
  const MAX_INT64 := 0x7FFF_FFFF_FFFF_FFFF
  const MAX_UINT64 := 0xFFFF_FFFF_FFFF_FFFF

  type LargestInt = n: int | MIN_INT64 <= n <= MAX_INT64
  type LargestUInt = n: int | 0 <= n <= MAX_UINT64

  /** Number of values in the tree: the measure behind every recursion on pairs of values. */
  ghost function Size(v: Value): (n: nat)
    ensures n > 0
  {
    match v
    case Arr(elems) => 1 + SizeElems(elems)
    case Obj(members) => 1 + SizeMembers(members)
    case _ => 1
  }

  ghost function SizeElems(elems: seq<Value>): nat {
    if elems == [] then 0 else Size(elems[0]) + SizeElems(elems[1..])
  }

  ghost function SizeMembers(members: seq<Member>): nat {
    if members == [] then 0 else Size(members[0].value) + SizeMembers(members[1..])
  }

  // ---------- Byte strings: memcmp, then the length ----------

  /** The sign of memcmp over the first `n` bytes. */
  function Memcmp(a: string, b: string, n: nat): (r: int)
    requires n <= |a| && n <= |b|
  {
    if n == 0 then 0
    else if a[0] != b[0] then a[0] as int - b[0] as int
    else Memcmp(a[1..], b[1..], n - 1)
  }

  predicate KeyLess(a: string, b: string) {
    var comp := Memcmp(a, b, if |a| < |b| then |a| else |b|);
    if comp < 0 then true else if comp > 0 then false else |a| < |b|
  }

  predicate KeyEqual(a: string, b: string) {
    if |a| != |b| then false else Memcmp(a, b, |a|) == 0
  }

  /** Dictionary order, the independent reading of `KeyLess`. */
  ghost predicate DictionaryBefore(a: string, b: string) {
    exists k: nat :: FirstDifference(a, b, k) && (if k == |a| then k < |b| else k < |b| && a[k] < b[k])
  }

  ghost predicate FirstDifference(a: string, b: string, k: nat) {
    k <= |a| && k <= |b| && a[..k] == b[..k]
  }

  lemma {:induction false} KeyLessIsDictionaryOrder(a: string, b: string)
    ensures KeyLess(a, b) <==> DictionaryBefore(a, b)
    decreases |a|
  {
    if a == [] {
      if b != [] { assert FirstDifference(a, b, 0); }
    } else if b == [] {
    } else if a[0] != b[0] {
      if a[0] < b[0] { assert FirstDifference(a, b, 0); }
      forall k: nat | k > 0 ensures !FirstDifference(a, b, k) {
        if k <= |a| && k <= |b| { assert a[..k][0] == a[0] && b[..k][0] == b[0]; }
      }
    } else {
      KeyLessIsDictionaryOrder(a[1..], b[1..]);
      if KeyLess(a, b) {
        var k: nat :| FirstDifference(a[1..], b[1..], k) &&
          (if k == |a[1..]| then k < |b[1..]| else k < |b[1..]| && a[1..][k] < b[1..][k]);
        assert a[..k + 1] == [a[0]] + a[1..][..k] && b[..k + 1] == [b[0]] + b[1..][..k];
        assert FirstDifference(a, b, k + 1);
      }
      if DictionaryBefore(a, b) {
        var k: nat :| FirstDifference(a, b, k) && (if k == |a| then k < |b| else k < |b| && a[k] < b[k]);
        assert k > 0;
        assert a[1..][..k - 1] == a[..k][1..] && b[1..][..k - 1] == b[..k][1..];
        assert FirstDifference(a[1..], b[1..], k - 1);
      }
    }
  }

  lemma {:induction false} KeyTrichotomy(a: string, b: string)
    ensures !(KeyLess(a, b) && KeyLess(b, a))
    ensures !KeyLess(a, b) && !KeyLess(b, a) <==> a == b
    ensures KeyEqual(a, b) <==> a == b
    decreases |a|
  {
    if a != [] && b != [] && a[0] == b[0] {
      KeyTrichotomy(a[1..], b[1..]);
      assert a == [a[0]] + a[1..] && b == [b[0]] + b[1..];
    }
  }

  lemma {:induction false} KeyTransitive(a: string, b: string, c: string)
    requires KeyLess(a, b) && KeyLess(b, c)
    ensures KeyLess(a, c)
    decreases |a|
  {
    if a != [] && b != [] && c != [] && a[0] == b[0] && b[0] == c[0] {
      KeyTransitive(a[1..], b[1..], c[1..]);
    }
  }

  // ---------- operator<, operator==, compare ----------
  // The order of two doubles is not modelled: every result about these functions excludes them.

  function TypeTag(v: Value): int {
    match v
    case Null => 0
    case Int(_) => 1
    case UInt(_) => 2
    case Real(_) => 3
    case NoStr => 4
    case Str(_) => 4
    case Bool(_) => 5
    case Arr(_) => 6
    case Obj(_) => 7
  }

  /** The conversion of a size_t difference to a 32-bit int. */
  function ToInt32(n: int): (r: int)
    ensures -0x8000_0000 <= r < 0x8000_0000 && (n - r) % 0x1_0000_0000 == 0
    ensures -0x8000_0000 <= n < 0x8000_0000 ==> r == n
  {
    var m := n % 0x1_0000_0000;
    if m < 0x8000_0000 then m else m - 0x1_0000_0000
  }

  predicate Less(a: Value, b: Value)
    decreases Size(a) + Size(b), 0
  {
    if TypeTag(a) != TypeTag(b) then TypeTag(a) < TypeTag(b) else
    match a
    case Null => false
    case Int(n) => n < b.n
    case UInt(u) => u < b.u
    case Real(text) => KeyLess(text, b.text)
    case NoStr => b.Str?
    case Str(s) => b.Str? && KeyLess(s, b.s)
    case Bool(x) => !x && b.b
    case Arr(elems) =>
      var delta := ToInt32(|elems| - |b.elems|);
      if delta != 0 then delta < 0 else ElemsLess(elems, b.elems)
    case Obj(members) =>
      var delta := ToInt32(|members| - |b.members|);
      if delta != 0 then delta < 0 else MembersLess(members, b.members)
  }

  /** std::lexicographical_compare over the entries of two arrays; the indices agree. */
  predicate ElemsLess(a: seq<Value>, b: seq<Value>)
    decreases SizeElems(a) + SizeElems(b), 1
  {
    if b == [] then false
    else if a == [] then true
    else if Less(a[0], b[0]) then true
    else if Less(b[0], a[0]) then false
    else ElemsLess(a[1..], b[1..])
  }

  /** operator< of std::pair, key first. */
  predicate MemberLess(a: Member, b: Member)
    decreases Size(a.value) + Size(b.value), 1
  {
    KeyLess(a.name, b.name) || (!KeyLess(b.name, a.name) && Less(a.value, b.value))
  }

  predicate MembersLess(a: seq<Member>, b: seq<Member>)
    decreases SizeMembers(a) + SizeMembers(b), 2
  {
    if b == [] then false
    else if a == [] then true
    else if MemberLess(a[0], b[0]) then true
    else if MemberLess(b[0], a[0]) then false
    else MembersLess(a[1..], b[1..])
  }

  predicate Equal(a: Value, b: Value)
    decreases a
  {
    if TypeTag(a) != TypeTag(b) then false else
    match a
    case Null => true
    case Int(n) => n == b.n
    case UInt(u) => u == b.u
    case Real(text) => KeyEqual(text, b.text)
    case NoStr => b.NoStr?
    case Str(s) => b.Str? && KeyEqual(s, b.s)
    case Bool(x) => x == b.b
    case Arr(elems) => |elems| == |b.elems| && forall i | 0 <= i < |elems| :: Equal(elems[i], b.elems[i])
    case Obj(members) =>
      |members| == |b.members| &&
      forall i | 0 <= i < |members| ::
        KeyEqual(members[i].name, b.members[i].name) && Equal(members[i].value, b.members[i].value)
  }

  function Compare(a: Value, b: Value): int {
    if Less(a, b) then -1 else if Less(b, a) then 1 else 0
  }

  /** No container holds 2^31 entries or more, so the 32-bit size difference is exact. */
  ghost predicate Small(v: Value) {
    match v
    case Arr(elems) => |elems| < 0x8000_0000 && forall i | 0 <= i < |elems| :: Small(elems[i])
    case Obj(members) => |members| < 0x8000_0000 && forall i | 0 <= i < |members| :: Small(members[i].value)
    case _ => true
  }

  ghost predicate RealFree(v: Value) {
    match v
    case Real(_) => false
    case Arr(elems) => forall i | 0 <= i < |elems| :: RealFree(elems[i])
    case Obj(members) => forall i | 0 <= i < |members| :: RealFree(members[i].value)
    case _ => true
  }
}
