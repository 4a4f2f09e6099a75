/** Class Json::Path without format arguments: makePath and resolve with a default. */
module JsonPath {
  import opened JsonValue
  import opened JsonNumbers

  datatype Arg = Index(index: int) | Key(name: string)

  const TWO_32 := 0x1_0000_0000

  /** The arguments of a path, or `Loops` where makePath would push empty names for ever. */
  datatype Parsed = Args(args: seq<Arg>) | Loops

  function Push(arg: Arg, rest: Parsed): Parsed {
    match rest
    case Args(args) => Args([arg] + args)
    case Loops => Loops
  }

  // ---------- makePath ----------

  function LeadingDigits(s: string): (n: nat)
    ensures n <= |s| && IsDigits(s[..n])
    ensures n < |s| ==> !IsDigit(s[n])
  {
    if s == [] || !IsDigit(s[0]) then 0
    else
      var n := LeadingDigits(s[1..]);
      assert s[..n + 1] == [s[0]] + s[1..][..n];
      n + 1
  }

  /** strchr also finds the terminating null of the set "[.". */
  predicate EndsName(c: char) { c == '[' || c == '.' || c == '\0' }

  function NameLength(s: string): (n: nat)
    ensures n <= |s| && (n < |s| ==> EndsName(s[n]))
    ensures forall i | 0 <= i < n :: !EndsName(s[i])
  {
    if s == [] || EndsName(s[0]) then 0 else 1 + NameLength(s[1..])
  }

  /** Path::makePath; a 32-bit index wraps, and a format argument is never found. */
  function ParsePath(s: string): Parsed {
    if s == [] then Args([])
    else if s[0] == '[' then
      if |s| > 1 && s[1] == '%' then ParsePath(s[2..])
      else
        var n := LeadingDigits(s[1..]);
        Push(Index(DigitsValue(s[1..][..n]) % TWO_32), if n + 1 == |s| then Args([]) else ParsePath(s[n + 2..]))
    else if s[0] == '%' || s[0] == '.' then ParsePath(s[1..])
    else
      var n := NameLength(s);
      if n == 0 then Loops else Push(Key(s[..n]), ParsePath(s[n..]))
  }

  lemma WrapStep(v: nat, d: nat)
    ensures (v % TWO_32 * 10 + d) % TWO_32 == (v * 10 + d) % TWO_32
  {
    var q := v / TWO_32;
    assert v == q * TWO_32 + v % TWO_32;
    assert v * 10 + d == (v % TWO_32 * 10 + d) + (q * 10) * TWO_32;
    ModPlusMultiple(v % TWO_32 * 10 + d, q * 10);
  }

  lemma {:induction false} ModPlusMultiple(a: nat, q: nat)
    ensures (a + q * TWO_32) % TWO_32 == a % TWO_32
  {
    if q > 0 {
      ModPlusMultiple(a, q - 1);
      assert a + q * TWO_32 == a + (q - 1) * TWO_32 + TWO_32;
    }
  }

  method ReadIndex(path: string, start: nat) returns (current: nat, index: nat)
    requires start <= |path|
    ensures current == start + LeadingDigits(path[start..])
    ensures index == DigitsValue(path[start..][..current - start]) % TWO_32
  {
    current, index := start, 0;
    ghost var t := path[start..];
    assert t[..0] == [];
    while current != |path| && '0' <= path[current] <= '9'
      invariant start <= current <= |path| && IsDigits(t[..current - start])
      invariant index == DigitsValue(t[..current - start]) % TWO_32
    {
      ghost var k := current - start;
      assert t[k] == path[current];
      NextDigit(t, k);
      WrapStep(DigitsValue(t[..k]), DigitValue(path[current]));
      index := (index * 10 + (path[current] as int - '0' as int)) % TWO_32;
      current := current + 1;
    }
    DigitsEnd(t, current - start);
  }

  lemma {:induction false} DigitsEnd(s: string, n: nat)
    requires n <= |s| && IsDigits(s[..n]) && (n < |s| ==> !IsDigit(s[n]))
    ensures LeadingDigits(s) == n
  {
    if n > 0 {
      assert s[..n][0] == s[0] && s[1..][..n - 1] == s[..n][1..];
      DigitsEnd(s[1..], n - 1);
    }
  }

  lemma {:induction false} NameEnd(s: string, n: nat)
    requires n <= |s| && (n < |s| ==> EndsName(s[n]))
    requires forall i | 0 <= i < n :: !EndsName(s[i])
    ensures NameLength(s) == n
  {
    if n > 0 {
      assert !EndsName(s[0]);
      forall i | 0 <= i < n - 1 ensures !EndsName(s[1..][i]) { assert !EndsName(s[i + 1]); }
      NameEnd(s[1..], n - 1);
    }
  }

  /** The arguments already parsed, put before those to come. */
  function After(args: seq<Arg>, rest: Parsed): Parsed {
    match rest
    case Args(more) => Args(args + more)
    case Loops => Loops
  }

  lemma AfterPush(args: seq<Arg>, arg: Arg, rest: Parsed)
    ensures After(args, Push(arg, rest)) == After(args + [arg], rest)
  {
    if rest.Args? { assert args + ([arg] + rest.args) == args + [arg] + rest.args; }
  }

  /** What makePath does behind an opening bracket. */
  method ParseIndex(path: string, start: nat, args: seq<Arg>) returns (current: nat, args': seq<Arg>)
    requires start < |path| && path[start] == '['
    ensures start < current <= |path|
    ensures After(args, ParsePath(path[start..])) == After(args', ParsePath(path[current..]))
  {
    ghost var s := path[start..];
    current, args' := start + 1, args;
    assert path[current..] == s[1..];
    if current != |path| && path[current] == '%' {
      current := current + 1;
      assert path[current..] == s[2..];
    } else {
      var index;
      current, index := ReadIndex(path, current);
      args' := args + [Index(index)];
      if current != |path| {
        current := current + 1;
      }
      ghost var n := LeadingDigits(s[1..]);
      assert path[current..] == if current == start + 1 + n then [] else s[n + 2..];
      AfterPush(args, Index(index), ParsePath(path[current..]));
    }
  }

  /** A name: everything up to the next separator. */
  method ParseName(path: string, start: nat, args: seq<Arg>) returns (current: nat, args': seq<Arg>)
    requires start < |path| && path[start] !in {'[', '%', '.', '\0'}
    ensures start < current <= |path|
    ensures After(args, ParsePath(path[start..])) == After(args', ParsePath(path[current..]))
  {
    ghost var s := path[start..];
    current := start;
    while current != |path| && path[current] != '[' && path[current] != '.' && path[current] != '\0'
      invariant start <= current <= |path|
      invariant forall i | 0 <= i < current - start :: !EndsName(s[i])
    {
      current := current + 1;
    }
    NameEnd(s, current - start);
    assert path[start..current] == s[..current - start] && path[current..] == s[current - start..];
    args' := args + [Key(path[start..current])];
    AfterPush(args, Key(path[start..current]), ParsePath(path[current..]));
  }

  /** A null byte where a name could begin. Behind an opening bracket digits are passed, and so is
      the one character behind them, whatever it is. */
  predicate Hangs(path: string, inIndex: bool) {
    if path == [] then false
    else if inIndex then Hangs(path[1..], IsDigit(path[0]))
    else path[0] == '\0' || Hangs(path[1..], path[0] == '[')
  }

  lemma {:induction false} IndexHangs(s: string)
    ensures Hangs(s, true) == Hangs(s[LeadingDigits(s)..], true)
  {
    if s != [] && IsDigit(s[0]) {
      IndexHangs(s[1..]);
      assert s[LeadingDigits(s)..] == s[1..][LeadingDigits(s[1..])..];
    } else {
      assert s[0..] == s;
    }
  }

  lemma {:induction false} NameHangs(s: string)
    ensures Hangs(s, false) == Hangs(s[NameLength(s)..], false)
  {
    if s != [] && !EndsName(s[0]) {
      NameHangs(s[1..]);
      assert s[NameLength(s)..] == s[1..][NameLength(s[1..])..];
    } else {
      assert s[0..] == s;
    }
  }

  /** makePath does not end exactly on the paths with a null byte where a name could begin. */
  lemma {:induction false} LoopsExactlyWhenHanging(s: string)
    ensures ParsePath(s).Loops? <==> Hangs(s, false)
    decreases |s|
  {
    if s != [] {
      var t := s[1..];
      if s[0] == '[' {
        if t != [] && t[0] == '%' {
          assert t[1..] == s[2..];
          LoopsExactlyWhenHanging(s[2..]);
        } else {
          var n := LeadingDigits(t);
          IndexHangs(t);
          if n + 1 != |s| {
            assert t[n..][1..] == s[n + 2..];
            LoopsExactlyWhenHanging(s[n + 2..]);
          }
        }
      } else if s[0] == '%' || s[0] == '.' {
        LoopsExactlyWhenHanging(t);
      } else {
        NameHangs(s);
        if NameLength(s) > 0 { LoopsExactlyWhenHanging(s[NameLength(s)..]); }
      }
    }
  }

  method MakePath(path: string) returns (args: seq<Arg>)
    requires !Hangs(path, false)
    ensures Args(args) == ParsePath(path)
  {
    LoopsExactlyWhenHanging(path);
    var current := 0;
    args := [];
    assert path[0..] == path;
    while current != |path|
      invariant 0 <= current <= |path|
      invariant ParsePath(path) == After(args, ParsePath(path[current..]))
      decreases |path| - current
    {
      if path[current] == '[' {
        current, args := ParseIndex(path, current, args);
      } else if path[current] == '%' || path[current] == '.' {
        assert path[current..][1..] == path[current + 1..];
        current := current + 1;
      } else {
        assert NameLength(path[current..]) != 0;
        current, args := ParseName(path, current, args);
      }
    }
    assert path[current..] == [];
    assert args + [] == args;
  }

  /** makePath terminates on every string without null bytes. */
  lemma NulFreePathTerminates(s: string)
    requires '\0' !in s
    ensures ParsePath(s).Args?
  {
    NulFreeNeverHangs(s, false);
    LoopsExactlyWhenHanging(s);
  }

  lemma {:induction false} NulFreeNeverHangs(s: string, inIndex: bool)
    requires '\0' !in s
    ensures !Hangs(s, inIndex)
  {
    if s != [] { NulFreeNeverHangs(s[1..], if inIndex then IsDigit(s[0]) else s[0] == '['); }
  }

  /** A null byte at the start of a name is not passed. */
  lemma NulInNameLoops(s: string)
    ensures ParsePath(".\0" + s) == Loops
  {
    var t := ".\0" + s;
    assert t[1..][0] == '\0';
    assert NameLength(t[1..]) == 0;
    assert ParsePath(t[1..]) == Loops;
  }

  // ---------- Rendering ----------

  /** Arguments a path can spell: 32-bit indices and names without separators. */
  predicate Spellable(arg: Arg) {
    match arg
    case Index(n) => 0 <= n < TWO_32
    case Key(name) => name != "" && name[0] != '%' && forall i | 0 <= i < |name| :: !EndsName(name[i])
  }

  ghost predicate AllSpellable(args: seq<Arg>) { forall i | 0 <= i < |args| :: Spellable(args[i]) }

  function RenderArg(arg: Arg): string
    requires Spellable(arg)
  {
    match arg
    case Index(n) => "[" + Digits(n) + "]"
    case Key(name) => "." + name
  }

  function Render(args: seq<Arg>): (s: string)
    requires AllSpellable(args)
    ensures s != [] ==> s[0] == '[' || s[0] == '.'
  {
    if args == [] then "" else RenderArg(args[0]) + Render(args[1..])
  }

  lemma BracketSlices(d: string, c: char, rest: string)
    requires IsDigits(d) && !IsDigit(c) && (d == [] ==> c != '%')
    ensures var s := "[" + d + [c] + rest;
            && s[0] == '[' && s[1] != '%' && |s| > |d| + 1 && s[|d| + 2..] == rest
            && LeadingDigits(s[1..]) == |d| && s[1..][..|d|] == d
  {
    var s := "[" + d + [c] + rest;
    var t := s[1..];
    assert t == d + ([c] + rest);
    assert t[..|d|] == d && t[|d|] == c && s[1] == if d == [] then c else d[0];
    DigitsEnd(t, |d|);
  }

  /** Digits behind an opening bracket are an index modulo 2^32, leading zeros or none at all included;
      whatever character follows them is passed. */
  lemma IndexParses(d: string, n: nat, c: char, rest: string)
    requires DecimalSpells(d, n) && c !in DECIMALS && (d == [] ==> c != '%')
    ensures ParsePath("[" + d + [c] + rest) == Push(Index(n % 4294967296), ParsePath(rest))
  {
    hide DecimalSpells, DigitsValue, LeadingDigits, IsDigits;
    DigitsValueExactly(d, n);
    if IsDigit(c) { DecimalsExactly(c, DigitValue(c)); }
    BracketSlices(d, c, rest);
  }

  /** A dot does nothing, and neither does a format argument, which is never supplied. */
  lemma MarkersParse(rest: string)
    ensures ParsePath("." + rest) == ParsePath("%" + rest) == ParsePath("[%" + rest) == ParsePath(rest)
  {
    assert ("." + rest)[1..] == rest && ("%" + rest)[1..] == rest && ("[%" + rest)[2..] == rest;
  }

  lemma NameParses(name: string, rest: string)
    requires Spellable(Key(name)) && (rest != [] ==> EndsName(rest[0]))
    ensures ParsePath("." + name + rest) == Push(Key(name), ParsePath(rest))
  {
    var s := "." + name + rest;
    var t := s[1..];
    assert t == name + rest;
    forall i | 0 <= i < |name| ensures !EndsName(t[i]) { assert t[i] == name[i]; }
    if rest != [] { assert t[|name|] == rest[0]; }
    NameEnd(t, |name|);
    assert t[..|name|] == name && t[|name|..] == rest;
    assert t[0] == name[0];
    assert ParsePath(s) == ParsePath(t);
  }

  lemma NothingParses()
    ensures ParsePath("") == Args([])
  {
  }

  /** makePath reads every rendered argument list back. */
  lemma {:induction false} RenderedPathParses(args: seq<Arg>)
    requires AllSpellable(args)
    ensures ParsePath(Render(args)) == Args(args)
  {
    hide ParsePath, Digits, DecimalSpells, DigitsValue;
    if args == [] {
      assert ParsePath("") == Args([]) by { NothingParses(); }
    } else {
      var rest := Render(args[1..]);
      RenderedPathParses(args[1..]);
      assert args == [args[0]] + args[1..];
      match args[0] {
        case Index(n) =>
          DigitsDenote(n);
          DigitsValueExactly(Digits(n), n);
          assert ']' !in DECIMALS;
          IndexParses(Digits(n), n, ']', rest);
        case Key(name) => NameParses(name, rest);
      }
    }
  }

  lemma {:induction false} ParsedArgsAreSpellable(s: string)
    requires ParsePath(s).Args?
    ensures AllSpellable(ParsePath(s).args)
    decreases |s|
  {
    hide DigitsValue, IsDigits;
    if s != [] {
      if s[0] == '[' {
        var n := LeadingDigits(s[1..]);
        if |s| > 1 && s[1] == '%' {
          ParsedArgsAreSpellable(s[2..]);
        } else if n + 1 < |s| {
          ParsedArgsAreSpellable(s[n + 2..]);
        }
      } else if s[0] == '%' || s[0] == '.' {
        ParsedArgsAreSpellable(s[1..]);
      } else {
        ParsedArgsAreSpellable(s[NameLength(s)..]);
      }
    }
  }

  /** Some path parses to a list of arguments exactly when all of them can be spelled. */
  lemma PathsSpellExactly(args: seq<Arg>)
    ensures (exists path :: ParsePath(path) == Args(args)) <==> AllSpellable(args)
  {
    hide ParsePath;
    if AllSpellable(args) { RenderedPathParses(args); }
    if exists path :: ParsePath(path) == Args(args) {
      var path :| ParsePath(path) == Args(args);
      ParsedArgsAreSpellable(path);
    }
  }

  // ---------- resolve ----------

  ghost predicate IsChild(parent: Value, arg: Arg, child: Value) {
    match arg
    case Index(n) => parent.Arr? && 0 <= n < |parent.elems| && child == parent.elems[n]
    case Key(name) => parent.Obj? && Member(name, child) in parent.members
  }

  /** `nodes` leads from the root to a node, one argument a step. */
  ghost predicate Trail(root: Value, args: seq<Arg>, nodes: seq<Value>) {
    |nodes| == |args| + 1 && nodes[0] == root &&
    forall i | 0 <= i < |args| :: IsChild(nodes[i], args[i], nodes[i + 1])
  }

  /** The entries of every map have different keys. */
  ghost predicate UniqueNames(v: Value) {
    match v
    case Arr(elems) => forall i | 0 <= i < |elems| :: UniqueNames(elems[i])
    case Obj(members) =>
      (forall i, j | 0 <= i < j < |members| :: members[i].name != members[j].name) &&
      forall i | 0 <= i < |members| :: UniqueNames(members[i].value)
    case _ => true
  }

  datatype Found = Missing | Present(value: Value)

  /** std::map::find */
  method Find(members: seq<Member>, name: string) returns (r: Found)
    ensures r.Present? ==> Member(name, r.value) in members
    ensures r.Missing? ==> forall m | m in members :: m.name != name
  {
    for i := 0 to |members|
      invariant forall k | 0 <= k < i :: members[k].name != name
    {
      KeyTrichotomy(name, members[i].name);
      if KeyEqual(name, members[i].name) {
        assert members[i] == Member(name, members[i].value);
        return Present(members[i].value);
      }
    }
    return Missing;
  }

  /** The node the arguments lead to, and the default exactly when they lead nowhere: some step
      meets a value of the wrong kind, a missing key or an index out of range. */
  method Resolve(root: Value, args: seq<Arg>, default: Value) returns (r: Value)
    requires UniqueNames(root)
    ensures (exists nodes :: Trail(root, args, nodes) && r == nodes[|args|])
         || ((forall nodes :: !Trail(root, args, nodes)) && r == default)
  {
    r := root;
    ghost var nodes := [root];
    for i := 0 to |args|
      invariant Trail(root, args[..i], nodes) && r == nodes[i] && UniqueNames(r)
      invariant forall other :: Trail(root, args, other) ==> other[..i + 1] == nodes
    {
      var arg := args[i];
      ghost var parent := r;
      match arg {
        case Index(n) =>
          if !r.Arr? || n < 0 || n >= |r.elems| {
            NoTrail(root, args, nodes, i);
            return default;
          }
          r := r.elems[n];
        case Key(name) =>
          if !r.Obj? {
            NoTrail(root, args, nodes, i);
            return default;
          }
          var found := Find(r.members, name);
          if found.Missing? {
            NoTrail(root, args, nodes, i);
            return default;
          }
          r := found.value;
      }
      assert IsChild(parent, arg, r);
      TrailExtends(root, args, nodes, i, r);
      nodes := nodes + [r];
    }
    assert args[..|args|] == args;
  }

  lemma NoTrail(root: Value, args: seq<Arg>, nodes: seq<Value>, i: nat)
    requires i < |args| && |nodes| == i + 1
    requires forall child :: !IsChild(nodes[i], args[i], child)
    requires forall other :: Trail(root, args, other) ==> other[..i + 1] == nodes
    ensures forall other :: !Trail(root, args, other)
  {
    forall other ensures !Trail(root, args, other) {
      if |other| > i + 1 && other[..i + 1] == nodes {
        assert other[i] == other[..i + 1][i];
        assert !IsChild(other[i], args[i], other[i + 1]);
      }
    }
  }

  lemma TrailExtends(root: Value, args: seq<Arg>, nodes: seq<Value>, i: nat, child: Value)
    requires i < |args| && Trail(root, args[..i], nodes) && UniqueNames(nodes[i]) && IsChild(nodes[i], args[i], child)
    requires forall other :: Trail(root, args, other) ==> other[..i + 1] == nodes
    ensures Trail(root, args[..i + 1], nodes + [child]) && UniqueNames(child)
    ensures forall other :: Trail(root, args, other) ==> other[..i + 2] == nodes + [child]
  {
    var longer := nodes + [child];
    forall k | 0 <= k < i + 1 ensures IsChild(longer[k], args[..i + 1][k], longer[k + 1]) {
      if k < i { assert IsChild(nodes[k], args[..i][k], nodes[k + 1]); }
    }
    forall other | Trail(root, args, other) ensures other[..i + 2] == longer {
      assert other[..i + 1][i] == nodes[i];
      assert IsChild(other[i], args[i], other[i + 1]);
      assert other[..i + 2] == other[..i + 1] + [other[i + 1]];
    }
  }

  /** `Path(path).resolve(root, default)` finds every node of the tree by its rendered path. */
  method FindByPath(root: Value, path: string, default: Value, ghost args: seq<Arg>, ghost nodes: seq<Value>)
    returns (r: Value)
    requires UniqueNames(root) && Trail(root, args, nodes)
    requires AllSpellable(args)
    requires path == Render(args)
    ensures r == nodes[|args|]
  {
    RenderedPathParses(args);
    LoopsExactlyWhenHanging(path);
    var parsed := MakePath(path);
    r := Resolve(root, parsed, default);
    TrailIsUnique(root, args);
  }

  lemma {:induction false} TrailIsUnique(root: Value, args: seq<Arg>)
    requires UniqueNames(root)
    ensures forall a, b :: Trail(root, args, a) && Trail(root, args, b) ==> a == b
    decreases |args|
  {
    if args != [] {
      forall a, b | Trail(root, args, a) && Trail(root, args, b) ensures a == b {
        assert IsChild(a[0], args[0], a[1]) && IsChild(b[0], args[0], b[1]);
        assert a[1] == b[1];
        forall i | 0 <= i < |args| - 1
          ensures IsChild(a[1..][i], args[1..][i], a[1..][i + 1]) && IsChild(b[1..][i], args[1..][i], b[1..][i + 1])
        {
          assert IsChild(a[i + 1], args[i + 1], a[i + 2]) && IsChild(b[i + 1], args[i + 1], b[i + 2]);
        }
        TrailIsUnique(a[1], args[1..]);
        assert Trail(a[1], args[1..], a[1..]) && Trail(a[1], args[1..], b[1..]);
        assert a == [root] + a[1..] && b == [root] + b[1..];
      }
    }
  }
}
