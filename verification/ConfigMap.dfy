/** config_map: a left-child/right-sibling tree of sections and values, refined to a map. */
module ConfigMap {
  import opened Wrappers
  import opened ConfigPaths
  import opened Sequences

  // ---------- The map the tree stands for ----------

  /** The current section, the sections that exist, and the value of every path and key. */
  datatype Conf = Conf(cur: Path, sections: set<Path>, values: map<(Path, string), string>)

  const EMPTY := Conf([], {[]}, map[])

  /** One step into a section, which is created when it does not exist. */
  function Enter(c: Conf, segment: string): Conf {
    c.(cur := c.cur + [segment], sections := c.sections + {c.cur + [segment]})
  }

  function EnterAll(c: Conf, segments: Path): Conf
    decreases segments
  {
    if segments == [] then c else EnterAll(Enter(c, segments[0]), segments[1..])
  }

  lemma EnterFirst(c: Conf, segments: Path)
    requires segments != []
    ensures EnterAll(c, segments) == EnterAll(Enter(c, segments[0]), segments[1..])
  {
  }

  function SetSectionOf(c: Conf, key: string): Conf {
    EnterAll(c.(cur := []), Segments(key))
  }

  function SetValueOf(c: Conf, key: string, value: string): Conf {
    c.(values := c.values[(c.cur, key) := value])
  }

  function GetValueOf(c: Conf, key: string): Option<string> {
    if (c.cur, key) in c.values then Some(c.values[(c.cur, key)]) else None
  }

  // ---------- Histories ----------

  datatype Op = Section(key: string) | Set(key: string, value: string)

  function Do(c: Conf, op: Op): Conf {
    match op
    case Section(key) => SetSectionOf(c, key)
    case Set(key, value) => SetValueOf(c, key, value)
  }

  function Run(ops: seq<Op>): Conf {
    if ops == [] then EMPTY else Do(Run(ops[..|ops| - 1]), ops[|ops| - 1])
  }

  /** The segments of the section key used last; none before the first. */
  function Selected(ops: seq<Op>): Path {
    if ops == [] then []
    else if ops[|ops| - 1].Section? then Segments(ops[|ops| - 1].key)
    else Selected(ops[..|ops| - 1])
  }

  /** Operation `i` sets the value of a key at a path. */
  predicate Sets(ops: seq<Op>, i: nat, path: Path, key: string)
    requires i < |ops|
  {
    ops[i].Set? && ops[i].key == key && Selected(ops[..i]) == path
  }

  lemma {:induction false} EnterAllEndsBelow(c: Conf, segments: Path)
    ensures EnterAll(c, segments).cur == c.cur + segments && EnterAll(c, segments).values == c.values
    decreases segments
  {
    if segments == [] {
      assert c.cur + segments == c.cur;
    } else {
      EnterAllEndsBelow(Enter(c, segments[0]), segments[1..]);
      assert c.cur + [segments[0]] + segments[1..] == c.cur + segments;
    }
  }

  lemma {:induction false} RunSelects(ops: seq<Op>)
    ensures Run(ops).cur == Selected(ops)
  {
    if ops != [] {
      var before, op := Run(ops[..|ops| - 1]), ops[|ops| - 1];
      RunSelects(ops[..|ops| - 1]);
      if op.Section? {
        EnterAllEndsBelow(before.(cur := []), Segments(op.key));
        assert [] + Segments(op.key) == Segments(op.key);
      }
    }
  }

  /** The last operation that sets a key at a path. */
  function LastSet(ops: seq<Op>, path: Path, key: string): (r: Option<nat>)
    ensures r.Some? ==> r.value < |ops| && Sets(ops, r.value, path, key)
    ensures forall i: nat | (r.Some? ==> r.value < i) && i < |ops| :: !Sets(ops, i, path, key)
  {
    if ops == [] then None
    else
      var n := |ops| - 1;
      if Sets(ops, n, path, key) then Some(n)
      else
        assert forall i: nat | i < n :: Sets(ops, i, path, key) == Sets(ops[..n], i, path, key) by {
          assert forall i: nat | i < n :: ops[..i] == ops[..n][..i];
        }
        LastSet(ops[..n], path, key)
  }

  /** After any history a path and key have the value that was set last, if one was. */
  lemma {:induction false} LastSetWins(ops: seq<Op>, path: Path, key: string)
    ensures (path, key) in Run(ops).values <==> LastSet(ops, path, key).Some?
    ensures (path, key) in Run(ops).values ==>
              Run(ops).values[(path, key)] == ops[LastSet(ops, path, key).value].value
  {
    if ops != [] {
      var n := |ops| - 1;
      var before := ops[..n];
      LastSetWins(before, path, key);
      RunSelects(before);
      if ops[n].Section? { EnterAllEndsBelow(Run(before).(cur := []), Segments(ops[n].key)); }
    }
  }

  /** What get_value answers after a history: the last value set under the path of the section
      used last, and nothing when there is none. */
  lemma GetReturnsLastSet(ops: seq<Op>, key: string)
    ensures var last := LastSet(ops, Selected(ops), key);
            GetValueOf(Run(ops), key) == if last.Some? then Some(ops[last.value].value) else None
  {
    RunSelects(ops);
    LastSetWins(ops, Selected(ops), key);
  }

  // ---------- The tree ----------

  datatype Kind = SECTION | VALUE

  class Node {
    const kind: Kind
    const key: string
    var value: string
    var left: Node?
    var right: Node?

    constructor (key: string, value: string, kind: Kind)
      ensures this.key == key && this.value == value && this.kind == kind && left == null && right == null
    {
      this.kind, this.key, this.value := kind, key, value;
      left, right := null, null;
    }
  }

  /** What the links of the nodes are to represent. A value has the path of its section. */
  datatype Shape = Shape(
    root: Node,
    nodes: set<Node>,
    kids: map<Node, seq<Node>>,
    next: map<Node, Node?>,
    parent: map<Node, Node>,
    path: map<Node, Path>)
  {
    ghost predicate Child(p: Node, i: nat, c: Node) {
      p in kids && i < |kids[p]| && kids[p][i] == c
    }

    ghost predicate Domains() {
      root in nodes && kids.Keys == nodes && path.Keys == nodes && next.Keys == nodes && parent.Keys == nodes - {root}
    }

    /** Every node but the root is a child of its parent, a section. */
    ghost predicate Parented()
      requires Domains()
    {
      forall c | c in parent :: parent[c] in nodes && parent[c].kind == SECTION && exists i: nat ::
          Child(parent[c], i, c)
    }

    /** A node has one parent and one place among its siblings. */
    ghost predicate Unshared()
      requires Domains()
    {
      && (forall p, i: nat | p in nodes && i < |kids[p]| :: kids[p][i] in parent && parent[kids[p][i]] == p)
      && (forall p, i: nat, j: nat | p in nodes && i < j < |kids[p]| :: kids[p][i] != kids[p][j])
    }

    /** The i-th child, or null behind the last. */
    ghost function KidAt(p: Node, i: nat): Node?
      requires p in kids
    {
      if i < |kids[p]| then kids[p][i] else null
    }

    ghost predicate Chained()
      requires Domains()
    {
      next[root] == null &&
      forall p, i: nat | p in nodes && i < |kids[p]| :: kids[p][i] in nodes && next[kids[p][i]] == KidAt(p, i + 1)
    }

    ghost predicate Tree() {
      Domains() && Parented() && Unshared() && Chained()
    }

    ghost predicate PathsFollowParents()
      requires Tree()
    {
      root.kind == SECTION && path[root] == [] &&
      forall c | c in parent :: path[c] == ChildPath(parent[c], c.kind, c.key)
    }

    /** Sections have different paths. */
    ghost predicate SectionsApart()
      requires Tree()
    {
      forall a, b | a in nodes && b in nodes && a.kind == SECTION && b.kind == SECTION && path[a] == path[b] :: a == b
    }

    /** Values of one section have different keys. */
    ghost predicate ValuesApart()
      requires Tree()
    {
      forall a, b | a in nodes && b in nodes && a.kind == VALUE && b.kind == VALUE && path[a] == path[b]
          && a.key == b.key :: a == b
    }

    ghost predicate Keyed()
      requires Tree()
    {
      PathsFollowParents() && SectionsApart() && ValuesApart()
    }

    ghost predicate Valid() {
      Tree() && Keyed()
    }

    ghost function ChildPath(p: Node, kind: Kind, key: string): Path
      requires p in path
    {
      if kind == SECTION then path[p] + [key] else path[p]
    }

    ghost predicate SectionAt(n: Node, p: Path)
      requires Tree()
    {
      n in nodes && n.kind == SECTION && path[n] == p
    }

    ghost predicate ValueAt(n: Node, p: Path, key: string)
      requires Tree()
    {
      n in nodes && n.kind == VALUE && path[n] == p && n.key == key
    }

    /** A new first child. */
    ghost function Grow(cur: Node, pos: Node): Shape
      requires cur in kids && cur in path
    {
      Shape(root, nodes + {pos},
            kids[cur := [pos] + kids[cur]][pos := []],
            next[pos := KidAt(cur, 0)],
            parent[pos := cur],
            path[pos := ChildPath(cur, pos.kind, pos.key)])
    }

    /** The path or key of a node that can be added is not taken. */
    ghost predicate Free(cur: Node, kind: Kind, key: string)
      requires Tree() && cur in path
    {
      if kind == SECTION then forall n | n in nodes :: !SectionAt(n, path[cur] + [key])
      else forall n | n in nodes :: !ValueAt(n, path[cur], key)
    }

    /** A search of the sibling list that misses means that the path or key is not taken at all. */
    lemma NotAmongSiblings(cur: Node, kind: Kind, key: string)
      requires Valid() && cur in nodes && cur.kind == SECTION
      requires forall i: nat | i < |kids[cur]| :: !(kids[cur][i].kind == kind && kids[cur][i].key == key)
      ensures Free(cur, kind, key)
    {
      forall n | n in parent && n.kind == kind && n.key == key ensures path[parent[n]] != path[cur] {
        var i: nat :| Child(parent[n], i, n);
        assert kids[parent[n]][i] == n;
        assert parent[n] != cur;
      }
      if kind == SECTION {
        forall n | n in nodes ensures !SectionAt(n, path[cur] + [key]) {
          if n in parent { LastSegment(path[parent[n]], n.key, path[cur], key); }
        }
      }
    }

    lemma TreeGrows(cur: Node, pos: Node)
      requires Tree() && cur in nodes && cur.kind == SECTION && pos !in nodes
      ensures Grow(cur, pos).Tree()
    {
      hide Parented, Unshared, Chained, Grow;
      GrownKids(cur, pos);
      StaysParented(cur, pos);
      StaysUnshared(cur, pos);
      StaysChained(cur, pos);
    }

    lemma GrownKids(cur: Node, pos: Node)
      requires Domains() && cur in nodes && pos !in nodes
      ensures var g := Grow(cur, pos);
              && g.Domains() && g.root == root && g.nodes == nodes + {pos} && g.parent == parent[pos := cur]
              && g.kids[pos] == [] && g.kids[cur] == [pos] + kids[cur] && g.next == next[pos := KidAt(cur, 0)]
              && (forall p | p in nodes && p != cur :: g.kids[p] == kids[p])
    {
    }

    lemma StaysParented(cur: Node, pos: Node)
      requires Domains() && Parented() && cur in nodes && cur.kind == SECTION && pos !in nodes
          && Grow(cur, pos).Domains()
      ensures Grow(cur, pos).Parented()
    {
      hide Grow;
      GrownKids(cur, pos);
      var g := Grow(cur, pos);
      forall c | c in g.parent
        ensures g.parent[c] in g.nodes && g.parent[c].kind == SECTION && exists i: nat :: g.Child(g.parent[c], i, c)
      {
        if c == pos {
          assert g.Child(cur, 0, c);
        } else {
          var i: nat :| Child(parent[c], i, c);
          assert g.Child(parent[c], if parent[c] == cur then i + 1 else i, c);
        }
      }
    }

    lemma StaysUnshared(cur: Node, pos: Node)
      requires Domains() && Unshared() && cur in nodes && pos !in nodes && Grow(cur, pos).Domains()
      ensures Grow(cur, pos).Unshared()
    {
      hide Grow;
      GrownKids(cur, pos);
      var g := Grow(cur, pos);
      forall p, i: nat | p in g.nodes && i < |g.kids[p]|
        ensures g.kids[p][i] in g.parent && g.parent[g.kids[p][i]] == p
      {
        if p == cur && i > 0 { assert g.kids[p][i] == kids[p][i - 1]; }
      }
      forall p, i: nat, j: nat | p in g.nodes && i < j < |g.kids[p]| ensures g.kids[p][i] != g.kids[p][j] {
        if p == cur {
          assert g.kids[p][j] == kids[p][j - 1];
          if i > 0 { assert g.kids[p][i] == kids[p][i - 1]; }
        }
      }
    }

    lemma StaysChained(cur: Node, pos: Node)
      requires Domains() && Chained() && cur in nodes && pos !in nodes && Grow(cur, pos).Domains()
      ensures Grow(cur, pos).Chained()
    {
      hide Grow;
      GrownKids(cur, pos);
      var g := Grow(cur, pos);
      forall p, i: nat | p in g.nodes && i < |g.kids[p]|
        ensures g.kids[p][i] in g.nodes && g.next[g.kids[p][i]] == g.KidAt(p, i + 1)
      {
        if p == cur && i > 0 { assert g.kids[p][i] == kids[p][i - 1]; }
      }
    }

    ghost predicate CanGrow(cur: Node, pos: Node) {
      Valid() && cur in nodes && cur.kind == SECTION && pos !in nodes && Free(cur, pos.kind, pos.key)
    }

    lemma Grows(cur: Node, pos: Node)
      requires CanGrow(cur, pos)
      ensures Grow(cur, pos).Valid()
    {
      hide Grow, PathsFollowParents, SectionsApart, ValuesApart;
      TreeGrows(cur, pos);
      GrownPaths(cur, pos);
      PathsStayParental(cur, pos);
      SectionsStayApart(cur, pos);
      ValuesStayApart(cur, pos);
    }

    /** What growing does to the maps. */
    lemma GrownPaths(cur: Node, pos: Node)
      requires Tree() && cur in nodes && pos !in nodes
      ensures var g := Grow(cur, pos);
              && g.root == root && g.nodes == nodes + {pos} && g.parent.Keys == parent.Keys + {pos}
              && pos in g.path && g.path[pos] == ChildPath(cur, pos.kind, pos.key) && g.parent[pos] == cur
              && (forall n | n in nodes :: n in g.path && g.path[n] == path[n])
              && (forall n | n in parent :: g.parent[n] == parent[n])
    {
    }

    /** What growing does to the links. */
    lemma GrownLinks(cur: Node, pos: Node)
      requires Tree() && cur in nodes && pos !in nodes && Grow(cur, pos).Tree()
      ensures var g := Grow(cur, pos);
              && g.Domains() && g.KidAt(cur, 0) == pos && g.KidAt(pos, 0) == null && g.next[pos] == KidAt(cur, 0)
              && (forall n | n in nodes :: g.next[n] == next[n])
              && (forall n | n in nodes && n != cur :: g.KidAt(n, 0) == KidAt(n, 0))
    {
    }

    lemma PathsStayParental(cur: Node, pos: Node)
      requires CanGrow(cur, pos) && Grow(cur, pos).Tree()
      ensures Grow(cur, pos).PathsFollowParents()
    {
      hide Grow;
      GrownPaths(cur, pos);
      var g := Grow(cur, pos);
      forall c | c in g.parent ensures g.path[c] == g.ChildPath(g.parent[c], c.kind, c.key) {
        if c != pos { assert path[c] == ChildPath(parent[c], c.kind, c.key); }
      }
    }

    lemma SectionsStayApart(cur: Node, pos: Node)
      requires CanGrow(cur, pos) && Grow(cur, pos).Tree()
      ensures Grow(cur, pos).SectionsApart()
    {
      hide Grow, PathsFollowParents, ValuesApart, Parented, Unshared, Chained;
      GrownPaths(cur, pos);
      var g, taken := Grow(cur, pos), path[cur] + [pos.key];
      forall n | n in nodes && n.kind == SECTION && pos.kind == SECTION ensures g.path[n] != g.path[pos] {
        assert !SectionAt(n, taken);
      }
      hide Free, Tree, SectionAt, ChildPath;
    }

    lemma ValuesStayApart(cur: Node, pos: Node)
      requires CanGrow(cur, pos) && Grow(cur, pos).Tree()
      ensures Grow(cur, pos).ValuesApart()
    {
      hide Grow, PathsFollowParents, SectionsApart, Parented, Unshared, Chained;
      GrownPaths(cur, pos);
      var g, taken := Grow(cur, pos), path[cur];
      forall n | n in nodes && n.kind == VALUE && pos.kind == VALUE && n.key == pos.key
        ensures g.path[n] != g.path[pos]
      {
        assert !ValueAt(n, taken, pos.key);
      }
      hide Free, Tree, ValueAt, ChildPath;
    }

    // ---------- The map the tree denotes ----------

    ghost predicate DenotesSections(c: Conf)
      requires Tree()
    {
      && (forall n | n in nodes && n.kind == SECTION :: path[n] in c.sections)
      && (forall p | p in c.sections :: exists n | n in nodes :: SectionAt(n, p))
    }

    ghost predicate DenotesValues(contents: map<Node, string>, c: Conf)
      requires Tree()
    {
      && contents.Keys == nodes
      && (forall n | n in nodes && n.kind == VALUE ::
           (path[n], n.key) in c.values && c.values[(path[n], n.key)] == contents[n])
      && (forall k | k in c.values :: exists n | n in nodes :: ValueAt(n, k.0, k.1))
    }

    /** The sections and values of the tree are those of the map, both ways. */
    ghost predicate Denotes(contents: map<Node, string>, c: Conf)
      requires Tree()
    {
      DenotesSections(c) && DenotesValues(contents, c)
    }

    lemma DenotesMore(cur: Node, pos: Node, contents: map<Node, string>, c: Conf, value: string)
      requires CanGrow(cur, pos) && Grow(cur, pos).Tree() && Denotes(contents, c) && c.cur == path[cur]
      ensures Grow(cur, pos).Denotes(contents[pos := value], Grown(c, pos.kind, pos.key, value))
    {
      hide Grow, Keyed, Free, Parented, Unshared, Chained, DenotesSections, DenotesValues;
      FreeMeansNew(cur, pos.kind, pos.key, contents, c);
      DenotesMoreSections(cur, pos, c, value);
      DenotesMoreValues(cur, pos, contents, c, value);
    }

    lemma DenotesMoreSections(cur: Node, pos: Node, c: Conf, value: string)
      requires Tree() && cur in nodes && pos !in nodes && Grow(cur, pos).Tree() && DenotesSections(c)
          && c.cur == path[cur]
      ensures Grow(cur, pos).DenotesSections(Grown(c, pos.kind, pos.key, value))
    {
      hide Grow, Parented, Unshared, Chained;
      GrownPaths(cur, pos);
      var g, d := Grow(cur, pos), Grown(c, pos.kind, pos.key, value);
      forall p | p in d.sections ensures exists n | n in g.nodes :: g.SectionAt(n, p) {
        if p in c.sections {
          var n :| n in nodes && SectionAt(n, p);
          assert g.SectionAt(n, p);
        } else {
          assert g.SectionAt(pos, p);
        }
      }
    }

    lemma DenotesMoreValues(cur: Node, pos: Node, contents: map<Node, string>, c: Conf, value: string)
      requires Tree() && cur in nodes && pos !in nodes && Grow(cur, pos).Tree() && DenotesValues(contents, c)
          && c.cur == path[cur]
      requires pos.kind == VALUE ==> (path[cur], pos.key) !in c.values
      ensures Grow(cur, pos).DenotesValues(contents[pos := value], Grown(c, pos.kind, pos.key, value))
    {
      hide Grow, Grown, ValueAt, Parented, Unshared, Chained;
      GrownPaths(cur, pos);
      var g, d := Grow(cur, pos), Grown(c, pos.kind, pos.key, value);
      forall n | n in g.nodes && n.kind == VALUE
        ensures (g.path[n], n.key) in d.values && d.values[(g.path[n], n.key)] == contents[pos := value][n]
      {
        if n == pos { NewValueStored(c, pos.key, value); } else { OldValueKept(cur, pos, contents, c, value, n); }
      }
      forall k | k in d.values ensures exists n | n in g.nodes :: g.ValueAt(n, k.0, k.1) {
        EveryValueStands(cur, pos, contents, c, value, k.0, k.1);
      }
    }

    lemma EveryValueStands(cur: Node, pos: Node, contents: map<Node, string>, c: Conf, value: string, p: Path,
            key: string)
      requires Tree() && cur in nodes && pos !in nodes && Grow(cur, pos).Tree() && DenotesValues(contents, c)
          && c.cur == path[cur]
      requires (p, key) in Grown(c, pos.kind, pos.key, value).values
      ensures exists n | n in Grow(cur, pos).nodes :: Grow(cur, pos).ValueAt(n, p, key)
    {
      hide Grow, Parented, Unshared, Chained, DenotesValues;
      GrownPaths(cur, pos);
      if (p, key) in c.values {
        OldValueStays(cur, pos, contents, c, p, key);
      } else {
        assert Grow(cur, pos).ValueAt(pos, p, key);
      }
    }

    lemma OldValueKept(cur: Node, pos: Node, contents: map<Node, string>, c: Conf, value: string, n: Node)
      requires Tree() && cur in nodes && pos !in nodes && DenotesValues(contents, c) && c.cur == path[cur]
      requires pos.kind == VALUE ==> (path[cur], pos.key) !in c.values
      requires n in nodes && n.kind == VALUE
      ensures var d := Grown(c, pos.kind, pos.key, value);
              (path[n], n.key) in d.values && d.values[(path[n], n.key)] == contents[n]
    {
      hide Parented, Unshared, Chained;
    }

    lemma OldValueStays(cur: Node, pos: Node, contents: map<Node, string>, c: Conf, p: Path, key: string)
      requires Tree() && cur in nodes && pos !in nodes && Grow(cur, pos).Tree() && DenotesValues(contents, c)
      requires (p, key) in c.values
      ensures exists n | n in Grow(cur, pos).nodes :: Grow(cur, pos).ValueAt(n, p, key)
    {
      hide Grow, Parented, Unshared, Chained;
      GrownPaths(cur, pos);
      var k := (p, key);
      var n :| n in nodes && ValueAt(n, k.0, k.1);
      assert Grow(cur, pos).ValueAt(n, p, key);
    }

    /** What is free in the tree is not in the map. */
    lemma FreeMeansNew(cur: Node, kind: Kind, key: string, contents: map<Node, string>, c: Conf)
      requires Tree() && cur in path && Denotes(contents, c)
      ensures kind == SECTION ==> (Free(cur, kind, key) <==> path[cur] + [key] !in c.sections)
      ensures kind == VALUE ==> (Free(cur, kind, key) <==> (path[cur], key) !in c.values)
    {
      hide Parented, Unshared, Chained;
      if kind == SECTION && path[cur] + [key] in c.sections {
        var n :| n in nodes && SectionAt(n, path[cur] + [key]);
      }
      if kind == VALUE && (path[cur], key) in c.values {
        var k := (path[cur], key);
        var n :| n in nodes && ValueAt(n, k.0, k.1);
      }
    }

    lemma DenotesAnywhere(contents: map<Node, string>, c: Conf, p: Path)
      requires Tree() && Denotes(contents, c)
      ensures Denotes(contents, c.(cur := p))
    {
      hide Domains, Parented, Unshared, Chained;
    }

    /** Storing into a value node changes the map at its path and key. */
    lemma DenotesStored(n: Node, contents: map<Node, string>, c: Conf, value: string)
      requires Valid() && Denotes(contents, c) && n in nodes && n.kind == VALUE && path[n] == c.cur
      ensures Denotes(contents[n := value], SetValueOf(c, n.key, value))
    {
      hide PathsFollowParents, SectionsApart, Domains, Parented, Unshared, Chained;
      var d := SetValueOf(c, n.key, value);
      forall k | k in d.values ensures exists m | m in nodes :: ValueAt(m, k.0, k.1) {
        assert k in c.values;
        var m :| m in nodes && ValueAt(m, k.0, k.1);
      }
    }

    lemma Known(n: Node)
      requires Tree() && n in nodes
      ensures n in kids && n in path && n in next
    {
    }

    lemma SectionDenoted(n: Node, contents: map<Node, string>, c: Conf)
      requires Tree() && Denotes(contents, c) && n in nodes && n.kind == SECTION
      ensures n in path && path[n] in c.sections
    {
    }

    lemma ValueDenoted(n: Node, contents: map<Node, string>, c: Conf)
      requires Tree() && Denotes(contents, c) && n in nodes && n.kind == VALUE
      ensures n in path && n in contents && (path[n], n.key) in c.values && c.values[(path[n], n.key)] == contents[n]
    {
    }

    lemma ChildPaths(c: Node)
      requires Valid() && c in parent
      ensures c in nodes && c in path && parent[c] in nodes && path[c] == ChildPath(parent[c], c.kind, c.key)
    {
    }

    /** No sibling list holds two sections or two values with the same key. */
    lemma SiblingsDiffer(p: Node, i: nat, j: nat)
      requires Valid() && p in nodes && i < j < |kids[p]|
      ensures kids[p][i].kind != kids[p][j].kind || kids[p][i].key != kids[p][j].key
    {
      hide Parented, Chained;
      var a, b := kids[p][i], kids[p][j];
      assert parent[a] == parent[b] == p && a != b;
    }

    /** A value below a section has its path. */
    lemma ChildValue(p: Node, n: Node)
      requires Valid() && p in nodes && p in kids && n in kids[p] && n.kind == VALUE
      ensures n in nodes && n in path && p in path && path[n] == path[p]
    {
      hide Parented, Chained, SectionsApart, ValuesApart;
      var i :| 0 <= i < |kids[p]| && kids[p][i] == n;
      assert parent[n] == p;
    }

    /** A value of the map stands among the children of the section with its path. */
    lemma ValueChild(p: Node, key: string, contents: map<Node, string>, c: Conf) returns (n: Node)
      requires Valid() && Denotes(contents, c) && p in nodes && p in kids && p in path && p.kind == SECTION
      requires c.cur == path[p] && (c.cur, key) in c.values
      ensures n in nodes && n in contents && n in kids[p] && n.kind == VALUE && n.key == key
      ensures c.values[(c.cur, key)] == contents[n]
    {
      hide Unshared, Chained, ValuesApart;
      var k := (c.cur, key);
      n :| n in nodes && ValueAt(n, k.0, k.1);
      assert n in parent && path[n] == ChildPath(parent[n], n.kind, n.key);
      var i: nat :| Child(parent[n], i, n);
      assert parent[n] == p;
    }

    // ---------- Reachability along the links ----------

    /** `a` links to `c`, by its left or its right pointer. */
    ghost predicate LinksTo(a: Node, c: Node)
      requires Tree()
    {
      a in nodes && (KidAt(a, 0) == c || next[a] == c)
    }

    lemma LinkedNodes(a: Node, c: Node)
      requires Tree() && LinksTo(a, c)
      ensures c in parent
    {
      if KidAt(a, 0) != c {
        var i: nat :| Child(parent[a], i, a);
        assert kids[parent[a]][i] == a && next[a] == KidAt(parent[a], i + 1);
      }
    }

    /** The place of the node that links to the i-th child. */
    lemma LinkSource(a: Node, p: Node, i: nat)
      requires Tree() && p in nodes && i < |kids[p]| && LinksTo(a, kids[p][i])
      ensures if i == 0 then a == p else a == kids[p][i - 1]
    {
      hide Parented, Unshared, Chained;
      var c := kids[p][i];
      KidPlace(p, i);
      if KidAt(a, 0) == c {
        KidPlace(a, 0);
        SamePlace(p, i, 0);
      } else {
        var j := PlaceBefore(a, c);
        KidPlace(parent[a], j + 1);
        SamePlace(p, i, j + 1);
      }
    }

    lemma KidPlace(p: Node, i: nat)
      requires Tree() && p in nodes && i < |kids[p]|
      ensures kids[p][i] in parent && parent[kids[p][i]] == p
    {
      hide Parented, Chained;
    }

    lemma SamePlace(p: Node, i: nat, j: nat)
      requires Tree() && p in nodes && i < |kids[p]| && j < |kids[p]| && kids[p][i] == kids[p][j]
      ensures i == j
    {
      hide Parented, Chained;
    }

    lemma PlaceBefore(a: Node, c: Node) returns (j: nat)
      requires Tree() && a in nodes && next[a] == c
      ensures a in parent && parent[a] in nodes
      ensures j + 1 < |kids[parent[a]]| && kids[parent[a]][j] == a && kids[parent[a]][j + 1] == c
    {
      hide Unshared;
      j :| Child(parent[a], j, a);
      assert kids[parent[a]][j] == a && next[a] == KidAt(parent[a], j + 1);
    }

    /** No node is linked to twice. */
    lemma LinkUnique(a: Node, b: Node, c: Node)
      requires Valid() && LinksTo(a, c) && LinksTo(b, c)
      ensures a == b
    {
      LinkedNodes(a, c);
      var i: nat :| Child(parent[c], i, c);
      assert kids[parent[c]][i] == c;
      LinkSource(a, parent[c], i);
      LinkSource(b, parent[c], i);
    }

    /** The two pointers of a node never lead to the same node. */
    lemma LinksDiffer(a: Node)
      requires Valid() && a in nodes && KidAt(a, 0) != null
      ensures KidAt(a, 0) != next[a]
    {
      var c := kids[a][0];
      if a in parent {
        var i: nat :| Child(parent[a], i, a);
        assert kids[parent[a]][i] == a && next[a] == KidAt(parent[a], i + 1);
        assert parent[c] == a && a.kind == SECTION && |path[a]| == |path[parent[a]]| + 1;
        assert i + 1 < |kids[parent[a]]| ==> parent[kids[parent[a]][i + 1]] == parent[a];
      }
    }

    /** A set of nodes closed under the links from it and from the root holds every node. */
    ghost predicate LinkClosed(reached: set<Node>)
      requires Tree()
    {
      forall a, c | a in reached + {root} && c in parent && LinksTo(a, c) :: c in reached
    }

    lemma {:induction false} EveryNodeReached(reached: set<Node>, c: Node, i: nat)
      requires Valid() && LinkClosed(reached) && c in parent && Child(parent[c], i, c)
      ensures c in reached
      decreases |path[parent[c]]|, i
    {
      hide Tree, Keyed;
      if i > 0 {
        var before := SiblingBefore(c, i);
        EveryNodeReached(reached, before, i - 1);
      } else {
        var p := parent[c];
        FirstChildLinked(c);
        if p != root {
          var j := PlaceOf(p);
          EveryNodeReached(reached, p, j);
        }
      }
    }

    /** The sibling in front of a node links to it. */
    lemma SiblingBefore(c: Node, i: nat) returns (before: Node)
      requires Tree() && c in parent && i > 0 && Child(parent[c], i, c)
      ensures before in parent && parent[before] == parent[c] && Child(parent[c], i - 1, before) && LinksTo(before, c)
    {
      before := kids[parent[c]][i - 1];
      assert next[before] == KidAt(parent[c], i) == c;
    }

    lemma FirstChildLinked(c: Node)
      requires Tree() && c in parent && Child(parent[c], 0, c)
      ensures LinksTo(parent[c], c) && parent[c].kind == SECTION && (parent[c] == root || parent[c] in parent)
    {
      hide Chained, Unshared;
    }

    /** The place of a section among its siblings; its path is longer than that of its parent. */
    lemma PlaceOf(p: Node) returns (j: nat)
      requires Valid() && p in parent && p.kind == SECTION
      ensures parent[p] in path && p in path && |path[p]| == |path[parent[p]]| + 1 && Child(parent[p], j, p)
    {
      hide Chained, Unshared, SectionsApart, ValuesApart;
      j :| Child(parent[p], j, p);
    }

    // ---------- The breadth-first walk ----------

    /** The nodes a node points to, left first. */
    ghost function Links(n: Node): seq<Node>
      requires n in kids && n in next
    {
      (if KidAt(n, 0) != null then [KidAt(n, 0)] else []) + (if next[n] != null then [next[n]] else [])
    }

    ghost predicate LinkedFrom(from: seq<Node>, c: Node)
      requires Tree()
    {
      exists a | a in from :: LinksTo(a, c)
    }

    /** The nodes deleted and queued are those that the root and the deleted nodes link to, each once. */
    ghost predicate Frontier(deleted: seq<Node>, queue: seq<Node>)
      requires Tree()
    {
      var seen := deleted + queue;
      && Distinct(seen)
      && (forall c | c in seen :: c in parent && LinkedFrom(deleted + [root], c))
      && (forall c | c in parent && LinkedFrom(deleted + [root], c) :: c in seen)
    }

    lemma LinksAreLinked(n: Node)
      requires Valid() && n in nodes
      ensures n in kids && n in next
      ensures forall c | c in Links(n) :: c in parent && LinksTo(n, c)
      ensures forall c | c in parent && LinksTo(n, c) :: c in Links(n)
      ensures Distinct(Links(n))
    {
      hide Parented, Unshared, Chained, Keyed;
      forall c | c in Links(n) ensures c in parent && LinksTo(n, c) { LinkedNodes(n, c); }
      if KidAt(n, 0) != null { LinksDiffer(n); }
    }

    lemma FirstFrontier()
      requires Valid()
      ensures root in kids && root in next && Frontier([], Links(root))
    {
      hide Parented, Unshared, Chained, Keyed, Links;
      LinksAreLinked(root);
      var links := Links(root);
      assert [] + links == links;
      assert forall a | a in [] + [root] :: a == root;
      forall c | c in links ensures LinkedFrom([] + [root], c) { assert root in [] + [root] && LinksTo(root, c); }
    }

    lemma FrontierNode(deleted: seq<Node>, queue: seq<Node>)
      requires Tree() && Frontier(deleted, queue) && queue != []
      ensures queue[0] in nodes && queue[0] in parent && queue[0] !in deleted && queue[0] != root
      ensures queue[0] in kids && queue[0] in next
    {
      hide Parented, Unshared, Chained;
      var seen := deleted + queue;
      assert seen[|deleted|] == queue[0] && queue[0] in seen;
      forall i | 0 <= i < |deleted| ensures deleted[i] != queue[0] { assert seen[i] == deleted[i]; }
    }

    lemma FrontierMoves(deleted: seq<Node>, queue: seq<Node>)
      requires Valid() && Frontier(deleted, queue) && queue != [] && queue[0] in kids && queue[0] in next
      ensures Frontier(deleted + [queue[0]], queue[1..] + Links(queue[0]))
    {
      hide Parented, Unshared, Chained, Keyed, Links;
      FrontierNode(deleted, queue);
      var pos := queue[0];
      var seen, links := deleted + queue, Links(pos);
      LinksAreLinked(pos);
      var more := deleted + [pos];
      assert more + (queue[1..] + links) == seen + links;
      forall c | c in links ensures c !in seen {
        if c in seen {
          var a :| a in deleted + [root] && LinksTo(a, c);
          LinkUnique(a, pos, c);
        }
      }
      DistinctConcat(seen, links);
      forall c | c in seen + links ensures c in parent && LinkedFrom(more + [root], c) {
        if c in seen {
          var a :| a in deleted + [root] && LinksTo(a, c);
          assert a in more + [root];
        } else {
          assert pos in more + [root] && LinksTo(pos, c);
        }
      }
      forall c | c in parent && LinkedFrom(more + [root], c) ensures c in seen + links {
        var a :| a in more + [root] && LinksTo(a, c);
        if a != pos { assert a in deleted + [root]; }
      }
    }

    lemma LastFrontier(deleted: seq<Node>)
      requires Valid() && Frontier(deleted, [])
      ensures Distinct(deleted)
      ensures (set n | n in deleted) == nodes - {root}
    {
      hide Unshared, Chained, Keyed;
      assert deleted + [] == deleted;
      var reached := set n | n in deleted;
      forall a, c | a in reached + {root} && c in parent && LinksTo(a, c) ensures c in reached {
        assert a in deleted + [root] && LinksTo(a, c);
      }
      forall c | c in parent ensures c in reached {
        var i: nat :| Child(parent[c], i, c);
        EveryNodeReached(reached, c, i);
      }
    }
  }

  /** The place of the first value in a list of siblings; its length if there is none. */
  ghost function FirstValue(siblings: seq<Node>): (j: nat)
    ensures j <= |siblings| && (j < |siblings| ==> siblings[j].kind == VALUE)
  {
    if siblings == [] || siblings[0].kind == VALUE then 0 else 1 + FirstValue(siblings[1..])
  }

  lemma {:induction false} FirstValueBehindSections(siblings: seq<Node>, j: nat)
    requires j <= |siblings| && (j < |siblings| ==> siblings[j].kind == VALUE)
    requires forall k | 0 <= k < j :: siblings[k].kind == SECTION
    ensures FirstValue(siblings) == j
  {
    if j > 0 { FirstValueBehindSections(siblings[1..], j - 1); }
  }

  /** The keys and values of the value nodes in a list of siblings. */
  ghost function Pairs(siblings: seq<Node>): seq<(string, string)>
    reads siblings
  {
    if siblings == [] then []
    else (if siblings[0].kind == VALUE then [(siblings[0].key, siblings[0].value)] else []) + Pairs(siblings[1..])
  }

  lemma {:induction false} PairsFrom(siblings: seq<Node>)
    ensures var j := FirstValue(siblings);
            Pairs(siblings) == if j == |siblings| then []
                               else [(siblings[j].key, siblings[j].value)] + Pairs(siblings[j + 1..])
  {
    if siblings != [] && siblings[0].kind == SECTION {
      PairsFrom(siblings[1..]);
      var j := FirstValue(siblings[1..]);
      if j < |siblings| - 1 { assert siblings[1..][j + 1..] == siblings[j + 2..]; }
    }
  }

  lemma {:induction false} PairsMember(siblings: seq<Node>, k: string, v: string)
    ensures (k, v) in Pairs(siblings) <==> exists n | n in siblings :: n.kind == VALUE && n.key == k && n.value == v
  {
    if siblings != [] {
      PairsMember(siblings[1..], k, v);
      assert siblings == [siblings[0]] + siblings[1..];
    }
  }

  ghost predicate DifferentKeys(pairs: seq<(string, string)>) {
    forall i, j | 0 <= i < j < |pairs| :: pairs[i].0 != pairs[j].0
  }

  lemma {:induction false} PairsDiffer(siblings: seq<Node>)
    requires forall i, j | 0 <= i < j < |siblings| && siblings[i].kind == siblings[j].kind == VALUE ::
        siblings[i].key != siblings[j].key
    ensures DifferentKeys(Pairs(siblings))
  {
    if siblings != [] {
      var first, rest := siblings[0], Pairs(siblings[1..]);
      PairsDiffer(siblings[1..]);
      if first.kind == VALUE {
        forall j | 0 <= j < |rest| ensures rest[j].0 != first.key {
          PairsMember(siblings[1..], rest[j].0, rest[j].1);
          assert rest[j] in rest;
          var n :| n in siblings[1..] && n.kind == VALUE && n.key == rest[j].0;
        }
      }
    }
  }

  /** The map with one more section or value under the current section. */
  function Grown(c: Conf, kind: Kind, key: string, value: string): Conf {
    if kind == SECTION then c.(sections := c.sections + {c.cur + [key]}) else SetValueOf(c, key, value)
  }

  lemma NewValueStored(c: Conf, key: string, value: string)
    ensures var d := Grown(c, VALUE, key, value);
            (c.cur, key) in d.values && d.values[(c.cur, key)] == value
  {
  }

  lemma LastSegment(p: Path, a: string, q: Path, b: string)
    ensures p + [a] == q + [b] <==> p == q && a == b
  {
    assert (p + [a])[..|p|] == p && (q + [b])[..|q|] == q;
    assert (p + [a])[|p|] == a && (q + [b])[|q|] == b;
  }

  class ConfigMap {
    const root: Node
    var cur: Node
    var iter: Node?
    ghost var shape: Shape
    /** The map this tree stands for. */
    ghost var conf: Conf

    /** The links of the nodes are the sibling lists of the shape. */
    ghost predicate Wired()
      reads this`shape, shape.nodes
      requires shape.Tree()
    {
      shape.root == root && forall n | n in shape.nodes :: n.left == shape.KidAt(n, 0) && n.right == shape.next[n]
    }

    /** The contents of the value fields. */
    ghost function Contents(): (r: map<Node, string>)
      reads this`shape, shape.nodes
    {
      map n | n in shape.nodes :: n.value
    }

    ghost predicate Valid()
      reads this, shape.nodes
    {
      && shape.Valid() && Wired()
      && cur in shape.nodes && cur.kind == SECTION
      && (iter != null ==> iter in shape.parent)
      && conf.cur == shape.path[cur] && shape.Denotes(Contents(), conf)
    }

    constructor ()
      ensures Valid() && conf == EMPTY && fresh(shape.nodes)
    {
      root := new Node("ROOT", "", SECTION);
      cur := root;
      iter := null;
      shape := Shape(root, {root}, map[root := []], map[root := null], map[], map[root := []]);
      conf := EMPTY;
      new;
      assert shape.SectionAt(root, []);
    }

    /** The loop over the sibling list of the current section, for either kind of node. */
    method FindChild(kind: Kind, key: string) returns (pos: Node?)
      requires Valid()
      ensures pos != null ==> pos in shape.nodes && pos in shape.parent && shape.parent[pos] == cur
      ensures pos != null ==> pos.kind == kind && pos.key == key
      ensures pos == null ==> shape.Free(cur, kind, key)
    {
      hide Shape.Denotes, Shape.Keyed, Shape.Free;
      pos := cur.left;
      ghost var i: nat := 0;
      while pos != null && (pos.kind != kind || pos.key != key)
        invariant i <= |shape.kids[cur]| && pos == shape.KidAt(cur, i)
        invariant forall j: nat | j < i :: !(shape.kids[cur][j].kind == kind && shape.kids[cur][j].key == key)
        decreases |shape.kids[cur]| - i
      {
        assert pos == shape.kids[cur][i];
        pos := pos.right;
        i := i + 1;
      }
      if pos == null {
        shape.NotAmongSiblings(cur, kind, key);
      } else {
        assert pos == shape.kids[cur][i];
      }
    }

    /** The pointer assignments that make a node the first child of the current section. */
    method Attach(pos: Node)
      requires shape.Valid() && Wired() && cur in shape.nodes && pos !in shape.nodes && pos.left == null
      requires shape.Grow(cur, pos).Tree()
      modifies this`shape, cur`left, pos`right
      ensures shape == old(shape).Grow(cur, pos) && Wired()
    {
      hide Shape.Keyed, Shape.Grow, Shape.KidAt, Shape.Parented, Shape.Unshared, Shape.Chained;
      shape.GrownPaths(cur, pos);
      shape.GrownLinks(cur, pos);
      ghost var s, g := shape, shape.Grow(cur, pos);
      pos.right := cur.left;
      cur.left := pos;
      shape := g;
      forall n | n in g.nodes ensures n.left == g.KidAt(n, 0) && n.right == g.next[n] {
        if n != pos { assert n in s.nodes && n.right == old(n.right) == s.next[n] == g.next[n]; }
      }
    }

    method AddChild(kind: Kind, key: string, value: string) returns (pos: Node)
      requires Valid() && shape.Free(cur, kind, key)
      modifies this`shape, this`conf, cur`left
      ensures Valid() && fresh(pos) && pos.kind == kind && pos.key == key && pos.value == value
      ensures shape == old(shape).Grow(cur, pos)
      ensures conf == Grown(old(conf), kind, key, value)
    {
      hide Wired, Shape.Tree, Shape.Keyed, Shape.Free, Shape.Grow, Shape.Denotes;
      pos := new Node(key, value, kind);
      ghost var s, before := shape, Contents();
      assert s.CanGrow(cur, pos);
      s.Grows(cur, pos);
      Attach(pos);
      s.GrownPaths(cur, pos);
      s.DenotesMore(cur, pos, before, conf, value);
      assert Contents() == before[pos := value];
      conf := Grown(conf, kind, key, value);
    }

    lemma RootIsSection()
      requires shape.Valid() && Wired()
      ensures shape.root == root && root in shape.nodes && root.kind == SECTION && shape.path[root] == []
    {
    }

    /** Makes a section the current one. */
    method Select(pos: Node)
      requires Valid() && pos in shape.nodes && pos.kind == SECTION
      modifies this`cur, this`iter, this`conf
      ensures Valid() && cur == pos && iter == cur.left
      ensures conf == old(conf).(cur := shape.path[pos])
    {
      hide Wired, Shape.Tree, Shape.Keyed, Shape.Denotes;
      shape.Known(pos);
      shape.DenotesAnywhere(Contents(), conf, shape.path[pos]);
      cur := pos;
      conf := conf.(cur := shape.path[pos]);
      FirstChild(pos);
      iter := cur.left;
    }

    lemma FirstChild(p: Node)
      requires shape.Tree() && Wired() && p in shape.nodes
      ensures p.left == shape.KidAt(p, 0) && (p.left != null ==> p.left in shape.parent)
    {
      assert shape.KidAt(p, 0) != null ==> shape.kids[p][0] in shape.parent;
    }

    /** One turn of the loop of set_section: finds the section below the current one or creates it. */
    method Descend(segment: string)
      requires Valid()
      modifies this, shape.nodes
      ensures Valid() && fresh(shape.nodes - old(shape.nodes)) && old(shape.nodes) <= shape.nodes
      ensures conf == Enter(old(conf), segment) && iter == cur.left
    {
      hide Wired, Shape.Tree, Shape.Keyed, Shape.Denotes;
      var pos := FindChild(SECTION, segment);
      if pos == null {
        pos := AddChild(SECTION, segment, "");
        old(shape).GrownPaths(cur, pos);
      } else {
        shape.ChildPaths(pos);
        shape.SectionDenoted(pos, Contents(), conf);
        assert conf.sections + {conf.cur + [segment]} == conf.sections;
      }
      Select(pos);
    }

    method SetSection(key: string)
      requires Valid()
      modifies this, shape.nodes
      ensures Valid() && fresh(shape.nodes - old(shape.nodes)) && old(shape.nodes) <= shape.nodes
      ensures conf == SetSectionOf(old(conf), key)
      ensures iter == if Segments(key) == [] then old(iter) else cur.left
    {
      hide Wired, Shape.Tree, Shape.Keyed, Shape.Denotes, Pieces, Slashes, Enter;
      var str := "/" + Slashes(key);
      var head := 0;
      assert str[1..] == Slashes(key);
      // The iterator stays where it is until a segment is entered.
      RootIsSection();
      shape.DenotesAnywhere(Contents(), conf, []);
      cur := root;
      conf := conf.(cur := []);
      while head != |str|
        invariant 0 <= head <= |str| && (head < |str| ==> str[head] == '/')
        invariant Valid() && fresh(shape.nodes - old(shape.nodes)) && old(shape.nodes) <= shape.nodes
        invariant EnterAll(conf, PiecesBehind(str, head)) == SetSectionOf(old(conf), key)
        invariant if PiecesBehind(str, head) == Segments(key) then iter == old(iter)
                  else |PiecesBehind(str, head)| < |Segments(key)| && iter == cur.left
        decreases |str| - head
      {
        var sub, tail := NextPiece(str, head);
        if |sub| > 0 {
          assert PiecesBehind(str, head)[1..] == PiecesBehind(str, tail);
          EnterFirst(conf, PiecesBehind(str, head));
          Descend(sub);
        } else {
          assert [] + PiecesBehind(str, tail) == PiecesBehind(str, tail);
        }
        head := tail;
      }
    }

    method SetValue(key: string, value: string)
      requires Valid()
      modifies this, shape.nodes
      ensures Valid() && fresh(shape.nodes - old(shape.nodes)) && old(shape.nodes) <= shape.nodes
      ensures conf == SetValueOf(old(conf), key, value)
    {
      hide Wired, Shape.Tree, Shape.Keyed, Shape.Denotes;
      var pos := FindChild(VALUE, key);
      if pos == null {
        pos := AddChild(VALUE, key, value);
        old(shape).GrownPaths(cur, pos);
      } else {
        Store(pos, value);
      }
    }

    method Store(pos: Node, value: string)
      requires Valid() && pos in shape.parent && pos in shape.nodes && shape.parent[pos] == cur && pos.kind == VALUE
      modifies this`conf, pos`value
      ensures Valid() && conf == SetValueOf(old(conf), pos.key, value)
    {
      hide Shape.Tree, Shape.Keyed, Shape.Denotes;
      shape.ChildPaths(pos);
      ghost var before := Contents();
      shape.DenotesStored(pos, before, conf, value);
      pos.value := value;
      conf := SetValueOf(conf, pos.key, value);
      assert Contents() == before[pos := value];
    }

    method GetValue(key: string) returns (r: Option<string>)
      requires Valid()
      ensures r == GetValueOf(conf, key)
    {
      hide Wired, Shape.Tree, Shape.Keyed, Shape.Denotes;
      var pos := FindChild(VALUE, key);
      if pos == null {
        shape.Known(cur);
        shape.FreeMeansNew(cur, VALUE, key, Contents(), conf);
        return None;
      }
      shape.ChildPaths(pos);
      shape.ValueDenoted(pos, Contents(), conf);
      return Some(pos.value);
    }

    /** The i-th child and its right pointer. */
    lemma Sibling(p: Node, i: nat)
      requires shape.Tree() && Wired() && p in shape.nodes && i < |shape.kids[p]|
      ensures var c := shape.kids[p][i];
              && c in shape.nodes && c in shape.parent && c.right == shape.KidAt(p, i + 1)
              && (i + 1 < |shape.kids[p]| ==> shape.kids[p][i + 1] in shape.parent)
    {
      hide Shape.Parented, Shape.PathsFollowParents, Shape.SectionsApart, Shape.ValuesApart;
    }

    /** The next value among the siblings from the iterator on; it is passed. The iterator stands
        at the i-th child of `p`, or behind the last, and `later` are the children from there on. */
    method EnumValue(ghost p: Node, ghost i: nat, ghost later: seq<Node>) returns (r: Option<(string, string)>)
      requires Valid() && p in shape.nodes && p in shape.kids && i <= |shape.kids[p]| && later == shape.kids[p][i..]
      requires iter == if later == [] then null else later[0]
      modifies this`iter
      ensures Valid()
      ensures var j := FirstValue(later);
              if j == |later| then r == None && iter == null
              else r == Some((later[j].key, later[j].value)) && iter == if j + 1 == |later| then null else later[j + 1]
    {
      hide Contents, Wired, Shape.Tree, Shape.Keyed, Shape.Denotes, FirstValue;
      ghost var k: nat := 0;
      while iter != null && iter.kind == SECTION
        invariant k <= |later| && iter == if k == |later| then null else later[k]
        invariant forall j | 0 <= j < k :: later[j].kind == SECTION
        invariant iter != null ==> iter in shape.parent
        decreases |later| - k
      {
        Sibling(p, i + k);
        iter := iter.right;
        k := k + 1;
      }
      FirstValueBehindSections(later, k);
      if iter == null {
        return None;
      }
      Sibling(p, i + k);
      r := Some((iter.key, iter.value));
      iter := iter.right;
    }

    /** A caller that enumerates until it fails gets the values that stand from the iterator on, each
        once and in order. */
    method EnumRest(ghost p: Node, ghost i: nat, ghost later: seq<Node>) returns (all: seq<(string, string)>)
      requires Valid() && p in shape.nodes && p in shape.kids && i <= |shape.kids[p]| && later == shape.kids[p][i..]
      requires iter == if later == [] then null else later[0]
      modifies this`iter
      ensures Valid() && iter == null && all == Pairs(later)
    {
      hide Valid, Pairs, FirstValue;
      all := [];
      ghost var rest, k: nat := later, i;
      while true
        invariant Valid() && k <= |shape.kids[p]| && rest == shape.kids[p][k..]
        invariant iter == if rest == [] then null else rest[0]
        invariant all + Pairs(rest) == Pairs(later)
        decreases |rest|
      {
        PairsFrom(rest);
        var r := EnumValue(p, k, rest);
        if r == None {
          return;
        }
        all := all + [r.value];
        k := k + FirstValue(rest) + 1;
        rest := rest[FirstValue(rest) + 1..];
      }
    }

    /** Enumerating the section that was entered last yields each of its values exactly once. */
    method EnumSection() returns (all: seq<(string, string)>)
      requires Valid() && iter == cur.left
      modifies this`iter
      ensures Valid()
      ensures forall k, v :: (k, v) in all <==> GetValueOf(conf, k) == Some(v)
      ensures DifferentKeys(all)
    {
      hide Wired, Shape.Tree, Shape.Keyed, Shape.Denotes, Pairs;
      shape.Known(cur);
      Pointers(cur);
      SectionPairs();
      ghost var later := shape.kids[cur];
      assert later[0..] == later;
      all := EnumRest(cur, 0, later);
    }

    /** The pairs of the children of the current section are the entries of the map under its path. */
    lemma SectionPairs()
      requires Valid() && cur in shape.kids
      ensures forall k, v :: (k, v) in Pairs(shape.kids[cur]) <==> GetValueOf(conf, k) == Some(v)
      ensures DifferentKeys(Pairs(shape.kids[cur]))
    {
      hide Wired, Contents, Pairs, DifferentKeys, Shape.Tree, Shape.Keyed, Shape.Denotes;
      var siblings, contents := shape.kids[cur], Contents();
      shape.Known(cur);
      forall k, v ensures (k, v) in Pairs(siblings) <==> GetValueOf(conf, k) == Some(v) {
        PairsMember(siblings, k, v);
        if (k, v) in Pairs(siblings) {
          var n :| n in siblings && n.kind == VALUE && n.key == k && n.value == v;
          shape.ChildValue(cur, n);
          shape.ValueDenoted(n, contents, conf);
          ContentsAt(n);
        }
        if GetValueOf(conf, k) == Some(v) {
          var n := shape.ValueChild(cur, k, contents, conf);
          ContentsAt(n);
        }
      }
      forall i, j | 0 <= i < j < |siblings| && siblings[i].kind == siblings[j].kind == VALUE
        ensures siblings[i].key != siblings[j].key
      {
        shape.SiblingsDiffer(cur, i, j);
      }
      PairsDiffer(siblings);
    }

    lemma ContentsAt(n: Node)
      requires n in shape.nodes
      ensures n in Contents() && Contents()[n] == n.value
    {
    }

    /** The destructor: a queue of nodes to delete, filled along both pointers of each node it
        deletes. Every node ever added is deleted, once. */
    method Destroy() returns (deleted: seq<Node>)
      requires Valid()
      ensures Distinct(deleted)
      ensures (set n | n in deleted) == shape.nodes - {root}
    {
      hide Wired, Shape.Keyed, Shape.Denotes, Shape.Tree, Shape.Frontier;
      var queue: seq<Node> := [];
      RootIsSection();
      Pointers(root);
      if root.left != null { queue := queue + [root.left]; }
      if root.right != null { queue := queue + [root.right]; }
      shape.FirstFrontier();
      assert queue == shape.Links(root);
      deleted := [];
      while queue != []
        invariant shape.Frontier(deleted, queue)
        decreases shape.nodes - set n | n in deleted
      {
        var pos := queue[0];
        shape.FrontierNode(deleted, queue);
        shape.FrontierMoves(deleted, queue);
        Pointers(pos);
        ghost var waiting := queue[1..];
        queue := queue[1..];
        if pos.left != null { queue := queue + [pos.left]; }
        if pos.right != null { queue := queue + [pos.right]; }
        assert queue == waiting + shape.Links(pos);
        ghost var before := set n | n in deleted;
        deleted := deleted + [pos];
        assert (set n | n in deleted) == before + {pos} && pos in shape.nodes - before;
      }
      shape.LastFrontier(deleted);
    }

    lemma Pointers(n: Node)
      requires shape.Tree() && Wired() && n in shape.nodes
      ensures n in shape.kids && n in shape.next && n.left == shape.KidAt(n, 0) && n.right == shape.next[n]
    {
    }
  }
}
