/**
 * The derived views of a parsed Gemfile.lock (src/packagedcode2/gemfile_lock.py):
 * `Gem.flatten`, `GemfileLockParser.flatten` and `Gem.as_nv_tree`.
 *
 * The source recurses through `dependencies` with no visited set, so a
 * cycle makes it recurse without end; here every recursion carries a
 * `fuel` bound on its depth, and the properties are stated for the edges
 * reachable within that bound. `sorted()` on pairs of `Gem` objects orders
 * them by type and address in Python 2; here edges are ordered by name,
 * which identifies a node in the registry.
 */
module LockGraph {
  import opened Wrappers
  import opened Gems
  import opened LockSteps
  import PyStr

  /** A flattened pair: `(None, root)` from the parser, `(parent, child)` from a gem. */
  datatype Edge = Root(child: Name) | Link(parent: Name, child: Name)

  /** Python 2 order on names: `None` first, then strings by code point. */
  predicate NameLess(a: Name, b: Name) {
    match (a, b)
    case (None, None) => false
    case (None, Some(_)) => true
    case (Some(_), None) => false
    case (Some(x), Some(y)) => PyStr.StrLess(x, y)
  }

  /** Tuple order on edges: the `None` parent first, then parent name, then child name. */
  predicate EdgeLess(a: Edge, b: Edge) {
    match (a, b)
    case (Root(x), Root(y)) => NameLess(x, y)
    case (Root(_), Link(_, _)) => true
    case (Link(_, _), Root(_)) => false
    case (Link(p, c), Link(q, d)) => NameLess(p, q) || (p == q && NameLess(c, d))
  }

  lemma NameLessIrreflexive(a: Name)
    ensures !NameLess(a, a)
  {
    if a.Some? { PyStr.StrLessIrreflexive(a.value); }
  }

  lemma NameLessTransitive(a: Name, b: Name, c: Name)
    requires NameLess(a, b) && NameLess(b, c)
    ensures NameLess(a, c)
  {
    if a.Some? { PyStr.StrLessTransitive(a.value, b.value, c.value); }
  }

  lemma NameLessTotal(a: Name, b: Name)
    requires a != b
    ensures NameLess(a, b) || NameLess(b, a)
  {
    if a.Some? && b.Some? { PyStr.StrLessTotal(a.value, b.value); }
  }

  /** The edge order is a strict total order. */
  lemma EdgeLessIrreflexive(a: Edge)
    ensures !EdgeLess(a, a)
  {
    match a
    case Root(x) => NameLessIrreflexive(x);
    case Link(p, c) => NameLessIrreflexive(p); NameLessIrreflexive(c);
  }

  lemma NameLessAsymmetric(a: Name, b: Name)
    requires NameLess(a, b)
    ensures !NameLess(b, a)
  {
    if a.Some? { PyStr.StrLessAsymmetric(a.value, b.value); }
  }

  lemma EdgeLessAsymmetric(a: Edge, b: Edge)
    requires EdgeLess(a, b)
    ensures !EdgeLess(b, a)
  {
    if a.Root? && b.Root? {
      NameLessAsymmetric(a.child, b.child);
    } else if a.Link? && b.Link? {
      if NameLess(a.parent, b.parent) {
        NameLessAsymmetric(a.parent, b.parent);
      } else {
        NameLessAsymmetric(a.child, b.child);
        NameLessIrreflexive(a.parent);
      }
    }
  }

  lemma EdgeLessTransitive(a: Edge, b: Edge, c: Edge)
    requires EdgeLess(a, b) && EdgeLess(b, c)
    ensures EdgeLess(a, c)
  {
    if a.Root? && b.Root? && c.Root? {
      NameLessTransitive(a.child, b.child, c.child);
    } else if a.Link? && b.Link? && c.Link? {
      if NameLess(a.parent, b.parent) && NameLess(b.parent, c.parent) {
        NameLessTransitive(a.parent, b.parent, c.parent);
      } else if a.parent == b.parent && b.parent == c.parent {
        NameLessTransitive(a.child, b.child, c.child);
      }
    }
  }

  lemma EdgeLessTotal(a: Edge, b: Edge)
    requires a != b
    ensures EdgeLess(a, b) || EdgeLess(b, a)
  {
    match (a, b)
    case (Root(x), Root(y)) => NameLessTotal(x, y);
    case (Root(_), Link(_, _)) =>
    case (Link(_, _), Root(_)) =>
    case (Link(p, c), Link(q, d)) =>
      if p != q { NameLessTotal(p, q); } else { NameLessTotal(c, d); }
  }

  /** Strictly increasing, hence free of duplicates. */
  predicate StrictlySorted(xs: seq<Edge>) {
    forall i, j :: 0 <= i < j < |xs| ==> EdgeLess(xs[i], xs[j])
  }

  // ---------------------------------------------------------------------------
  // sorted(set(xs))
  // ---------------------------------------------------------------------------

  /** Insert `x` into a strictly sorted list, unless it is there already. */
  function InsertEdge(x: Edge, xs: seq<Edge>): (r: seq<Edge>)
    requires StrictlySorted(xs)
    ensures StrictlySorted(r)
    ensures forall e :: e in r <==> e == x || e in xs
  {
    if xs == [] then [x]
    else if x == xs[0] then xs
    else if EdgeLess(x, xs[0]) then
      InsertFrontSorted(x, xs);
      [x] + xs
    else
      EdgeLessTotal(x, xs[0]);
      var t := InsertEdge(x, xs[1..]);
      InsertAfterSorted(xs[0], t, x, xs[1..]);
      [xs[0]] + t
  }

  lemma InsertFrontSorted(x: Edge, xs: seq<Edge>)
    requires StrictlySorted(xs) && xs != [] && EdgeLess(x, xs[0])
    ensures StrictlySorted([x] + xs)
  {
    var r := [x] + xs;
    forall i, j | 0 <= i < j < |r|
      ensures EdgeLess(r[i], r[j])
    {
      assert r[j] == xs[j - 1];
      if i == 0 {
        if j > 1 { EdgeLessTransitive(x, xs[0], xs[j - 1]); }
      } else {
        assert r[i] == xs[i - 1];
      }
    }
  }

  lemma InsertAfterSorted(h: Edge, t: seq<Edge>, x: Edge, rest: seq<Edge>)
    requires StrictlySorted(t) && EdgeLess(h, x)
    requires forall e :: e in rest ==> EdgeLess(h, e)
    requires forall e :: e in t <==> e == x || e in rest
    ensures StrictlySorted([h] + t)
  {
    forall j | 0 <= j < |t|
      ensures EdgeLess(h, t[j])
    {
      assert t[j] in t;
    }
  }

  /** `sorted(set(xs))`, inserting the elements of `xs` in turn. */
  function SortUnique(xs: seq<Edge>): (r: seq<Edge>)
    ensures StrictlySorted(r)
    ensures forall e :: e in r <==> e in xs
  {
    if xs == [] then []
    else
      var init := xs[..|xs| - 1];
      var r := InsertEdge(xs[|xs| - 1], SortUnique(init));
      assert forall e :: e in xs <==> e in init || e == xs[|xs| - 1] by {
        assert xs == init + [xs[|xs| - 1]];
      }
      r
  }

  /** A strictly sorted list is the only strictly sorted list with its elements. */
  lemma {:induction false} StrictlySortedUnique(a: seq<Edge>, b: seq<Edge>)
    requires StrictlySorted(a) && StrictlySorted(b)
    requires forall e :: e in a <==> e in b
    ensures a == b
  {
    if a != [] && b != [] {
      HeadsEqual(a, b);
      forall e
        ensures e in a[1..] <==> e in b[1..]
      {
        if e in a[1..] {
          TailMember(a, e);
          TailMember2(b, e);
        }
        if e in b[1..] {
          TailMember(b, e);
          TailMember2(a, e);
        }
      }
      StrictlySortedUnique(a[1..], b[1..]);
      assert a == [a[0]] + a[1..] && b == [b[0]] + b[1..];
    } else {
      SameElementsEmpty(a, b);
    }
  }

  lemma SameElementsEmpty(a: seq<Edge>, b: seq<Edge>)
    requires forall e :: e in a <==> e in b
    ensures a == [] <==> b == []
  {
    if a != [] { assert a[0] in b; }
    if b != [] { assert b[0] in a; }
  }

  /** Two strictly sorted lists with the same elements start alike. */
  lemma HeadsEqual(a: seq<Edge>, b: seq<Edge>)
    requires StrictlySorted(a) && StrictlySorted(b) && a != [] && b != []
    requires forall e :: e in a <==> e in b
    ensures a[0] == b[0]
  {
    assert a[0] in b && b[0] in a;
    var k :| 0 <= k < |b| && b[k] == a[0];
    var m :| 0 <= m < |a| && a[m] == b[0];
    if k > 0 {
      EdgeLessAsymmetric(b[0], a[0]);
    }
  }

  /** A member of the tail of a strictly sorted list is not its head. */
  lemma TailMember(a: seq<Edge>, e: Edge)
    requires StrictlySorted(a) && a != [] && e in a[1..]
    ensures e in a && e != a[0]
  {
    var k :| 1 <= k < |a| && a[k] == e;
    EdgeLessIrreflexive(e);
  }

  lemma TailMember2(a: seq<Edge>, e: Edge)
    requires a != [] && e in a && e != a[0]
    ensures e in a[1..]
  {
    var k :| 0 <= k < |a| && a[k] == e;
    assert a[1..][k - 1] == e;
  }

  // ---------------------------------------------------------------------------
  // Gem.flatten
  // ---------------------------------------------------------------------------

  /** All names in `ds` are registered. */
  predicate AllIn(gems: Registry, ds: seq<Name>) {
    forall i :: 0 <= i < |ds| ==> ds[i] in gems
  }

  /**
   * `Gem.flatten` of node `n`, recursing at most `fuel` levels:
   * `(n, child)` for each child, then the child's own flattening, as
   * `sorted(set(...))`.
   */
  function GemFlatten(gems: Registry, n: Name, fuel: nat): (r: seq<Edge>)
    requires Closed(gems) && n in gems
    ensures StrictlySorted(r)
    decreases fuel, 0, 0
  {
    if fuel == 0 then []
    else
      ClosedChildren(gems, n);
      SortUnique(ChildEdges(gems, n, gems[n].dependencies, fuel - 1))
  }

  lemma ClosedChildren(gems: Registry, n: Name)
    requires Closed(gems) && n in gems
    ensures AllIn(gems, gems[n].dependencies)
  {
  }

  /** The loop body of `Gem.flatten` over the children `ds` of `n`, each flattened with `fuel` levels. */
  function ChildEdges(gems: Registry, n: Name, ds: seq<Name>, fuel: nat): seq<Edge>
    requires Closed(gems) && AllIn(gems, ds)
    decreases fuel, 1, |ds|
  {
    if ds == [] then []
    else [Link(n, ds[0])] + GemFlatten(gems, ds[0], fuel) + ChildEdges(gems, n, ds[1..], fuel)
  }

  /** `p` is `n` or a descendant of `n` at most `depth` levels down. */
  predicate ReachableWithin(gems: Registry, n: Name, p: Name, depth: nat)
    decreases depth
  {
    n == p || (depth > 0 && n in gems && exists c :: c in gems[n].dependencies && ReachableWithin(gems, c, p, depth - 1))
  }

  /**
   * The edges of `Gem.flatten`: exactly the `(p, c)` links of the graph whose
   * parent is `n` or a descendant of `n` less than `fuel` levels down.
   */
  lemma {:induction false} GemFlattenEdges(gems: Registry, n: Name, fuel: nat, e: Edge)
    requires Closed(gems) && n in gems
    ensures e in GemFlatten(gems, n, fuel) <==>
              && fuel > 0 && e.Link?
              && ReachableWithin(gems, n, e.parent, fuel - 1)
              && e.parent in gems && e.child in gems[e.parent].dependencies
    decreases fuel, 0, 0
  {
    if fuel > 0 {
      var ds := gems[n].dependencies;
      ClosedChildren(gems, n);
      ChildEdgesEdges(gems, n, ds, fuel - 1, e);
      forall c | c in ds
        ensures e in GemFlatten(gems, c, fuel - 1) <==>
                  && fuel - 1 > 0 && e.Link?
                  && ReachableWithin(gems, c, e.parent, fuel - 2)
                  && e.parent in gems && e.child in gems[e.parent].dependencies
      {
        GemFlattenEdges(gems, c, fuel - 1, e);
      }
    }
  }

  lemma {:induction false} ChildEdgesEdges(gems: Registry, n: Name, ds: seq<Name>, fuel: nat, e: Edge)
    requires Closed(gems) && AllIn(gems, ds) && n in gems
    ensures e in ChildEdges(gems, n, ds, fuel) <==>
              || (e == Link(n, e.child) && e.child in ds)
              || (exists c :: c in ds && e in GemFlatten(gems, c, fuel))
    decreases fuel, 1, |ds|
  {
    if ds != [] {
      var tail := ds[1..];
      ChildEdgesEdges(gems, n, tail, fuel, e);
      assert ChildEdges(gems, n, ds, fuel) == [Link(n, ds[0])] + GemFlatten(gems, ds[0], fuel) + ChildEdges(gems, n, tail, fuel);
      assert forall c :: c in ds <==> c == ds[0] || c in tail by {
        assert ds == [ds[0]] + tail;
      }
      if exists c :: c in ds && e in GemFlatten(gems, c, fuel) {
        var c :| c in ds && e in GemFlatten(gems, c, fuel);
        if c != ds[0] {
          assert c in tail;
        }
      }
    }
  }

  // ---------------------------------------------------------------------------
  // GemfileLockParser.flatten
  // ---------------------------------------------------------------------------

  /** The loop body of `GemfileLockParser.flatten` over the roots `ds`. */
  function RootEdges(gems: Registry, ds: seq<Name>, fuel: nat): seq<Edge>
    requires Closed(gems) && AllIn(gems, ds)
  {
    if ds == [] then []
    else [Root(ds[0])] + GemFlatten(gems, ds[0], fuel) + RootEdges(gems, ds[1..], fuel)
  }

  /** `GemfileLockParser.flatten`: `(None, root)` for each root and the flattening of each root. */
  function Flatten(st: ParserState, fuel: nat): (r: seq<Edge>)
    requires Linked(st)
  {
    SortUnique(RootEdges(st.allGems, st.dependencies, fuel))
  }

  /**
   * The edges of the parser's flattening: one `Root` edge per declared
   * dependency, and every link whose parent is reachable from a declared
   * dependency in less than `fuel` steps. The result is strictly sorted,
   * so each edge appears once.
   */
  lemma FlattenEdges(st: ParserState, fuel: nat, e: Edge)
    requires Linked(st)
    ensures StrictlySorted(Flatten(st, fuel))
    ensures e in Flatten(st, fuel) <==>
              || (e.Root? && e.child in st.dependencies)
              || (&& e.Link? && fuel > 0
                  && (exists d :: d in st.dependencies && ReachableWithin(st.allGems, d, e.parent, fuel - 1))
                  && e.parent in st.allGems && e.child in st.allGems[e.parent].dependencies)
  {
    var gems, ds := st.allGems, st.dependencies;
    RootEdgesEdges(gems, ds, fuel, e);
    forall d | d in ds
      ensures e in GemFlatten(gems, d, fuel) <==>
                && fuel > 0 && e.Link?
                && ReachableWithin(gems, d, e.parent, fuel - 1)
                && e.parent in gems && e.child in gems[e.parent].dependencies
    {
      GemFlattenEdges(gems, d, fuel, e);
    }
  }

  /** One iteration of the loop of `GemfileLockParser.flatten`. */
  lemma RootEdgesStep(gems: Registry, ds: seq<Name>, i: nat, fuel: nat)
    requires Closed(gems) && AllIn(gems, ds) && i < |ds|
    ensures AllIn(gems, ds[i..]) && AllIn(gems, ds[i + 1..]) && ds[i] in gems
    ensures RootEdges(gems, ds[i..], fuel)
            == [Root(ds[i])] + GemFlatten(gems, ds[i], fuel) + RootEdges(gems, ds[i + 1..], fuel)
  {
    assert ds[i..][1..] == ds[i + 1..];
  }

  lemma {:induction false} RootEdgesEdges(gems: Registry, ds: seq<Name>, fuel: nat, e: Edge)
    requires Closed(gems) && AllIn(gems, ds)
    ensures e in RootEdges(gems, ds, fuel) <==>
              || (e == Root(e.child) && e.child in ds)
              || (exists d :: d in ds && e in GemFlatten(gems, d, fuel))
  {
    if ds != [] {
      var tail := ds[1..];
      RootEdgesEdges(gems, tail, fuel, e);
      assert forall d :: d in ds <==> d == ds[0] || d in tail by {
        assert ds == [ds[0]] + tail;
      }
      if exists d :: d in ds && e in GemFlatten(gems, d, fuel) {
        var d :| d in ds && e in GemFlatten(gems, d, fuel);
        if d != ds[0] {
          assert d in tail;
        }
      }
    }
  }

  // ---------------------------------------------------------------------------
  // Gem.as_nv_tree
  // ---------------------------------------------------------------------------

  /** A `(name, version)` key of the tree. */
  type NvKey = (Name, Option<Value>)

  /** A nested dict: each `(name, version)` key maps to the dict of that gem's children. */
  datatype NvTree = NvTree(entries: map<NvKey, NvTree>)

  function Key(gems: Registry, n: Name): NvKey
    requires n in gems
  {
    (gems[n].name, gems[n].version)
  }

  /** `Gem.as_nv_tree`: a one-entry dict from the gem's key to the tree of its children. */
  function AsNvTree(gems: Registry, n: Name, fuel: nat): (t: NvTree)
    requires Closed(gems) && n in gems
    decreases fuel, 2, 0
  {
    NvTree(map[Key(gems, n) := Children(gems, n, fuel)])
  }

  /** `tree[root]` of `Gem.as_nv_tree`, filled from the children `fuel - 1` levels deep. */
  function Children(gems: Registry, n: Name, fuel: nat): NvTree
    requires Closed(gems) && n in gems
    decreases fuel, 1, 0
  {
    if fuel == 0 then NvTree(map[])
    else
      ClosedChildren(gems, n);
      NvTree(Merged(gems, gems[n].dependencies, fuel - 1))
  }

  /** `tree[root].update(child.as_nv_tree())` for each child of `ds` in turn: a later key wins. */
  function Merged(gems: Registry, ds: seq<Name>, fuel: nat): map<NvKey, NvTree>
    requires Closed(gems) && AllIn(gems, ds)
    decreases fuel, 3, |ds|
  {
    if ds == [] then map[]
    else Merged(gems, ds[..|ds| - 1], fuel) + AsNvTree(gems, ds[|ds| - 1], fuel).entries
  }

  /**
   * The tree of a gem with fuel left has exactly one entry per child, keyed by
   * the child's name and version, and that entry holds the child's own tree.
   * No child overwrites another, because names are registry keys.
   */
  lemma AsNvTreeChildren(gems: Registry, n: Name, fuel: nat)
    requires RegistryOk(gems) && n in gems && fuel > 0
    ensures AsNvTree(gems, n, fuel).entries.Keys == {Key(gems, n)}
    ensures forall k :: k in Children(gems, n, fuel).entries <==>
              exists c :: c in gems[n].dependencies && k == Key(gems, c)
    ensures forall c :: c in gems[n].dependencies ==>
              Children(gems, n, fuel).entries[Key(gems, c)] == Children(gems, c, fuel - 1)
  {
    ClosedChildren(gems, n);
    MergedEntries(gems, gems[n].dependencies, fuel - 1);
  }

  lemma {:induction false} MergedEntries(gems: Registry, ds: seq<Name>, fuel: nat)
    requires RegistryOk(gems) && AllIn(gems, ds)
    ensures forall k :: k in Merged(gems, ds, fuel) <==> exists c :: c in ds && k == Key(gems, c)
    ensures forall c :: c in ds ==> Merged(gems, ds, fuel)[Key(gems, c)] == Children(gems, c, fuel)
  {
    if ds != [] {
      var init, last := ds[..|ds| - 1], ds[|ds| - 1];
      MergedEntries(gems, init, fuel);
      assert forall c :: c in ds <==> c in init || c == last by {
        assert ds == init + [last];
      }
      var m := Merged(gems, ds, fuel);
      var single := AsNvTree(gems, last, fuel).entries;
      assert single == map[Key(gems, last) := Children(gems, last, fuel)];
      assert m == Merged(gems, init, fuel) + single;
      forall c | c in ds
        ensures m[Key(gems, c)] == Children(gems, c, fuel)
      {
        if c != last {
          assert Key(gems, c).0 == c;
        }
      }
    }
  }
}
