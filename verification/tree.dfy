/** Flattening of the dependency tree (src/main.rs:255-287). The JSON
    value is modelled by its two fields the code reads. */
module Tree {
  import opened Wrappers
  import opened Deps
  import opened DepSort

  /** A tree node: its `version` when that field is a string, and the
      entries of its `dependencies` object (empty when absent or not an
      object), in document order. */
  datatype Node = Node(version: Option<string>, children: seq<(string, Node)>)

  /** The traversal state: the accumulator `acc` and the `seen` set. */
  datatype Walk = Walk(acc: seq<Dep>, seen: set<Dep>)

  /** `seen` holds exactly the accumulated pairs, each accumulated once. */
  ghost predicate Consistent(w: Walk) {
    && Distinct(w.acc)
    && forall d :: d in w.seen <==> d in w.acc
  }

  /** `d` is the `(name, version)` of the node `n`, reached under `name`,
      or of a node anywhere below it. */
  predicate Occurs(d: Dep, name: string, n: Node)
    decreases n, 1
  {
    (name == d.name && n.version == Some(d.version)) || OccursBelow(d, n, 0)
  }

  /** `d` occurs under one of the children of `n` from the `i`-th on. */
  predicate OccursBelow(d: Dep, n: Node, i: nat)
    decreases n, 0
  {
    exists j | i <= j < |n.children| :: Occurs(d, n.children[j].0, n.children[j].1)
  }

  /** Records the node's own pair unless it has no version or was seen. */
  function Visit(name: string, n: Node, w: Walk): (r: Walk)
    requires Consistent(w)
    ensures Consistent(r)
    ensures w.acc <= r.acc
    ensures forall d :: d in r.seen <==> d in w.seen || (name == d.name && n.version == Some(d.version))
  {
    if n.version.Some? then
      var key := Dep(name, n.version.value);
      if key !in w.seen then Walk(w.acc + [key], w.seen + {key}) else w
    else
      w
  }

  /** `traverse`: the node itself, then each child in order. */
  function Traverse(name: string, n: Node, w: Walk): (r: Walk)
    requires Consistent(w)
    ensures Consistent(r)
    ensures w.acc <= r.acc
    ensures forall d :: d in r.seen <==> d in w.seen || Occurs(d, name, n)
    decreases n, |n.children| + 1
  {
    TraverseChildren(n, 0, Visit(name, n, w))
  }

  /** The loop of `traverse` over the children of `n` from the `i`-th on. */
  function TraverseChildren(n: Node, i: nat, w: Walk): (r: Walk)
    requires i <= |n.children|
    requires Consistent(w)
    ensures Consistent(r)
    ensures w.acc <= r.acc
    ensures forall d :: d in r.seen <==> d in w.seen || OccursBelow(d, n, i)
    decreases n, |n.children| - i
  {
    if i == |n.children| then
      w
    else
      TraverseChildren(n, i + 1, Traverse(n.children[i].0, n.children[i].1, w))
  }
}

/** `collect_deps` and what its result means. */
module Collect {
  import opened Wrappers
  import opened Deps
  import opened DepSort
  import opened Tree

  /** `collect_deps`: traverse every entry of the root's `dependencies`,
      then sort. The root's own `version` is not recorded. */
  function CollectDeps(root: Node): (r: seq<Dep>)
    ensures StrictlyAscending(r)
    ensures forall d :: d in r <==> OccursBelow(d, root, 0)
  {
    var w := TraverseChildren(root, 0, Walk([], {}));
    var r := Sort(w.acc);
    SortedDistinctAscending(r);
    assert forall d :: d in r <==> d in multiset(w.acc);
    r
  }

  /** A strictly ascending sequence has no duplicates. */
  lemma AscendingDistinct(s: seq<Dep>)
    requires StrictlyAscending(s)
    ensures Distinct(s)
  {
    forall i, j | 0 <= i < j < |s|
      ensures s[i] != s[j]
    {
      DepLessIrreflexive(s[i]);
    }
  }

  /** Two strictly ascending sequences with the same elements are equal. */
  lemma {:induction false} AscendingUnique(a: seq<Dep>, b: seq<Dep>)
    requires StrictlyAscending(a) && StrictlyAscending(b)
    requires forall d :: d in a <==> d in b
    ensures a == b
  {
    assert a != [] ==> a[0] in a;
    assert b != [] ==> b[0] in b;
    if a != [] && b != [] {
      assert b[0] in a && a[0] in b;
      if a[0] != b[0] {
        assert DepLess(a[0], b[0]);
        assert DepLess(b[0], a[0]);
        DepLessTransitive(a[0], b[0], a[0]);
        DepLessIrreflexive(a[0]);
      }
      AscendingDistinct(a);
      AscendingDistinct(b);
      forall d
        ensures d in a[1..] <==> d in b[1..]
      {
        if d in a[1..] {
          assert d in a && d != a[0];
        }
        if d in b[1..] {
          assert d in b && d != b[0];
        }
      }
      AscendingUnique(a[1..], b[1..]);
      assert a == [a[0]] + a[1..] && b == [b[0]] + b[1..];
    }
  }

  /** The result depends only on which pairs occur in the tree, not on
      where or in which order: sibling order, duplication and nesting are
      all invisible. */
  lemma OnlyOccurrencesMatter(r1: Node, r2: Node)
    requires forall d :: OccursBelow(d, r1, 0) <==> OccursBelow(d, r2, 0)
    ensures CollectDeps(r1) == CollectDeps(r2)
  {
    AscendingUnique(CollectDeps(r1), CollectDeps(r2));
  }
}

/** Worked cases of the flattening rules. */
module CollectFacts {
  import opened Wrappers
  import opened Deps
  import opened Tree
  import opened Collect

  /** A node without a version is not reported, but everything below it
      is searched as if it had one. */
  lemma VersionlessNodeIsSearched(root: Node, j: nat, k: nat)
    requires j < |root.children|
    requires root.children[j].1.version.None?
    requires k < |root.children[j].1.children|
    requires root.children[j].1.children[k].1.version.Some?
    ensures Dep(root.children[j].1.children[k].0, root.children[j].1.children[k].1.version.value)
            in CollectDeps(root)
  {
    var (name, n) := root.children[j];
    var (cname, c) := n.children[k];
    var d := Dep(cname, c.version.value);
    assert Occurs(d, cname, c);
    assert Occurs(d, name, n);
    assert OccursBelow(d, root, 0);
  }

  /** Diamond sharing: `p@1.0.0` under both `a` and `b` is reported once,
      and the whole list comes out sorted. */
  lemma DiamondExample()
    ensures
      var p := Node(Some("1.0.0"), []);
      var root := Node(None, [("b", Node(Some("3.0.0"), [("p", p)])),
                              ("a", Node(Some("2.0.0"), [("p", p)]))]);
      CollectDeps(root) == [Dep("a", "2.0.0"), Dep("b", "3.0.0"), Dep("p", "1.0.0")]
  {
    var p := Node(Some("1.0.0"), []);
    var b := Node(Some("3.0.0"), [("p", p)]);
    var a := Node(Some("2.0.0"), [("p", p)]);
    var root := Node(None, [("b", b), ("a", a)]);
    var expected := [Dep("a", "2.0.0"), Dep("b", "3.0.0"), Dep("p", "1.0.0")];
    assert StrLess("a", "b") && StrLess("b", "p") && StrLess("a", "p");
    forall d
      ensures d in expected <==> OccursBelow(d, root, 0)
    {
      assert Occurs(d, "p", p) <==> d == Dep("p", "1.0.0");
      assert b.children[0] == ("p", p) && a.children[0] == ("p", p);
      assert Occurs(d, "b", b) <==> d == Dep("b", "3.0.0") || Occurs(d, "p", p);
      assert Occurs(d, "a", a) <==> d == Dep("a", "2.0.0") || Occurs(d, "p", p);
      assert root.children[0] == ("b", b) && root.children[1] == ("a", a);
    }
    AscendingUnique(CollectDeps(root), expected);
  }
}
