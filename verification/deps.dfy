/** A resolved package occurrence and the order Rust derives for it
    (src/main.rs:38-42): by name, then by version, each compared
    lexicographically character by character. */
module Deps {

  datatype Dep = Dep(name: string, version: string)

  /** Lexicographic order on strings: a proper prefix comes first,
      otherwise the first differing character decides. */
  predicate StrLess(a: string, b: string) {
    if a == [] then b != []
    else if b == [] then false
    else if a[0] != b[0] then a[0] < b[0]
    else StrLess(a[1..], b[1..])
  }

  /** Rust's derived `Ord` on `Dep`, strict. */
  predicate DepLess(x: Dep, y: Dep) {
    StrLess(x.name, y.name) || (x.name == y.name && StrLess(x.version, y.version))
  }

  /** The non-strict order. */
  predicate DepLe(x: Dep, y: Dep) {
    x == y || DepLess(x, y)
  }

  lemma {:induction false} StrLessIrreflexive(a: string)
    ensures !StrLess(a, a)
  {
    if a != [] {
      StrLessIrreflexive(a[1..]);
    }
  }

  lemma {:induction false} StrLessTransitive(a: string, b: string, c: string)
    requires StrLess(a, b) && StrLess(b, c)
    ensures StrLess(a, c)
  {
    if a != [] && b != [] && c != [] && a[0] == b[0] && b[0] == c[0] {
      StrLessTransitive(a[1..], b[1..], c[1..]);
    }
  }

  lemma {:induction false} StrLessTotal(a: string, b: string)
    ensures a == b || StrLess(a, b) || StrLess(b, a)
  {
    if a != [] && b != [] && a[0] == b[0] {
      StrLessTotal(a[1..], b[1..]);
      if a[1..] == b[1..] {
        assert a == [a[0]] + a[1..] && b == [b[0]] + b[1..];
      }
    }
  }

  /** `DepLess` is a strict total order. */
  lemma DepLessIrreflexive(x: Dep)
    ensures !DepLess(x, x)
  {
    StrLessIrreflexive(x.name);
    StrLessIrreflexive(x.version);
  }

  lemma DepLessTransitive(x: Dep, y: Dep, z: Dep)
    requires DepLess(x, y) && DepLess(y, z)
    ensures DepLess(x, z)
  {
    if StrLess(x.name, y.name) && StrLess(y.name, z.name) {
      StrLessTransitive(x.name, y.name, z.name);
    } else if StrLess(x.name, y.name) || StrLess(y.name, z.name) {
    } else {
      StrLessTransitive(x.version, y.version, z.version);
    }
  }

  lemma DepLessTotal(x: Dep, y: Dep)
    ensures x == y || DepLess(x, y) || DepLess(y, x)
  {
    StrLessTotal(x.name, y.name);
    StrLessTotal(x.version, y.version);
  }

  lemma DepLeTransitive(x: Dep, y: Dep, z: Dep)
    requires DepLe(x, y) && DepLe(y, z)
    ensures DepLe(x, z)
  {
    if x != y && y != z {
      DepLessTransitive(x, y, z);
    }
  }

  /** No two positions hold the same pair. */
  predicate Distinct(s: seq<Dep>) {
    forall i, j | 0 <= i < j < |s| :: s[i] != s[j]
  }

  /** Ascending, ties allowed. */
  predicate Sorted(s: seq<Dep>) {
    forall i, j | 0 <= i < j < |s| :: DepLe(s[i], s[j])
  }

  /** Strictly ascending, hence free of duplicates. */
  predicate StrictlyAscending(s: seq<Dep>) {
    forall i, j | 0 <= i < j < |s| :: DepLess(s[i], s[j])
  }
}

/** Rust's `Vec::sort` on `Dep` values, as an insertion sort. Any correct
    sort gives the same sequence, since the order is total. */
module DepSort {
  import opened Deps

  /** Prepending an element no greater than every element keeps a
      sequence sorted. */
  lemma SortedCons(h: Dep, t: seq<Dep>)
    ensures Sorted(t) && (forall y | y in t :: DepLe(h, y)) ==> Sorted([h] + t)
  {
    if Sorted(t) && (forall y | y in t :: DepLe(h, y)) {
      forall i, j | 0 <= i < j < |[h] + t|
        ensures DepLe(([h] + t)[i], ([h] + t)[j])
      {
        if i > 0 {
          assert ([h] + t)[i] == t[i - 1] && ([h] + t)[j] == t[j - 1];
        } else {
          assert ([h] + t)[j] in t;
        }
      }
    }
  }

  /** Below the head of a sorted sequence means below all of it. */
  lemma BelowHead(x: Dep, s: seq<Dep>)
    ensures Sorted(s) && s != [] && DepLe(x, s[0]) ==> forall y | y in s :: DepLe(x, y)
  {
    if Sorted(s) && s != [] && DepLe(x, s[0]) {
      forall y | y in s
        ensures DepLe(x, y)
      {
        DepLeTransitive(x, s[0], y);
      }
    }
  }

  /** Inserts `x` before the first element not below it. */
  function Insert(x: Dep, s: seq<Dep>): (r: seq<Dep>)
    ensures multiset(r) == multiset(s) + multiset{x}
  {
    if s == [] || DepLe(x, s[0]) then
      [x] + s
    else
      assert s == [s[0]] + s[1..];
      [s[0]] + Insert(x, s[1..])
  }

  /** Every element of `Insert(x, s)` is `x` or an element of `s`. */
  lemma InsertElements(x: Dep, s: seq<Dep>)
    ensures forall y | y in Insert(x, s) :: y == x || y in s
  {
    forall y | y in Insert(x, s)
      ensures y == x || y in s
    {
      assert y in multiset(Insert(x, s));
    }
  }

  lemma {:induction false} InsertSorted(x: Dep, s: seq<Dep>)
    requires Sorted(s)
    ensures Sorted(Insert(x, s))
  {
    if s == [] || DepLe(x, s[0]) {
      BelowHead(x, s);
      SortedCons(x, s);
    } else {
      DepLessTotal(x, s[0]);
      var t := Insert(x, s[1..]);
      InsertSorted(x, s[1..]);
      InsertElements(x, s[1..]);
      SortedCons(s[0], t);
    }
  }

  lemma {:induction false} InsertDistinct(x: Dep, s: seq<Dep>)
    requires Distinct(s) && x !in s
    ensures Distinct(Insert(x, s))
  {
    if s != [] && !DepLe(x, s[0]) {
      InsertDistinct(x, s[1..]);
      InsertElements(x, s[1..]);
      var r := Insert(x, s);
      forall i, j | 0 <= i < j < |r|
        ensures r[i] != r[j]
      {
        if i == 0 {
          assert r[j] in Insert(x, s[1..]);
        } else {
          assert r[i] == Insert(x, s[1..])[i - 1] && r[j] == Insert(x, s[1..])[j - 1];
        }
      }
    }
  }

  /** Sorts `s` ascending, keeping every element with its multiplicity. */
  function Sort(s: seq<Dep>): (r: seq<Dep>)
    ensures multiset(r) == multiset(s)
    ensures Sorted(r)
    ensures Distinct(s) ==> Distinct(r)
  {
    if s == [] then [] else
      assert s == [s[0]] + s[1..];
      var t := Sort(s[1..]);
      InsertSorted(s[0], t);
      if Distinct(s) then
        assert s[0] !in multiset(t);
        InsertDistinct(s[0], t);
        Insert(s[0], t)
      else
        Insert(s[0], t)
  }

  /** A sorted sequence without duplicates is strictly ascending. */
  lemma SortedDistinctAscending(s: seq<Dep>)
    requires Sorted(s) && Distinct(s)
    ensures StrictlyAscending(s)
  {
  }
}
