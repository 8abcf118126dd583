/** Classification of the flattened dependencies against the denylist
    (src/main.rs:50-55, 289-308). */
module Matcher {
  import opened Wrappers
  import opened Deps
  import opened Denylist

  datatype MatchType = ExactMatch | NameMatch

  /** The `match_type` string the tool reports. */
  function Label(t: MatchType): string {
    match t
    case ExactMatch => "exact"
    case NameMatch => "name"
  }

  datatype MatchRecord = MatchRecord(matchType: MatchType, name: string, version: string)

  /** The dependency a record reports. */
  function Key(m: MatchRecord): Dep {
    Dep(m.name, m.version)
  }

  function Keys(ms: seq<MatchRecord>): (ks: seq<Dep>)
    ensures |ks| == |ms|
    ensures forall k | 0 <= k < |ms| :: ks[k] == Key(ms[k])
  {
    seq(|ms|, k requires 0 <= k < |ms| => Key(ms[k]))
  }

  /** The verdict on one dependency: an exact pair first, then a bare name. */
  function Verdict(d: Dep, lists: Lists): Option<MatchType> {
    if (d.name, d.version) in lists.exact then Some(ExactMatch)
    else if d.name in lists.names then Some(NameMatch)
    else None
  }

  /** The records one dependency contributes: none or one. */
  function RecordsFor(d: Dep, lists: Lists): seq<MatchRecord> {
    match Verdict(d, lists)
    case None => []
    case Some(t) => [MatchRecord(t, d.name, d.version)]
  }

  /** The records of a whole list, in list order. */
  function MatchesOf(deps: seq<Dep>, lists: Lists): seq<MatchRecord>
    decreases |deps|
  {
    if deps == [] then []
    else MatchesOf(deps[..|deps| - 1], lists) + RecordsFor(deps[|deps| - 1], lists)
  }

  /** `find_matches`: one record per matching dependency, `exact` winning
      over `name`, and whether any matched. */
  method FindMatches(deps: seq<Dep>, lists: Lists) returns (matches: seq<MatchRecord>, any: bool)
    ensures any <==> |matches| > 0
    ensures matches == MatchesOf(deps, lists)
    // Every record reports a listed dependency, as exact iff its pair is
    // denylisted and otherwise through its name.
    ensures forall m | m in matches ::
              && Key(m) in deps
              && (m.matchType == ExactMatch <==> (m.name, m.version) in lists.exact)
              && (m.matchType == NameMatch ==> m.name in lists.names)
    // Every denylisted dependency is reported, with the right type.
    ensures forall d | d in deps && (d.name, d.version) in lists.exact ::
              MatchRecord(ExactMatch, d.name, d.version) in matches
    ensures forall d | d in deps && (d.name, d.version) !in lists.exact && d.name in lists.names ::
              MatchRecord(NameMatch, d.name, d.version) in matches
  {
    matches := [];
    var i := 0;
    while i < |deps|
      invariant 0 <= i <= |deps|
      invariant matches == MatchesOf(deps[..i], lists)
      invariant forall m | m in matches ::
                  && Key(m) in deps[..i]
                  && (m.matchType == ExactMatch <==> (m.name, m.version) in lists.exact)
                  && (m.matchType == NameMatch ==> m.name in lists.names)
      invariant forall d | d in deps[..i] && (d.name, d.version) in lists.exact ::
                  MatchRecord(ExactMatch, d.name, d.version) in matches
      invariant forall d | d in deps[..i] && (d.name, d.version) !in lists.exact && d.name in lists.names ::
                  MatchRecord(NameMatch, d.name, d.version) in matches
    {
      var d := deps[i];
      assert deps[..i + 1][..i] == deps[..i];
      if (d.name, d.version) in lists.exact {
        matches := matches + [MatchRecord(ExactMatch, d.name, d.version)];
      } else if d.name in lists.names {
        matches := matches + [MatchRecord(NameMatch, d.name, d.version)];
      }
      i := i + 1;
    }
    assert deps[..i] == deps;
    any := |matches| > 0;
  }
}

/** What the match list means as a whole. */
module MatcherFacts {
  import opened Wrappers
  import opened Deps
  import opened Denylist
  import opened Matcher

  /** `idx` places each element of `a` in `b`, at strictly increasing
      positions: `a` is a subsequence of `b`. */
  predicate Embeds(idx: seq<nat>, a: seq<Dep>, b: seq<Dep>) {
    && |idx| == |a|
    && (forall k | 0 <= k < |idx| :: idx[k] < |b| && b[idx[k]] == a[k])
    && (forall k, l | 0 <= k < l < |idx| :: idx[k] < idx[l])
  }

  /** The reported dependencies are a subsequence of the input list. */
  lemma {:induction false} MatchesSubsequence(deps: seq<Dep>, lists: Lists) returns (idx: seq<nat>)
    ensures Embeds(idx, Keys(MatchesOf(deps, lists)), deps)
    decreases |deps|
  {
    if deps == [] {
      idx := [];
    } else {
      var n := |deps| - 1;
      var front := deps[..n];
      var prev := MatchesSubsequence(front, lists);
      var ms := MatchesOf(deps, lists);
      var ms' := MatchesOf(front, lists);
      assert ms == ms' + RecordsFor(deps[n], lists);
      if RecordsFor(deps[n], lists) == [] {
        idx := prev;
        assert Keys(ms) == Keys(ms');
      } else {
        idx := prev + [n];
        forall k | 0 <= k < |ms'|
          ensures Keys(ms)[k] == Keys(ms')[k]
        {
          assert ms[k] == ms'[k];
        }
        assert Keys(ms)[|ms'|] == deps[n];
      }
    }
  }

  /** A subsequence of a strictly ascending list is strictly ascending. */
  lemma EmbedsAscending(idx: seq<nat>, a: seq<Dep>, b: seq<Dep>)
    requires Embeds(idx, a, b) && StrictlyAscending(b)
    ensures StrictlyAscending(a)
  {
    forall k, l | 0 <= k < l < |a|
      ensures DepLess(a[k], a[l])
    {
      assert idx[k] < idx[l];
    }
  }

  /** Matches come out in the dependency list's order: sorted and
      duplicate-free when the list is, as the flattened list always is. */
  lemma MatchesAscending(deps: seq<Dep>, lists: Lists)
    requires StrictlyAscending(deps)
    ensures StrictlyAscending(Keys(MatchesOf(deps, lists)))
  {
    var idx := MatchesSubsequence(deps, lists);
    EmbedsAscending(idx, Keys(MatchesOf(deps, lists)), deps);
  }

  /** For lists the parser builds, a dependency is reported exactly when its
      name is denylisted: an exact entry always brings its name along. */
  lemma {:induction false} ReportedIffNameListed(deps: seq<Dep>, lists: Lists, d: Dep)
    requires ExactNamesListed(lists)
    requires d in deps
    ensures (exists m | m in MatchesOf(deps, lists) :: Key(m) == d) <==> d.name in lists.names
    decreases |deps|
  {
    var n := |deps| - 1;
    var ms := MatchesOf(deps, lists);
    var rs := RecordsFor(deps[n], lists);
    assert ms == MatchesOf(deps[..n], lists) + rs;
    if d == deps[n] {
      if d.name in lists.names {
        assert Key(rs[0]) == d && rs[0] in ms;
      } else {
        assert rs == [];
        NoRecordWithoutListedName(deps[..n], lists, d);
      }
    } else {
      assert d in deps[..n];
      ReportedIffNameListed(deps[..n], lists, d);
      if d.name in lists.names {
        var m :| m in MatchesOf(deps[..n], lists) && Key(m) == d;
        assert m in ms;
      }
    }
  }

  /** A dependency whose name is not denylisted is never reported. */
  lemma {:induction false} NoRecordWithoutListedName(deps: seq<Dep>, lists: Lists, d: Dep)
    requires ExactNamesListed(lists)
    requires d.name !in lists.names
    ensures forall m | m in MatchesOf(deps, lists) :: Key(m) != d
    decreases |deps|
  {
    if deps != [] {
      var n := |deps| - 1;
      NoRecordWithoutListedName(deps[..n], lists, d);
      assert MatchesOf(deps, lists) == MatchesOf(deps[..n], lists) + RecordsFor(deps[n], lists);
    }
  }

  /** An empty denylist matches nothing. */
  lemma {:induction false} EmptyListsMatchNothing(deps: seq<Dep>)
    ensures MatchesOf(deps, Lists({}, {})) == []
    decreases |deps|
  {
    if deps != [] {
      EmptyListsMatchNothing(deps[..|deps| - 1]);
    }
  }

  /** The lists the parser builds from the lines `left-pad` and
      `event-stream@3.3.6`: the exact line also denylists the name
      `event-stream` (src/main.rs:134). */
  lemma Example()
    ensures MatchesOf([Dep("event-stream", "3.3.6"), Dep("event-stream", "3.3.5"), Dep("left-pad", "1.0.0")],
                      Lists({("event-stream", "3.3.6")}, {"left-pad", "event-stream"}))
            == [MatchRecord(ExactMatch, "event-stream", "3.3.6"),
                MatchRecord(NameMatch, "event-stream", "3.3.5"),
                MatchRecord(NameMatch, "left-pad", "1.0.0")]
  {
    var deps := [Dep("event-stream", "3.3.6"), Dep("event-stream", "3.3.5"), Dep("left-pad", "1.0.0")];
    var lists := Lists({("event-stream", "3.3.6")}, {"left-pad", "event-stream"});
    assert ("event-stream", "3.3.5") != ("event-stream", "3.3.6");
    assert ("left-pad", "1.0.0") != ("event-stream", "3.3.6");
    assert MatchesOf(deps[..1], lists) == [MatchRecord(ExactMatch, "event-stream", "3.3.6")] by {
      assert deps[..1][..0] == [];
    }
    assert MatchesOf(deps[..2], lists) == MatchesOf(deps[..1], lists) + [MatchRecord(NameMatch, "event-stream", "3.3.5")] by {
      assert deps[..2][..1] == deps[..1];
    }
    assert deps[..3] == deps;
  }
}
