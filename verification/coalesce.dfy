/**
 `coalesce_ranges`: sort a bucket's ranges by low end, then merge in one
 pass every range that overlaps or touches the run built so far.
 */
module Coalescing {
  import opened Ranges

  /** Inserts `r` into a list sorted by low end, before the first range
      whose low end is not below `r`'s. */
  function Insert(r: Range, s: seq<Range>): (t: seq<Range>)
    requires SortedByLow(s)
    ensures SortedByLow(t)
    ensures multiset(t) == multiset(s) + multiset{r}
    ensures forall e :: e in t <==> e == r || e in s
    ensures |t| == |s| + 1
  {
    if s == [] || r.lo <= s[0].lo then [r] + s
    else
      var t := Insert(r, s[1..]);
      assert forall j :: 0 <= j < |t| ==> s[0].lo <= t[j].lo by {
        forall j | 0 <= j < |t|
          ensures s[0].lo <= t[j].lo
        {
          assert t[j] in t;
          if t[j] != r {
            var k :| 0 <= k < |s[1..]| && s[1..][k] == t[j];
            assert s[k + 1] == t[j];
          }
        }
      }
      assert s == [s[0]] + s[1..];
      [s[0]] + t
  }

  /** The sort step of `coalesce_ranges` (`sort_by { |r| r.min }`), as an
      insertion sort. */
  function SortByLow(s: seq<Range>): (t: seq<Range>)
    ensures SortedByLow(t)
    ensures multiset(t) == multiset(s)
    ensures forall e :: e in t <==> e in s
    ensures |t| == |s|
  {
    if s == [] then []
    else
      assert s == [s[0]] + s[1..];
      Insert(s[0], SortByLow(s[1..]))
  }

  /** Sorting a list already in order by low end leaves it unchanged. */
  lemma {:induction false} SortKeepsSorted(s: seq<Range>)
    requires SortedByLow(s)
    ensures SortByLow(s) == s
  {
    if s != [] {
      SortKeepsSorted(s[1..]);
      assert s == [s[0]] + s[1..];
    }
  }

  /** Lists holding the same ranges cover the same integers. */
  lemma SameElementsCover(a: seq<Range>, b: seq<Range>, x: int)
    requires forall e :: e in a <==> e in b
    ensures Covers(a, x) <==> Covers(b, x)
  {
    if Covers(a, x) {
      var i :| 0 <= i < |a| && a[i].Contains(x);
      assert a[i] in b;
    }
    if Covers(b, x) {
      var i :| 0 <= i < |b| && b[i].Contains(x);
      assert b[i] in a;
    }
  }

  /** The merge loop of `coalesce_ranges`: `run` is the last range
      committed (`lastr`) and `rest` the ranges still to visit, in order.
      A range whose low end is at most one past the run's high end extends
      the run; any other range closes it and starts the next one. */
  function MergeRun(run: Range, rest: seq<Range>): (r: seq<Range>)
    requires run.Valid()
    requires AllValid(rest)
    requires SortedByLow(rest)
    requires forall i :: 0 <= i < |rest| ==> run.lo <= rest[i].lo
    ensures r != [] && r[0].lo == run.lo
    ensures Coalesced(r)
    ensures |r| <= |rest| + 1
    ensures forall x :: Covers(r, x) <==> run.Contains(x) || Covers(rest, x)
    decreases |rest|
  {
    if rest == [] then
      assert forall x :: !Covers(rest, x);
      [run]
    else
      var next := rest[0];
      if run.hi >= next.lo - 1 then
        var grown := Range(run.lo, if next.hi > run.hi then next.hi else run.hi);
        var r := MergeRun(grown, rest[1..]);
        assert forall x :: Covers(rest, x) <==> next.Contains(x) || Covers(rest[1..], x) by {
          forall x ensures Covers(rest, x) <==> next.Contains(x) || Covers(rest[1..], x) {
            SplitCovers(rest, x);
          }
        }
        r
      else
        var tail := MergeRun(next, rest[1..]);
        assert forall x :: Covers(rest, x) <==> next.Contains(x) || Covers(rest[1..], x) by {
          forall x ensures Covers(rest, x) <==> next.Contains(x) || Covers(rest[1..], x) {
            SplitCovers(rest, x);
          }
        }
        assert forall x :: Covers([run] + tail, x) <==> run.Contains(x) || Covers(tail, x) by {
          forall x ensures Covers([run] + tail, x) <==> run.Contains(x) || Covers(tail, x) {
            SplitCovers([run] + tail, x);
            assert ([run] + tail)[1..] == tail;
          }
        }
        [run] + tail
  }

  /** A non-empty list covers what its head covers plus what its tail covers. */
  lemma SplitCovers(rs: seq<Range>, x: int)
    requires rs != []
    ensures Covers(rs, x) <==> rs[0].Contains(x) || Covers(rs[1..], x)
  {
    if Covers(rs, x) {
      var i :| 0 <= i < |rs| && rs[i].Contains(x);
      if i > 0 {
        assert rs[1..][i - 1] == rs[i];
      }
    }
    if Covers(rs[1..], x) {
      var i :| 0 <= i < |rs[1..]| && rs[1..][i].Contains(x);
      assert rs[i + 1] == rs[1..][i];
    }
  }

  /** `coalesce_ranges`: the sorted, disjoint, non-adjacent list that covers
      the same addresses as the bucket's ranges. */
  function Coalesce(rs: seq<Range>): (r: seq<Range>)
    requires AllValid(rs)
    ensures Coalesced(r)
    ensures forall x :: Covers(r, x) <==> Covers(rs, x)
    ensures |r| <= |rs|
    ensures r == [] <==> rs == []
  {
    var sorted := SortByLow(rs);
    assert AllValid(sorted) by {
      forall i | 0 <= i < |sorted|
        ensures sorted[i].Valid()
      {
        assert sorted[i] in rs;
      }
    }
    assert forall x :: Covers(sorted, x) <==> Covers(rs, x) by {
      forall x ensures Covers(sorted, x) <==> Covers(rs, x) {
        SameElementsCover(sorted, rs, x);
      }
    }
    if sorted == [] then []
    else
      assert forall x :: Covers(sorted, x) <==> sorted[0].Contains(x) || Covers(sorted[1..], x) by {
        forall x ensures Covers(sorted, x) <==> sorted[0].Contains(x) || Covers(sorted[1..], x) {
          SplitCovers(sorted, x);
        }
      }
      MergeRun(sorted[0], sorted[1..])
  }

  /** On input already sorted by low end, coalescing is the merge pass alone. */
  lemma CoalesceSortedIsMerge(rs: seq<Range>)
    requires AllValid(rs)
    requires SortedByLow(rs)
    requires rs != []
    ensures Coalesce(rs) == MergeRun(rs[0], rs[1..])
  {
    SortKeepsSorted(rs);
  }

  /** Coalescing a list that is already coalesced gives it back unchanged. */
  lemma CoalesceFixesCoalesced(rs: seq<Range>)
    requires Coalesced(rs)
    ensures Coalesce(rs) == rs
  {
    CoalescedUnique(Coalesce(rs), rs);
  }

  /** Coalescing is idempotent. */
  lemma CoalesceIdempotent(rs: seq<Range>)
    requires AllValid(rs)
    ensures Coalesce(Coalesce(rs)) == Coalesce(rs)
  {
    CoalesceFixesCoalesced(Coalesce(rs));
  }

  /** The result of coalescing depends only on which ranges the bucket
      holds, not on their order, so how `sort_by` breaks ties between
      equal low ends does not matter. */
  lemma CoalesceIgnoresOrder(a: seq<Range>, b: seq<Range>)
    requires AllValid(a)
    requires multiset(a) == multiset(b)
    ensures AllValid(b)
    ensures Coalesce(a) == Coalesce(b)
  {
    assert forall e :: e in a <==> e in b by {
      forall e ensures e in a <==> e in b {
        assert e in a <==> e in multiset(a);
        assert e in b <==> e in multiset(b);
      }
    }
    assert AllValid(b) by {
      forall i | 0 <= i < |b|
        ensures b[i].Valid()
      {
        assert b[i] in a;
      }
    }
    forall x
      ensures Covers(Coalesce(a), x) <==> Covers(Coalesce(b), x)
    {
      SameElementsCover(a, b, x);
    }
    CoalescedUnique(Coalesce(a), Coalesce(b));
  }
}
