/**
 Inclusive integer ranges, the values the provider collects for every
 (country, family) bucket, and the shapes a list of them can have:
 sorted by low end, disjoint (what binary search needs) and coalesced
 (what the generated tables hold).
 */
module Ranges {

  /** The inclusive range `lo..hi` of address values. */
  datatype Range = Range(lo: int, hi: int) {

    /** True if `x` lies between the two ends, both included. */
    predicate Contains(x: int) {
      lo <= x <= hi
    }

    /** A well-formed range holds at least one value. */
    predicate Valid() {
      lo <= hi
    }
  }

  predicate AllValid(rs: seq<Range>) {
    forall i :: 0 <= i < |rs| ==> rs[i].Valid()
  }

  /** Some range of `rs` holds `x`: the set of addresses a list stands for. */
  predicate Covers(rs: seq<Range>, x: int) {
    exists i :: 0 <= i < |rs| && rs[i].Contains(x)
  }

  /** Ascending by low end, the order `sort_by { |r| r.min }` produces. */
  predicate SortedByLow(rs: seq<Range>) {
    forall i, j :: 0 <= i < j < |rs| ==> rs[i].lo <= rs[j].lo
  }

  /** Well-formed, and every range ends before any later one starts. */
  predicate Disjoint(rs: seq<Range>) {
    && AllValid(rs)
    && forall i, j :: 0 <= i < j < |rs| ==> rs[i].hi < rs[j].lo
  }

  /** Well-formed, and at least one value lies outside the list between
      any range and every later one: no overlap and no adjacency. */
  predicate Coalesced(rs: seq<Range>) {
    && AllValid(rs)
    && forall i, j :: 0 <= i < j < |rs| ==> rs[i].hi + 1 < rs[j].lo
  }

  /** A coalesced list is sorted by low end and disjoint. */
  lemma CoalescedIsSortedAndDisjoint(rs: seq<Range>)
    requires Coalesced(rs)
    ensures SortedByLow(rs)
    ensures Disjoint(rs)
  {
  }

  /** A non-empty well-formed list covers its first low end. */
  lemma CoversFirstLow(rs: seq<Range>)
    requires AllValid(rs)
    requires rs != []
    ensures Covers(rs, rs[0].lo)
  {
    assert rs[0].Contains(rs[0].lo);
  }

  /** Nothing below the first low end of a coalesced list is covered. */
  lemma NothingBelowFirst(rs: seq<Range>, x: int)
    requires Coalesced(rs)
    requires Covers(rs, x)
    ensures rs != [] && rs[0].lo <= x
  {
    var i :| 0 <= i < |rs| && rs[i].Contains(x);
    if i > 0 {
      assert rs[0].hi + 1 < rs[i].lo;
    }
  }

  /** The value just past the first range of a coalesced list is a gap. */
  lemma GapAfterFirst(rs: seq<Range>)
    requires Coalesced(rs)
    requires rs != []
    ensures !Covers(rs, rs[0].hi + 1)
  {
    forall i | 0 <= i < |rs|
      ensures !rs[i].Contains(rs[0].hi + 1)
    {
      if i > 0 {
        assert rs[0].hi + 1 < rs[i].lo;
      }
    }
  }

  /** The tail of a coalesced list covers exactly what the whole list
      covers above the first range's high end. */
  lemma TailCovers(rs: seq<Range>, x: int)
    requires Coalesced(rs)
    requires rs != []
    ensures Covers(rs[1..], x) <==> Covers(rs, x) && rs[0].hi < x
  {
    if Covers(rs[1..], x) {
      var i :| 0 <= i < |rs[1..]| && rs[1..][i].Contains(x);
      assert rs[i + 1] == rs[1..][i];
      assert rs[0].hi + 1 < rs[i + 1].lo;
    }
    if Covers(rs, x) && rs[0].hi < x {
      var i :| 0 <= i < |rs| && rs[i].Contains(x);
      assert i != 0;
      assert rs[1..][i - 1] == rs[i];
    }
  }

  /** A coalesced list is determined by the addresses it covers: two
      coalesced lists that cover the same integers are equal. */
  lemma {:induction false} CoalescedUnique(a: seq<Range>, b: seq<Range>)
    requires Coalesced(a)
    requires Coalesced(b)
    requires forall x :: Covers(a, x) <==> Covers(b, x)
    ensures a == b
    decreases |a|
  {
    if a == [] || b == [] {
      if a != [] {
        CoversFirstLow(a);
        assert false;
      }
      if b != [] {
        CoversFirstLow(b);
        assert false;
      }
    } else {
      CoversFirstLow(a);
      NothingBelowFirst(b, a[0].lo);
      CoversFirstLow(b);
      NothingBelowFirst(a, b[0].lo);
      assert a[0].lo == b[0].lo;
      GapAfterFirst(a);
      GapAfterFirst(b);
      assert !a[0].Contains(b[0].hi + 1);
      assert !b[0].Contains(a[0].hi + 1);
      assert a[0] == b[0];
      forall x
        ensures Covers(a[1..], x) <==> Covers(b[1..], x)
      {
        TailCovers(a, x);
        TailCovers(b, x);
      }
      CoalescedUnique(a[1..], b[1..]);
      assert a == [a[0]] + a[1..];
      assert b == [b[0]] + b[1..];
    }
  }
}
