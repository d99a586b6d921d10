/**
 The table-building half of `Geolocal::Provider::Base`: validating and
 filing ranges (`add_to_results`), creating the empty buckets (`update`),
 and coalescing every bucket before it is written out (`output`).
 */
module Provider {
  import opened Addresses
  import opened Errors
  import opened Ranges
  import opened Coalescing

  /** The part of the provider's configuration the engine reads: which
      families to build and the country names (the keys of `countries`). */
  datatype Config = Config(ipv4: bool, ipv6: bool, countries: seq<string>)

  /** One range as a data source delivers it: the bucket name it is filed
      under and its two already-parsed ends. */
  datatype Triple = Triple(name: string, lo: Address, hi: Address)

  /** Ranges by bucket key (country name plus `v4`/`v6`): the `results`
      that `update` accumulates, and the coalesced tables it writes out. */
  type Buckets = map<string, seq<Range>>

  /** What `add_to_results` leaves behind: the value it returns, or the error
      it raises, together with the state of `results` afterwards. */
  datatype Added = Added(key: Result<Option<string>>, results: Buckets)

  /** Whether the configuration asks for tables of family `f`. */
  predicate Enabled(cfg: Config, f: Family) {
    (f == Inet && cfg.ipv4) || (f == Inet6 && cfg.ipv6)
  }

  /** The bucket key of `name` for an IPv4 or IPv6 range. */
  function KeyFor(name: string, f: Family): string {
    name + (if f == Inet then "v4" else "v6")
  }

  /** Ruby's `String#upcase` on ASCII letters. */
  function UpcaseChar(c: char): char {
    if 'a' <= c <= 'z' then (c as int - 32) as char else c
  }

  function Upcase(s: string): (u: string)
    ensures |u| == |s|
  {
    if s == [] then [] else [UpcaseChar(s[0])] + Upcase(s[1..])
  }

  /** Upper-casing twice is upper-casing once. */
  lemma {:induction false} UpcaseIdempotent(s: string)
    ensures Upcase(Upcase(s)) == Upcase(s)
  {
    if s != [] {
      UpcaseIdempotent(s[1..]);
      assert Upcase(s)[1..] == Upcase(s[1..]);
    }
  }

  /** The checks `add_to_results` makes on a range before looking at the
      buckets: both ends in one family, in order, and a family it knows.
      Yields the family. */
  function Validate(lo: Address, hi: Address): (r: Result<Family>)
    // The family check comes first, then the order, then the family itself.
    ensures lo.family != hi.family ==> r == Failure(FamilyMismatch(lo, hi))
    ensures lo.family == hi.family && lo.value > hi.value ==> r == Failure(WrongOrder(lo, hi))
    ensures lo.family == hi.family && lo.value <= hi.value && lo.family.OtherFamily?
            ==> r == Failure(UnknownFamily(lo.family))
    ensures r.Failure? && r.error.UnknownFamily? ==> r.error.family == lo.family == hi.family
    ensures r.Success? <==> lo.family == hi.family && lo.value <= hi.value && (lo.family.Inet? || lo.family.Inet6?)
    ensures r.Success? ==> r.value == lo.family == hi.family
  {
    if lo.family != hi.family then Failure(FamilyMismatch(lo, hi))
    else if lo.value > hi.value then Failure(WrongOrder(lo, hi))
    else if lo.family != Inet && lo.family != Inet6 then Failure(UnknownFamily(lo.family))
    else Success(lo.family)
  }

  /** `namefam`: the key a valid range of family `f` is filed under, or
      `nil` when the family is not enabled. */
  function BucketName(cfg: Config, name: string, f: Family): Option<string> {
    if Enabled(cfg, f) then Some(KeyFor(name, f)) else None
  }

  /** Everything `add_to_results` decides before it appends: the error it
      raises, or the key it returns. `keys` are the buckets that exist. */
  function Check(cfg: Config, keys: set<string>, t: Triple): (r: Result<Option<string>>)
    // The range itself is checked before any bucket is looked at.
    ensures Validate(t.lo, t.hi).Failure? ==> r == Failure(Validate(t.lo, t.hi).error)
    // A valid range of a disabled family is accepted and filed nowhere.
    ensures r == Success(None) <==> Validate(t.lo, t.hi).Success? && !Enabled(cfg, t.lo.family)
    // A key is returned exactly when the triple's target bucket exists.
    ensures (r.Success? && r.value.Some?) <==> Target(cfg, t).Some? && Target(cfg, t).value in keys
    ensures r.Success? && r.value.Some? ==> r.value == Target(cfg, t) && Enabled(cfg, t.lo.family)
    // A valid range of an enabled family whose bucket does not exist fails
    // (`nil <<`), naming the missing key.
    ensures Validate(t.lo, t.hi).Success? && Enabled(cfg, t.lo.family) && KeyFor(t.name, t.lo.family) !in keys
            ==> r == Failure(MissingBucket(KeyFor(t.name, t.lo.family)))
    ensures r.Failure? && r.error.MissingBucket? ==>
              r.error.key == KeyFor(t.name, t.lo.family) && r.error.key !in keys && Enabled(cfg, t.lo.family)
  {
    match Validate(t.lo, t.hi)
    case Failure(e) => Failure(e)
    case Success(f) =>
      match BucketName(cfg, t.name, f)
      case None => Success(None)
      case Some(k) => if k in keys then Success(Some(k)) else Failure(MissingBucket(k))
  }

  /** `add_to_results`: validates the range `lo..hi` and appends it to the
      bucket of `name` for its family when that family is enabled. */
  function AddToResults(cfg: Config, results: Buckets, name: string, lo: Address, hi: Address): (a: Added)
    // A raise leaves `results` as it was.
    ensures a.key.Failure? ==> a.results == results
    ensures lo.family != hi.family ==> a.key == Failure(FamilyMismatch(lo, hi))
    ensures lo.family == hi.family && lo.value > hi.value ==> a.key == Failure(WrongOrder(lo, hi))
    ensures lo.family == hi.family && lo.value <= hi.value && !(lo.family.Inet? || lo.family.Inet6?)
            ==> a.key == Failure(UnknownFamily(lo.family))
    // A valid range of a disabled family is dropped: `nil` is returned.
    ensures lo.family == hi.family && lo.value <= hi.value && (lo.family.Inet? || lo.family.Inet6?)
            && !Enabled(cfg, lo.family)
            ==> a.key == Success(None) && a.results == results
    // A valid range of an enabled family goes to the end of its bucket and
    // to no other; the bucket's key is returned, and must exist.
    ensures lo.family == hi.family && lo.value <= hi.value && Enabled(cfg, lo.family)
            ==> var k := KeyFor(name, lo.family);
                if k in results then
                  && a.key == Success(Some(k))
                  && a.results.Keys == results.Keys
                  && a.results[k] == results[k] + [Range(lo.value, hi.value)]
                  && forall k' :: k' in results && k' != k ==> a.results[k'] == results[k']
                else
                  a.key == Failure(MissingBucket(k)) && a.results == results
  {
    var c := Check(cfg, results.Keys, Triple(name, lo, hi));
    match c
    case Success(Some(k)) => Added(c, results[k := results[k] + [Range(lo.value, hi.value)]])
    case _ => Added(c, results)
  }

  /** The keys of `countries`, upper-cased (the first step of `update`). */
  function CountryKeys(cfg: Config): set<string> {
    set c | c in cfg.countries :: Upcase(c)
  }

  /** The buckets `update` creates: one per upper-cased country key and
      enabled family. */
  function BucketKeys(cfg: Config): set<string> {
    (if cfg.ipv4 then set k | k in CountryKeys(cfg) :: KeyFor(Upcase(k), Inet) else {})
    + (if cfg.ipv6 then set k | k in CountryKeys(cfg) :: KeyFor(Upcase(k), Inet6) else {})
  }

  /** `k` is the bucket of configured country `c` for an enabled family. */
  predicate IsBucketOf(cfg: Config, c: string, k: string) {
    (cfg.ipv4 && k == KeyFor(Upcase(c), Inet)) || (cfg.ipv6 && k == KeyFor(Upcase(c), Inet6))
  }

  /** The initial `results` of `update`: an empty list under every bucket key. */
  function InitialBuckets(cfg: Config): (r: Buckets)
    ensures r.Keys == BucketKeys(cfg)
    ensures forall k :: k in r ==> r[k] == []
  {
    map k | k in BucketKeys(cfg) :: []
  }

  /** `update` starts with exactly one empty list per upper-cased country
      and enabled family, and nothing else. */
  lemma InitialBucketsPerCountry(cfg: Config)
    ensures forall c :: c in cfg.countries ==>
              && (KeyFor(Upcase(c), Inet) in InitialBuckets(cfg) <==> cfg.ipv4)
              && (KeyFor(Upcase(c), Inet6) in InitialBuckets(cfg) <==> cfg.ipv6)
    ensures forall k :: k in InitialBuckets(cfg) ==>
              InitialBuckets(cfg)[k] == [] && exists c :: c in cfg.countries && IsBucketOf(cfg, c, k)
  {
    forall c | c in cfg.countries
      ensures KeyFor(Upcase(c), Inet) in BucketKeys(cfg) <==> cfg.ipv4
      ensures KeyFor(Upcase(c), Inet6) in BucketKeys(cfg) <==> cfg.ipv6
    {
      CountryBuckets(cfg, c);
    }
    forall k | k in BucketKeys(cfg)
      ensures exists c :: c in cfg.countries && IsBucketOf(cfg, c, k)
    {
      BucketOwner(cfg, k);
    }
  }

  /** A configured country has a bucket for exactly the enabled families. */
  lemma CountryBuckets(cfg: Config, c: string)
    requires c in cfg.countries
    ensures KeyFor(Upcase(c), Inet) in BucketKeys(cfg) <==> cfg.ipv4
    ensures KeyFor(Upcase(c), Inet6) in BucketKeys(cfg) <==> cfg.ipv6
  {
    UpcaseIdempotent(c);
    assert Upcase(c) in CountryKeys(cfg);
    SuffixesDiffer(cfg, Upcase(c));
  }

  /** Every bucket belongs to a configured country. */
  lemma BucketOwner(cfg: Config, k: string)
    requires k in BucketKeys(cfg)
    ensures exists c :: c in cfg.countries && IsBucketOf(cfg, c, k)
  {
    var u :| u in CountryKeys(cfg) && ((cfg.ipv4 && k == KeyFor(Upcase(u), Inet)) || (cfg.ipv6 && k == KeyFor(Upcase(u), Inet6)));
    var c :| c in cfg.countries && u == Upcase(c);
    UpcaseIdempotent(c);
    assert IsBucketOf(cfg, c, k);
  }

  /** A key ending in `v4` is never one ending in `v6`. */
  lemma SuffixesDiffer(cfg: Config, u: string)
    ensures KeyFor(u, Inet) !in (if cfg.ipv6 then set k | k in CountryKeys(cfg) :: KeyFor(Upcase(k), Inet6) else {})
    ensures KeyFor(u, Inet6) !in (if cfg.ipv4 then set k | k in CountryKeys(cfg) :: KeyFor(Upcase(k), Inet) else {})
  {
    forall k | k in CountryKeys(cfg)
      ensures KeyFor(u, Inet) != KeyFor(Upcase(k), Inet6)
      ensures KeyFor(u, Inet6) != KeyFor(Upcase(k), Inet)
    {
      assert KeyFor(u, Inet)[|KeyFor(u, Inet)| - 1] == '4';
      assert KeyFor(Upcase(k), Inet6)[|KeyFor(Upcase(k), Inet6)| - 1] == '6';
      assert KeyFor(u, Inet6)[|KeyFor(u, Inet6)| - 1] == '6';
      assert KeyFor(Upcase(k), Inet)[|KeyFor(Upcase(k), Inet)| - 1] == '4';
    }
  }

  /** The bucket key a triple is filed under, whatever buckets exist: its
      ends are valid and its family enabled. */
  function Target(cfg: Config, t: Triple): Option<string> {
    match Validate(t.lo, t.hi)
    case Failure(_) => None
    case Success(f) => BucketName(cfg, t.name, f)
  }

  /** The ranges of `ts`, in arrival order, that are filed under `k`: an
      independent statement of what a bucket accumulates. */
  function Routed(cfg: Config, ts: seq<Triple>, k: string): (rs: seq<Range>)
    ensures AllValid(rs)
  {
    if ts == [] then []
    else
      (if Target(cfg, ts[0]) == Some(k) then [Range(ts[0].lo.value, ts[0].hi.value)] else [])
      + Routed(cfg, ts[1..], k)
  }

  /** Every triple passes the checks of `add_to_results` against `keys`. */
  predicate AllAccepted(cfg: Config, keys: set<string>, ts: seq<Triple>) {
    forall i :: 0 <= i < |ts| ==> Check(cfg, keys, ts[i]).Success?
  }

  /** The `read_ranges` loop of `update`: every triple through
      `add_to_results` in arrival order, stopping at the first raise. */
  function Ingest(cfg: Config, results: Buckets, ts: seq<Triple>): (r: Result<Buckets>)
    ensures r.Success? ==> r.value.Keys == results.Keys
    decreases |ts|
  {
    if ts == [] then Success(results)
    else
      var a := AddToResults(cfg, results, ts[0].name, ts[0].lo, ts[0].hi);
      if a.key.Failure? then Failure(a.key.error)
      else Ingest(cfg, a.results, ts[1..])
  }

  /** One step of the loop: `add_to_results` decides by `Check` alone,
      and on success appends to the triple's target bucket only. */
  lemma AddToResultsStep(cfg: Config, results: Buckets, t: Triple)
    ensures AddToResults(cfg, results, t.name, t.lo, t.hi).key == Check(cfg, results.Keys, t)
    ensures Check(cfg, results.Keys, t).Success? ==>
              var a := AddToResults(cfg, results, t.name, t.lo, t.hi);
              && a.results.Keys == results.Keys
              && forall k :: k in results ==>
                   a.results[k] == results[k] + (if Target(cfg, t) == Some(k) then [Range(t.lo.value, t.hi.value)] else [])
  {
  }

  /** `update` gets through its input exactly when no triple raises. */
  lemma {:induction false} IngestSucceedsIffAccepted(cfg: Config, results: Buckets, ts: seq<Triple>)
    ensures Ingest(cfg, results, ts).Success? <==> AllAccepted(cfg, results.Keys, ts)
    decreases |ts|
  {
    if ts != [] {
      var t := ts[0];
      AddToResultsStep(cfg, results, t);
      var a := AddToResults(cfg, results, t.name, t.lo, t.hi);
      if a.key.Success? {
        IngestSucceedsIffAccepted(cfg, a.results, ts[1..]);
        assert forall i :: 0 < i < |ts| ==> ts[i] == ts[1..][i - 1];
      }
    }
  }

  /** After the loop every bucket holds what it held before followed by the
      ranges filed under it, in arrival order. */
  lemma {:induction false} IngestAppendsRouted(cfg: Config, results: Buckets, ts: seq<Triple>)
    requires Ingest(cfg, results, ts).Success?
    ensures forall k :: k in results ==>
              Ingest(cfg, results, ts).value[k] == results[k] + Routed(cfg, ts, k)
    decreases |ts|
  {
    if ts != [] {
      var t := ts[0];
      AddToResultsStep(cfg, results, t);
      var a := AddToResults(cfg, results, t.name, t.lo, t.hi);
      IngestAppendsRouted(cfg, a.results, ts[1..]);
      assert Ingest(cfg, results, ts) == Ingest(cfg, a.results, ts[1..]);
      forall k | k in results
        ensures Ingest(cfg, results, ts).value[k] == results[k] + Routed(cfg, ts, k)
      {
        var piece := if Target(cfg, t) == Some(k) then [Range(t.lo.value, t.hi.value)] else [];
        assert a.results[k] == results[k] + piece;
        assert Routed(cfg, ts, k) == piece + Routed(cfg, ts[1..], k);
        assert (results[k] + piece) + Routed(cfg, ts[1..], k) == results[k] + (piece + Routed(cfg, ts[1..], k));
      }
    }
  }

  /** When the loop raises, the error is that of the first triple that
      fails the checks; all before it passed. */
  lemma {:induction false} IngestFailsAtFirstRejected(cfg: Config, results: Buckets, ts: seq<Triple>)
    requires Ingest(cfg, results, ts).Failure?
    ensures exists i :: 0 <= i < |ts| && AllAccepted(cfg, results.Keys, ts[..i])
                        && Check(cfg, results.Keys, ts[i]) == Failure(Ingest(cfg, results, ts).error)
    decreases |ts|
  {
    var t := ts[0];
    AddToResultsStep(cfg, results, t);
    var a := AddToResults(cfg, results, t.name, t.lo, t.hi);
    if a.key.Failure? {
      assert AllAccepted(cfg, results.Keys, ts[..0]);
    } else {
      IngestFailsAtFirstRejected(cfg, a.results, ts[1..]);
      var i :| 0 <= i < |ts[1..]| && AllAccepted(cfg, results.Keys, ts[1..][..i])
               && Check(cfg, results.Keys, ts[1..][i]) == Failure(Ingest(cfg, a.results, ts[1..]).error);
      assert ts[..i + 1] == [t] + ts[1..][..i];
      assert ts[i + 1] == ts[1..][i];
    }
  }

  /** What a successful `update` yields for one of its buckets: a coalesced
      table covering exactly the ranges filed under it. */
  lemma UpdatedBucket(cfg: Config, ts: seq<Triple>, table: Buckets, k: string)
    requires Update(cfg, ts) == Success(table)
    requires k in BucketKeys(cfg)
    ensures k in table
    ensures Disjoint(table[k])
    ensures forall x :: Covers(table[k], x) <==> Covers(Routed(cfg, ts, k), x)
  {
    CoalescedIsSortedAndDisjoint(table[k]);
  }

  /** A failed build reports the error of the first triple rejected against
      the created buckets; every triple before it passed. */
  lemma UpdateErrorIsFirst(cfg: Config, ts: seq<Triple>)
    requires Update(cfg, ts).Failure?
    ensures exists i :: 0 <= i < |ts| && AllAccepted(cfg, BucketKeys(cfg), ts[..i])
                        && Check(cfg, BucketKeys(cfg), ts[i]) == Failure(Update(cfg, ts).error)
  {
    var init := InitialBuckets(cfg);
    IngestFailsAtFirstRejected(cfg, init, ts);
  }

  /** `update` followed by the coalescing in `output`: builds the buckets,
      files every triple, and coalesces every bucket. */
  function Update(cfg: Config, ts: seq<Triple>): (r: Result<Buckets>)
    // The build fails exactly when some triple makes `add_to_results` raise.
    ensures r.Success? <==> AllAccepted(cfg, BucketKeys(cfg), ts)
    ensures r.Success? ==> r.value.Keys == BucketKeys(cfg)
    ensures r.Success? ==> forall k :: k in r.value ==> Coalesced(r.value[k])
    // Every table covers exactly the addresses of the ranges filed under it.
    ensures r.Success? ==>
              forall k, x :: k in r.value ==> (Covers(r.value[k], x) <==> Covers(Routed(cfg, ts, k), x))
  {
    var init := InitialBuckets(cfg);
    assert init.Keys == BucketKeys(cfg);
    IngestSucceedsIffAccepted(cfg, init, ts);
    match Ingest(cfg, init, ts)
    case Failure(e) => Failure(e)
    case Success(b) =>
      IngestAppendsRouted(cfg, init, ts);
      assert forall k :: k in b ==> b[k] == Routed(cfg, ts, k) by {
        forall k | k in b
          ensures b[k] == Routed(cfg, ts, k)
        {
          assert init[k] == [];
        }
      }
      Success(map k | k in b :: Coalesce(b[k]))
  }
}
