/**
 The lookup the generated module performs: `search` picks the table of the
 address's family and binary-searches it for the address's value.
 */
module Lookup {
  import opened Addresses
  import opened Errors
  import opened Ranges
  import opened Provider

  /** `Array#bsearch` in find-any mode with the block
      `num > range.max ? 1 : num < range.min ? -1 : 0`: returns a range that
      holds `num`, or `nil`. Its answer is exact when the ranges are
      disjoint and in order, which is how the generated tables are. */
  method BSearch(rs: seq<Range>, num: int) returns (found: Option<Range>)
    requires Disjoint(rs)
    ensures found.Some? ==> found.value in rs && found.value.Contains(num)
    ensures found.None? <==> !Covers(rs, num)
  {
    var low, high := 0, |rs|;
    while low < high
      invariant 0 <= low <= high <= |rs|
      invariant forall i :: 0 <= i < low ==> rs[i].hi < num
      invariant forall i :: high <= i < |rs| ==> num < rs[i].lo
      decreases high - low
    {
      var mid := low + (high - low) / 2;
      var range := rs[mid];
      if num > range.hi {
        low := mid + 1;
      } else if num < range.lo {
        high := mid;
      } else {
        return Some(range);
      }
    }
    return None;
  }

  /** The family a lookup uses: the one passed in, else the address's own. */
  function QueryFamily(address: Address, family: Option<Family>): (f: Family)
    ensures family.Some? ==> f == family.value
    ensures family.None? ==> f == address.family
  {
    if family.Some? then family.value else address.family
  }

  /** The generated `search`: selects the IPv4 or IPv6 table by family,
      raises when the family is unknown or its table was not generated
      (`nil`), and otherwise answers whether the address's value lies in a
      range of the table (`true`, or `nil` modelled as `false`). */
  method Search(address: Address, family: Option<Family>, v4: Option<seq<Range>>, v6: Option<seq<Range>>)
    returns (r: Result<bool>)
    requires v4.Some? ==> Disjoint(v4.value)
    requires v6.Some? ==> Disjoint(v6.value)
    ensures QueryFamily(address, family).OtherFamily? ==> r == Failure(UnknownFamily(QueryFamily(address, family)))
    ensures QueryFamily(address, family) == Inet ==>
              r == (if v4.None? then Failure(NotCompiledIn(Inet)) else Success(Covers(v4.value, address.value)))
    ensures QueryFamily(address, family) == Inet6 ==>
              r == (if v6.None? then Failure(NotCompiledIn(Inet6)) else Success(Covers(v6.value, address.value)))
  {
    var fam := QueryFamily(address, family);
    var num := address.value;
    var table: Option<seq<Range>>;
    match fam {
      case Inet => table := v4;
      case Inet6 => table := v6;
      case OtherFamily(_) => return Failure(UnknownFamily(fam));
    }
    if table.None? {
      return Failure(NotCompiledIn(fam));
    }
    var found := BSearch(table.value, num);
    r := Success(found.Some?);
  }

  /** The generated `in_<name>?` for a country of the configuration, run
      against the tables `update` built from `ts`: it answers whether one of
      the ranges filed under that country and the query's family holds the
      address, or raises as `search` does. */
  method InCountry(cfg: Config, ts: seq<Triple>, table: Buckets, name: string, address: Address, family: Option<Family>)
    returns (r: Result<bool>)
    requires Update(cfg, ts) == Success(table)
    requires name in cfg.countries
    ensures QueryFamily(address, family).OtherFamily? ==> r == Failure(UnknownFamily(QueryFamily(address, family)))
    ensures QueryFamily(address, family) == Inet ==>
              r == (if !cfg.ipv4 then Failure(NotCompiledIn(Inet))
                    else Success(Covers(Routed(cfg, ts, KeyFor(Upcase(name), Inet)), address.value)))
    ensures QueryFamily(address, family) == Inet6 ==>
              r == (if !cfg.ipv6 then Failure(NotCompiledIn(Inet6))
                    else Success(Covers(Routed(cfg, ts, KeyFor(Upcase(name), Inet6)), address.value)))
  {
    var k4 := KeyFor(Upcase(name), Inet);
    var k6 := KeyFor(Upcase(name), Inet6);
    CountryBuckets(cfg, name);
    if cfg.ipv4 {
      UpdatedBucket(cfg, ts, table, k4);
    }
    if cfg.ipv6 {
      UpdatedBucket(cfg, ts, table, k6);
    }
    var v4: Option<seq<Range>> := if cfg.ipv4 then Some(table[k4]) else None;
    var v6: Option<seq<Range>> := if cfg.ipv6 then Some(table[k6]) else None;
    r := Search(address, family, v4, v6);
  }
}
