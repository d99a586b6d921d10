/**
 Worked examples the verifier proves about small inputs. IPv4 addresses
 are written as their integer values: 1.0.0.0 is 16777216 and 10.0.0.1 is
 167772161.
 */
module Scenarios {
  import opened Addresses
  import opened Errors
  import opened Ranges
  import opened Coalescing
  import opened Provider
  import opened Lookup

  /** 1.0.0.0-1.0.0.5 and 1.0.0.6-1.0.0.10 touch and merge; 1.0.0.20-1.0.0.25
      stays apart. */
  lemma AdjacentRangesMerge()
    ensures Coalesce([Range(16777216, 16777221), Range(16777222, 16777226), Range(16777236, 16777241)])
            == [Range(16777216, 16777226), Range(16777236, 16777241)]
  {
    var a, b, c := Range(16777216, 16777221), Range(16777222, 16777226), Range(16777236, 16777241);
    assert [a, b, c][1..] == [b, c];
    assert SortedByLow([a, b, c]) && AllValid([a, b, c]);
    CoalesceSortedIsMerge([a, b, c]);
    MergeExample();
  }

  /** Against the merged list, 1.0.0.8 is covered and 1.0.0.15 is not. */
  lemma MergedExampleLookups()
    ensures Covers([Range(16777216, 16777226), Range(16777236, 16777241)], 16777224)
    ensures !Covers([Range(16777216, 16777226), Range(16777236, 16777241)], 16777231)
  {
    var merged := [Range(16777216, 16777226), Range(16777236, 16777241)];
    assert merged[0].Contains(16777224);
  }

  /** The merge pass over the three ranges, which arrive already sorted. */
  lemma MergeExample()
    ensures MergeRun(Range(16777216, 16777221), [Range(16777222, 16777226), Range(16777236, 16777241)])
            == [Range(16777216, 16777226), Range(16777236, 16777241)]
  {
    var a, b, c := Range(16777216, 16777221), Range(16777222, 16777226), Range(16777236, 16777241);
    var ab := Range(16777216, 16777226);
    assert [b, c][1..] == [c];
    assert MergeRun(ab, [c]) == [ab] + MergeRun(c, []);
  }

  /** A range given high end first makes the whole build fail. */
  lemma ReversedRangeFails()
    ensures Update(Config(true, true, ["US"]),
                   [Triple("US", Address(Inet, 167772165), Address(Inet, 167772161))])
            == Failure(WrongOrder(Address(Inet, 167772165), Address(Inet, 167772161)))
  {
  }

  /** A range whose ends are an IPv4 and an IPv6 address makes the build fail. */
  lemma MixedFamiliesFail()
    ensures Update(Config(true, true, ["US"]),
                   [Triple("US", Address(Inet, 167772161), Address(Inet6, 1))])
            == Failure(FamilyMismatch(Address(Inet, 167772161), Address(Inet6, 1)))
  {
  }

  /** With IPv6 disabled an IPv6 range is dropped and no IPv6 table exists;
      the IPv4 table of the country exists and is empty. */
  lemma DisabledFamilyDropped()
    ensures Update(Config(true, false, ["us"]), [Triple("US", Address(Inet6, 1), Address(Inet6, 5))])
            == Success(map["USv4" := []])
  {
    var cfg := Config(true, false, ["us"]);
    var ts := [Triple("US", Address(Inet6, 1), Address(Inet6, 5))];
    assert Upcase("us") == "US";
    assert Upcase("US") == "US";
    assert CountryKeys(cfg) == {"US"};
    assert KeyFor("US", Inet) == "USv4";
    assert BucketKeys(cfg) == {"USv4"};
    var init := InitialBuckets(cfg);
    assert init == map["USv4" := []];
    assert Ingest(cfg, init, ts) == Success(init);
    assert Coalesce([]) == [];
    assert (map k | k in init :: Coalesce(init[k])) == init;
  }

  /** The configuration of the `in_us?` example: IPv4 only, one country. */
  const UsConfig := Config(true, false, ["US"])

  /** The three example ranges, filed under `US`. */
  const UsTriples := [Triple("US", Address(Inet, 16777216), Address(Inet, 16777221)),
                      Triple("US", Address(Inet, 16777222), Address(Inet, 16777226)),
                      Triple("US", Address(Inet, 16777236), Address(Inet, 16777241))]

  /** The only bucket of the example is `USv4`. */
  lemma UsBuckets()
    ensures BucketKeys(UsConfig) == {"USv4"}
  {
    assert Upcase("US") == "US";
    assert CountryKeys(UsConfig) == {"US"};
    assert KeyFor("US", Inet) == "USv4";
  }

  /** Every example range is accepted, and all three are filed under `USv4`. */
  lemma UsFiled()
    ensures AllAccepted(UsConfig, BucketKeys(UsConfig), UsTriples)
    ensures Routed(UsConfig, UsTriples, "USv4")
            == [Range(16777216, 16777221), Range(16777222, 16777226), Range(16777236, 16777241)]
  {
    UsBuckets();
    var ts := UsTriples;
    assert KeyFor("US", Inet) == "USv4";
    assert ts[1..][1..][1..] == [];
  }

  /** The build of the example succeeds, and `in_us?` reads its IPv4
      table from `USv4`. */
  lemma UsBuilds()
    ensures Update(UsConfig, UsTriples).Success?
    ensures KeyFor(Upcase("US"), Inet) == "USv4"
  {
    UsFiled();
    assert Upcase("US") == "US";
  }

  /** The ranges filed under `USv4` hold 1.0.0.8 and not 1.0.0.15. */
  lemma UsCovers()
    ensures Covers(Routed(UsConfig, UsTriples, "USv4"), 16777224)
    ensures !Covers(Routed(UsConfig, UsTriples, "USv4"), 16777231)
  {
    UsFiled();
    assert Routed(UsConfig, UsTriples, "USv4")[1].Contains(16777224);
  }

  /** `in_us?` on the tables `update` builds from the three example ranges:
      an IPv4 query asks whether a filed range holds the address, and an
      IPv6 query raises because IPv6 is disabled. */
  method UsLookup(address: Address, family: Option<Family>) returns (r: Result<bool>)
    ensures QueryFamily(address, family) == Inet ==>
              r == Success(Covers(Routed(UsConfig, UsTriples, "USv4"), address.value))
    ensures QueryFamily(address, family) == Inet6 ==> r == Failure(NotCompiledIn(Inet6))
  {
    var cfg, ts, us := UsConfig, UsTriples, "US";
    UsBuilds();
    var table := Update(cfg, ts).value;
    r := InCountry(cfg, ts, table, us, address, family);
  }

  /** 1.0.0.8 is in `US`, 1.0.0.15 is not, and asking for the IPv6 table
      raises. */
  method UsLookups() returns (hit: Result<bool>, miss: Result<bool>, asV6: Result<bool>)
    ensures hit == Success(true)
    ensures miss == Success(false)
    ensures asV6 == Failure(NotCompiledIn(Inet6))
  {
    UsCovers();
    hit := UsLookup(Address(Inet, 16777224), None);
    miss := UsLookup(Address(Inet, 16777231), None);
    asV6 := UsLookup(Address(Inet, 16777224), Some(Inet6));
  }
}
