# Geolocal range engine, in Dafny

This project models the range engine of the Geolocal gem's provider base
class, `Geolocal::Provider::Base` (`lib/geolocal/provider/base.rb`). Data
sources deliver `(country, low address, high address)` triples. The provider
does four things with them:

- It checks each triple. Both ends must be in one address family, and the
  low end must not be above the high end (`add_to_results`).
- It files each range under the bucket `NAMEv4` or `NAMEv6`, but only if
  that family is enabled. Otherwise it drops the range.
- It creates the buckets up front in `update`: one empty list per
  upper-cased country and enabled family.
- It coalesces every bucket into a sorted list of ranges that neither
  overlap nor touch (`coalesce_ranges`). That list is what the generated
  module holds.

The generated module answers lookups with `search`. It picks the IPv4 or
IPv6 table by family and binary-searches it with Ruby's `Array#bsearch`.

Modules:

- `Addresses` holds address families (`Inet`, `Inet6`, any other code) and
  parsed addresses as `(family, integer)`.
- `Errors` holds one `Error` constructor per kind of failure, plus the
  `Option` and `Result` wrappers. `UnknownFamily` stands for both the
  unknown-family raise of `add_to_results` and the one of `search`.
- `Ranges` holds inclusive ranges and the shapes a list of them can have. A
  list covers a set of integers (`Covers`). It can be sorted by low end,
  disjoint, or coalesced. `CoalescedUnique` proves that a coalesced list is
  determined by the integers it covers.
- `Coalescing` holds `coalesce_ranges`. The sort is an insertion sort
  (`SortByLow`). The merge loop is the recursive function `MergeRun`, whose
  `run` argument plays the role of `lastr`.
- `Provider` holds `add_to_results`, the bucket creation in `update`, and
  the read loop of `update` (`Ingest`). `Update` chains them and then
  coalesces every bucket, as `output` does before writing.
- `Lookup` holds the `bsearch` call (`BSearch`, a loop with invariants),
  `search`, and the generated `in_NAME?` entry point (`InCountry`).
- `Scenarios` holds worked examples the verifier proves: two touching ranges
  merge; a reversed range, mixed families or a disabled family behave as the
  source says; and `in_US?`, run through `InCountry` on the tables `Update`
  builds, answers for a covered address, an uncovered one and the disabled
  family.

Bucket keys are strings, exactly `name + "v4"` / `name + "v6"`, as in the
source. Address values are unbounded integers, because the merge test
`lastr.last >= thisr.first - 1` can reach -1.

Three points of the code that the model keeps as written:

- Buckets are pre-created, and only for configured countries. A range
  whose enabled-family bucket does not exist makes `results[namefam] <<`
  raise on `nil`. This is `Error.MissingBucket`, which aborts the build.
- A lookup against a family whose table was not generated raises
  "not compiled in" (`NotCompiledIn`).
- The bucket key is the concatenated string (`KeyFor`), not a composite key.

## Model

| member | source | states |
|---|---|---|
| `Provider.Validate` | lib/geolocal/provider/base.rb:24-40 | A range whose ends are in different families fails with `FamilyMismatch`, checked first. Otherwise low > high fails with `WrongOrder`. Otherwise a family other than IPv4/IPv6 fails with `UnknownFamily` of that family. The check passes iff the ends share a family, are in order and the family is IPv4 or IPv6, and it yields that family. |
| `Provider.Check` | lib/geolocal/provider/base.rb:24-45 | The range is checked before any bucket: a failing range raises its `Validate` error. A valid range of a disabled family yields `nil`, and only then. A key is returned iff the triple's target bucket exists, and it is that target, of an enabled family. A valid range of an enabled family whose bucket `name+"v4"`/`name+"v6"` does not exist fails with `MissingBucket` naming that key, the `nil <<` crash of line 43. |
| `Provider.AddToResults` | lib/geolocal/provider/base.rb:19-46 | Mixed families raise `FamilyMismatch` and low > high raises `WrongOrder`, in that order. Either way `results` is unchanged. A valid range of a disabled family returns `nil` and changes nothing. A valid range of an enabled family is appended to the end of bucket `name+"v4"`/`name+"v6"`, that key is returned, and no other bucket changes. If that bucket is missing, it raises `MissingBucket` with `results` unchanged. |
| `Provider.AddToResultsStep` | lib/geolocal/provider/base.rb:34-45 | What `add_to_results` returns depends only on the set of existing keys. On success it appends the range to the triple's target bucket alone, and keeps the key set. |
| `Provider.UpcaseIdempotent` | lib/geolocal/provider/base.rb:50-54 | Upper-casing the already upper-cased country keys again, as the bucket loop does, changes nothing. |
| `Provider.InitialBucketsPerCountry` | lib/geolocal/provider/base.rb:53-57 | Describes `InitialBuckets`, the initial `results` of `update`. It has a bucket `UPCASE(c)+"v4"` for every configured country `c` exactly when IPv4 is enabled, and likewise for IPv6. Every bucket is empty and belongs to some configured country and enabled family. |
| `Provider.CountryBuckets` | lib/geolocal/provider/base.rb:53-57 | For a configured country, the `v4` key is among the created buckets iff IPv4 is enabled, and the `v6` key iff IPv6 is. The two suffixes never collide. |
| `Provider.BucketOwner` | lib/geolocal/provider/base.rb:53-57 | Every created bucket key is the `v4` or `v6` key of some configured country with that family enabled. |
| `Provider.Routed` | lib/geolocal/provider/base.rb:34-45 | The ranges filed under a key, in arrival order, are all well formed (low <= high). |
| `Provider.Ingest` | lib/geolocal/provider/base.rb:59 | Feeding the ranges through `add_to_results` never adds or removes a bucket. |
| `Provider.IngestSucceedsIffAccepted` | lib/geolocal/provider/base.rb:59 | The read loop completes iff every triple passes the checks of `add_to_results` against the existing buckets. |
| `Provider.IngestAppendsRouted` | lib/geolocal/provider/base.rb:59 | After the loop, every bucket holds its old contents followed by exactly the ranges filed under it, in arrival order. These are the valid ranges of an enabled family whose key is that bucket. |
| `Provider.IngestFailsAtFirstRejected` | lib/geolocal/provider/base.rb:59 | When the loop raises, all earlier triples passed the checks, and the error is that of the first triple that fails them. |
| `Provider.Update` | lib/geolocal/provider/base.rb:90-94 | The build fails iff some triple is rejected against the created buckets. On success the tables are exactly the created buckets. Each table is coalesced and covers exactly the addresses of the ranges filed under it. |
| `Provider.UpdateErrorIsFirst` | lib/geolocal/provider/base.rb:53-59 | A failed build raises the error of the first triple rejected against the created buckets, and every triple before it passed. |
| `Provider.UpdatedBucket` | lib/geolocal/provider/base.rb:90-93 | Every created bucket appears in the built tables, disjoint and sorted, and covers exactly its filed ranges. |
| `Coalescing.Insert` | lib/geolocal/provider/base.rb:100 | Inserting into a list sorted by low end keeps it sorted. It adds exactly that range: as a multiset, and as the set of elements. |
| `Coalescing.SortByLow` | lib/geolocal/provider/base.rb:100 | The sort result is ordered by low end and is a permutation of its input. |
| `Coalescing.SortKeepsSorted` | lib/geolocal/provider/base.rb:100 | Sorting a list already ordered by low end returns it unchanged. |
| `Coalescing.MergeRun` | lib/geolocal/provider/base.rb:102-114 | Given a valid run and sorted ranges all starting at or after it, the merge loop yields a coalesced list starting at the run's low end. It is at most one longer than the remaining ranges. It covers exactly the run plus the remaining ranges. |
| `Coalescing.Coalesce` | lib/geolocal/provider/base.rb:99-117 | The output is sorted, disjoint and non-adjacent: each range ends more than one before the next starts. It covers exactly the input's addresses. It is no longer than the input, so the printed difference is non-negative, and it is empty iff the input is. |
| `Coalescing.CoalesceSortedIsMerge` | lib/geolocal/provider/base.rb:99-117 | On input already sorted by low end, coalescing is the merge pass over that input. |
| `Coalescing.CoalesceFixesCoalesced` | lib/geolocal/provider/base.rb:99-117 | A list that is already coalesced comes back unchanged. |
| `Coalescing.CoalesceIdempotent` | lib/geolocal/provider/base.rb:99-117 | Coalescing twice gives the same list as coalescing once. |
| `Coalescing.CoalesceIgnoresOrder` | lib/geolocal/provider/base.rb:100 | Two inputs holding the same ranges in any order coalesce to the same list, so the unspecified tie order of `sort_by` does not matter. |
| `Ranges.CoalescedUnique` | lib/geolocal/provider/base.rb:99-117 | Two coalesced lists that cover the same integers are equal. |
| `Ranges.CoalescedIsSortedAndDisjoint` | lib/geolocal/provider/base.rb:99-117 | A coalesced list is sorted by low end and disjoint. That is the order the `bsearch` block relies on. |
| `Lookup.BSearch` | lib/geolocal/provider/base.rb:136 | On a disjoint list sorted by low end, the find-any `bsearch` with the block `num > max ? 1 : num < min ? -1 : 0` returns a range of the list that holds `num` when one exists, and `nil` exactly when none does. |
| `Lookup.Search` | lib/geolocal/provider/base.rb:126-136 | The family used is the one passed in, else the address's own (line 128, through `QueryFamily`). An unknown family raises `UnknownFamily`. A family whose table is `nil` raises `NotCompiledIn`. Otherwise the result is true iff the address's value lies in a range of that family's table. |
| `Lookup.InCountry` | lib/geolocal/provider/base.rb:82-86 | The generated `in_NAME?`, run on the tables built from the input, answers true iff some range filed under `NAME` for the query's family holds the address. It raises `NotCompiledIn` when that family was disabled, and `UnknownFamily` for other families. |
| `Scenarios.AdjacentRangesMerge` | lib/geolocal/provider/base.rb:99-117 | 1.0.0.0-1.0.0.5, 1.0.0.6-1.0.0.10 and 1.0.0.20-1.0.0.25 coalesce to 1.0.0.0-1.0.0.10 and 1.0.0.20-1.0.0.25. |
| `Scenarios.MergeExample` | lib/geolocal/provider/base.rb:106-114 | The merge loop extends the first run over the touching second range and starts a new run at the third. |
| `Scenarios.MergedExampleLookups` | lib/geolocal/provider/base.rb:136 | In the merged list, 1.0.0.8 is covered and 1.0.0.15 is not. |
| `Scenarios.UsLookup` | lib/geolocal/provider/base.rb:126-136 | On the tables built from the three example ranges with IPv6 disabled, an IPv4 query of `in_US?` answers whether a range filed under `USv4` holds the address, and an IPv6 query raises `NotCompiledIn`. |
| `Scenarios.UsLookups` | lib/geolocal/provider/base.rb:126-136 | There, 1.0.0.8 is in `US`, 1.0.0.15 is not, and asking for the IPv6 table raises `NotCompiledIn`. |
| `Scenarios.ReversedRangeFails` | lib/geolocal/provider/base.rb:28-32 | 10.0.0.5..10.0.0.1 makes the build fail with `WrongOrder`. |
| `Scenarios.MixedFamiliesFail` | lib/geolocal/provider/base.rb:20-26 | An IPv4 low end with an IPv6 high end makes the build fail with `FamilyMismatch`. |
| `Scenarios.DisabledFamilyDropped` | lib/geolocal/provider/base.rb:34-45 | With IPv6 disabled, an IPv6 range for `US` is dropped. The result is just an empty `USv4` table. |

## Left out

- Address parsing (`IPAddr.new`, `#family`, `#to_i`, and line 127 of `search`) happens in a library outside the model. Addresses enter already parsed as `(family, integer)`. A parse failure is not modelled.
- The 32-bit and 128-bit widths of address values are not enforced. Parsing guarantees them, and nothing in the engine depends on them.
- `download`, `download_files` and `read_ranges` are network access and provider-specific file parsing. The input of `update` is a sequence of `(name, low, high)` triples. The sub-keys each country maps to are only read by `read_ranges`, so they are not modelled.
- The merge of the configuration with the global `Geolocal.configuration` (line 8) is global state. The configuration is a plain `Config` value holding the two family flags and the country keys.
- Writing the output file (`File.open`, `output`, `write_header`, `write_method`, `write_ranges`) is text emission. The model keeps what it encodes: the coalesced table per bucket, and the lookup semantics of `search` and `in_NAME?`.
- `up_to_date?` reads file times and the clock. `time_block` measures elapsed time as a float. `status` prints to stdout depending on the quiet flag. All three are outside the model.
- `Provider.Upcase`: upper-cases ASCII letters only, while Ruby's `String#upcase` also maps non-ASCII letters.
- `Coalescing.Coalesce`: requires every range to have low <= high. `add_to_results` guarantees this for every range it files, and on an empty Ruby range `sort_by` would compare `nil`.
- `Lookup.Search`: returns `false` where the generated code returns `nil` for a miss.
- `Lookup.BSearch`: requires a disjoint sorted list, which `bsearch` itself demands for a meaningful answer. Its result on unsorted input is not modelled.
- `Lookup.InCountry`: is stated only for countries of the configuration, since `in_NAME?` is generated only for them.
