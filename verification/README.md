# helloip in Dafny

helloip answers "what is this IPv4 address?" by checking it against sets of address ranges. Each range source (AWS, Azure, Google Cloud, APNIC's ASN tables) supplies a batch of records. A record is an address range plus a string-to-string attribute map (`IpRangeInfos`).

Each batch becomes a range index (`RangeBasedIpInfoProvider`). Suppliers wrap each index:
- `SourcingIpInfoProviderSupplier` builds one index named after the source.
- `MultiAspectIpInfoProviderSupplier` builds one sub-index per value of one attribute, named `"<source>:<value>"`, behind an aggregating provider.

Two caching holders keep the current provider:
- `AsyncRefreshingSupplier` refreshes it periodically.
- `PrefetchingMemoizingSupplier` fetches it once.

A lookup (`IpInfoLookupImpl.infosFor`) starts from an empty `IpInfos` for the address. It asks every supplier for its current provider, skips providers that are not ready yet, and lets each provider add its hit under its own name. `RemoteIpDetector` picks the client address out of a request before the lookup: it takes the right-most untrusted, parseable `X-Forwarded-For` value when the peer is a trusted proxy.

## How the model is built

The model is functional. Records, indexes, providers and results are immutable datatypes. Every Java exception becomes a `Result` failure:
- `IOError` stands for `IOException`.
- `RuntimeError` stands for every unchecked exception (`RuntimeException`, `IllegalArgumentException`, `NumberFormatException`, `NullPointerException`, `ArrayIndexOutOfBoundsException`).

A Java `null` becomes `Option`.

- **Range map** (`RangeMaps`). Guava's `TreeRangeMap` is modelled by its documented contract. The map is a sequence of entries whose spans are bounded by Guava cuts: `Below(v)` sits just below `v` and `Above(v)` just above it.
  - `put(r, v)` cuts `r` out of every entry and then adds `(r, v)`.
  - `remove(r)` only cuts.
  - The pieces left over keep the cuts Guava gives them. A piece truncated on the left by `[0, 7]` is `(7, 10]`, not `[8, 10]`.
  - `Range.encloses` compares cuts, exactly as Guava does.
- **Range index** (`RangeIndexes`). The constructor loop probes the map at the new range's lower endpoint only. It then takes one of four branches (`Classify`):
  - put the range into a gap;
  - supersede an enclosed stored piece;
  - skip a range enclosed by the stored piece;
  - skip a partial overlap.
- **Providers** (`Providers`). `IpInfoProvider` is modelled as a datatype: a single range index, or an aggregating list of them.
- **Suppliers** (`SourcingSupplier`, `MultiAspectSupplier`, `CachingSuppliers`, `IpInfoLookups`):
  - A supplier's `get()` is a function from the source's fetch outcome to a provider, a null, or a failure.
  - The refreshing holder is a fold over the sequence of outcomes its scheduled runs see.
  - The lookup is a fold over the outcomes of the suppliers' `get()` calls for one query.
- **Sources** (`AzureSource`, `ApnicSource`, `GoogleCloudSource`, `AwsSource`). Each source's I/O is replaced by its decoded input:
  - Azure: the SAX start-element events;
  - APNIC: for each of its two files, either no reader at all (the provider returned null) or the lines `readLine` returned and whether the read then ended normally or stopped on an `IOException` (`LineRead`);
  - Google Cloud: the DNS TXT answers, given as a lookup function;
  - AWS: the JSON document decoded into a datatype.

  CIDR parsing (`Ipv4Range.parseCidr`) is a function parameter, so are IPv4 parsing (`Ipv4.parse`/`Ipv4.of`) and regex compilation.
- **Java strings** (`JavaStrings`). `String.trim`, `String.split(char)` (trailing empty strings dropped), `Integer.parseInt` (32-bit range, ASCII digits) and `Integer.toString` are written out.
- **Remote IP** (`RemoteIpDetection`). The default trusted-proxy regex is written out as a predicate over the dotted fields of the string.

### Where the model follows the code rather than its descriptions

- A failed fetch is described as leaving the previously visible provider in place. That holds for `SourcingIpInfoProviderSupplier`, which throws, because the refreshing holder ignores a run that throws. `MultiAspectIpInfoProviderSupplier` instead returns `null` on an `IOException`. The holder stores that `null`, so the provider disappears until the next good run. `SupplierWiring.MultiAspectIOErrorClears` states this.
- Take a batch `[12, 18]` then `[10, 20]`. The probe at 10 finds nothing, so the second record goes in through the gap branch, not the supersede branch. The supersede branch only fires when the probe point lies in the stored piece, as in `[10, 15]` then `[10, 20]`. `RangeIndexScenarios.BroaderRecordSupersedes` and `RangeIndexScenarios.SameStartSupersedes` show both cases.
- Suppose a stored range was truncated on the left by an earlier gap put. A later record may then cover every address of the remaining piece and still fail the `encloses` test, because the piece's lower cut is `Above(d)`, not `Below(d + 1)`. The record is then skipped as a partial overlap (`RangeIndexScenarios.TruncatedPieceIsNotEnclosed`).
- `RemoteIpDetector` says several header rows are equivalent to one comma-separated row. The value lists are not equal: `split` drops a trailing empty value inside a row but keeps it once the rows are joined (`RemoteIpDetection.TrailingCommaRow`). The chosen client address is the same, because an empty value is never an IPv4 address (`RemoteIpDetection.HeaderRowsAsOneCsv`).
- The default trusted pattern checks one to three digits per field. It is not a numeric octet test, so `10.999.999.999` counts as trusted (`RemoteIpDetection.PatternAcceptsNonAddress`).

## Model

| member | source | states |
|---|---|---|
| RangeMaps.GetEntry | helloip-java/src/main/java/io/mkr/helloip/RangeBasedIpInfoProvider.java:30 | `getEntry(p)` returns a stored entry whose range contains `p`. It returns none exactly when no stored range contains `p`. |
| RangeMaps.GetEntryUnique | helloip-java/src/main/java/io/mkr/helloip/RangeBasedIpInfoProvider.java:51 | In a map of pairwise disjoint ranges, the entry a lookup finds is the unique entry containing the address. |
| RangeMaps.OutsideLookup | helloip-java/src/main/java/io/mkr/helloip/RangeBasedIpInfoProvider.java:37 | Cutting a span out of one entry leaves pieces that cover exactly the entry's addresses outside the span, still carrying the entry's value. |
| RangeMaps.CarveLookup | helloip-java/src/main/java/io/mkr/helloip/RangeBasedIpInfoProvider.java:37 | After cutting `r` out of a map, no address of `r` is mapped, and every other address keeps its value. |
| RangeMaps.RemoveLookup | helloip-java/src/main/java/io/mkr/helloip/RangeBasedIpInfoProvider.java:37 | `remove(r)` unmaps every address of `r` and leaves every other address's value unchanged. |
| RangeMaps.PutLookup | helloip-java/src/main/java/io/mkr/helloip/RangeBasedIpInfoProvider.java:43 | `put(r, v)` maps every address of `r` to `v` and leaves every other address's value unchanged. |
| RangeMaps.OutsideShrinks | helloip-java/src/main/java/io/mkr/helloip/RangeBasedIpInfoProvider.java:37 | Each piece left by a cut lies inside the original entry's range, keeps its value, and is non-empty when the entry was. |
| RangeMaps.CarveShrinks | helloip-java/src/main/java/io/mkr/helloip/RangeBasedIpInfoProvider.java:37 | Every entry left after a cut lies inside some original entry's range and carries that entry's value. |
| RangeMaps.CarveWellFormed | helloip-java/src/main/java/io/mkr/helloip/RangeBasedIpInfoProvider.java:37 | Cutting keeps the ranges non-empty and pairwise disjoint, and leaves every range disjoint from the cut span. |
| RangeMaps.RemoveWellFormed | helloip-java/src/main/java/io/mkr/helloip/RangeBasedIpInfoProvider.java:37 | `remove` keeps the stored ranges non-empty and pairwise disjoint. |
| RangeMaps.PutWellFormed | helloip-java/src/main/java/io/mkr/helloip/RangeBasedIpInfoProvider.java:38-43 | `put` keeps the stored ranges non-empty and pairwise disjoint. |
| RangeMaps.PutShrinks | helloip-java/src/main/java/io/mkr/helloip/RangeBasedIpInfoProvider.java:38-43 | After `put(r, v)` every entry is either `(r, v)` itself or a piece of an old entry with that entry's value. |
| RangeMaps.RemoveShrinks | helloip-java/src/main/java/io/mkr/helloip/RangeBasedIpInfoProvider.java:37 | After `remove`, every entry is a piece of an old entry with that entry's value. |
| RangeIndexes.SpanOf | helloip-java/src/main/java/io/mkr/helloip/RangeBasedIpInfoProvider.java:25-28 | A record's range becomes a closed span. The span contains exactly the addresses from first to last inclusive and is never empty. |
| RangeIndexes.Classify | helloip-java/src/main/java/io/mkr/helloip/RangeBasedIpInfoProvider.java:30-44 | The probe at the new range's first address decides the branch, and each branch is an if-and-only-if. Gap: no stored piece contains that address. Skip-enclosed: the piece found there encloses the new range. Supersede: the new range strictly encloses that piece. Skip-overlap: neither encloses the other. Supersede and skip-overlap name the piece found by the probe. |
| RangeIndexes.InsertLookup | helloip-java/src/main/java/io/mkr/helloip/RangeBasedIpInfoProvider.java:30-44 | After one loop step that puts, every address of the new range maps to the new record and every other address keeps its value. After a step that skips, the index is unchanged. |
| RangeIndexes.InsertOutsideUnchanged | helloip-java/src/main/java/io/mkr/helloip/RangeBasedIpInfoProvider.java:30-44 | No loop step changes the mapping of an address outside the new record's range. |
| RangeIndexes.InsertHitsBothEnds | helloip-java/src/main/java/io/mkr/helloip/RangeBasedIpInfoProvider.java:25-28 | Once a record is put, lookups at its first and its last address both hit it, because ranges are closed. |
| RangeIndexes.InsertKeepsWellFormed | helloip-java/src/main/java/io/mkr/helloip/RangeBasedIpInfoProvider.java:23-45 | Every loop step keeps the stored ranges pairwise disjoint, so each address maps to at most one record. |
| RangeIndexes.InsertKeepsSound | helloip-java/src/main/java/io/mkr/helloip/RangeBasedIpInfoProvider.java:23-45 | Every loop step keeps each stored piece inside its own record's range, with the record drawn from the batch. |
| RangeIndexes.BuildSound | helloip-java/src/main/java/io/mkr/helloip/RangeBasedIpInfoProvider.java:23-46 | The finished map over a batch is disjoint, and every piece holds a batch record whose range encloses it. |
| RangeIndexes.NewIndex | helloip-java/src/main/java/io/mkr/helloip/RangeBasedIpInfoProvider.java:21-47 | The index carries the given name and a disjoint map. Any record it returns for an address is from the batch and contains that address. |
| RangeIndexes.AddTo | helloip-java/src/main/java/io/mkr/helloip/RangeBasedIpInfoProvider.java:50-55 | `add(ip, infos)` records the hit under the index name exactly when the lookup hits. On a miss it leaves `infos` unchanged. Other providers' entries never change. |
| RangeIndexScenarios.Boundaries | helloip-java/src/main/java/io/mkr/helloip/RangeBasedIpInfoProvider.java:25-28 | `[10, 20]` is hit at 10 and 20 and missed at 9 and 21. |
| RangeIndexScenarios.ExistingEnclosingWins | helloip-java/src/main/java/io/mkr/helloip/RangeBasedIpInfoProvider.java:33-34 | An equal or enclosed later record is skipped, and the first record keeps its whole range. |
| RangeIndexScenarios.SameStartSupersedes | helloip-java/src/main/java/io/mkr/helloip/RangeBasedIpInfoProvider.java:35-38 | `[10, 15]` then `[10, 20]`: the broader record replaces the enclosed one on all of `[10, 20]`. |
| RangeIndexScenarios.BroaderRecordSupersedes | helloip-java/src/main/java/io/mkr/helloip/RangeBasedIpInfoProvider.java:42-44 | `[12, 18]` then `[10, 20]`: the second record starts in a gap, is put, and overwrites the first everywhere. |
| RangeIndexScenarios.PartialOverlapDropsTail | helloip-java/src/main/java/io/mkr/helloip/RangeBasedIpInfoProvider.java:39-41 | `[10, 20]` then `[15, 25]`: the second record is skipped entirely, and its non-overlapping tail stays unmapped. |
| RangeIndexScenarios.TruncatedPiece | helloip-java/src/main/java/io/mkr/helloip/RangeBasedIpInfoProvider.java:42-44 | `[5, 10]` then `[0, 7]`: the gap put truncates the first record to the piece `(7, 10]`. |
| RangeIndexScenarios.TruncatedPieceIsNotEnclosed | helloip-java/src/main/java/io/mkr/helloip/RangeBasedIpInfoProvider.java:33-41 | A third record `[8, 20]` fails the cut-based enclosure test against `(7, 10]`, so it is skipped and 11..20 stay unmapped. |
| RangeIndexScenarios.BuildSingle | helloip-java/src/main/java/io/mkr/helloip/RangeBasedIpInfoProvider.java:42-44 | A batch of one record maps exactly that record's range. |
| IpInfoResults.Fresh | helloip-java/src/main/java/io/mkr/helloip/IpInfos.java:20-22 | A new result carries the queried address and no provider names. |
| IpInfoResults.InfosFromProvider | helloip-java/src/main/java/io/mkr/helloip/IpInfos.java:36-38 | `infosFromProvider(n)` is present exactly when `hasAnyFrom(n)` holds. Otherwise it is null. |
| IpInfoResults.InfoFromProvider | helloip-java/src/main/java/io/mkr/helloip/IpInfos.java:40-42 | `infoFromProvider(n, k)` fails with a runtime error exactly when no record is stored for `n`, as the null dereference does. Otherwise it is that record's attribute `k` when set. |
| IpInfoResults.Add | helloip-java/src/main/java/io/mkr/helloip/IpInfos.java:44-47 | `add(n, r)` makes `r` the record for `n`, overwriting any earlier one, and leaves other names untouched. The name set grows by exactly `n`. |
| IpInfoResults.LastAddedSome | helloip-java/src/main/java/io/mkr/helloip/IpInfos.java:44-47 | In a sequence of adds, a last record under `n` exists exactly when some add used `n`. |
| IpInfoResults.AddAllObserved | helloip-java/src/main/java/io/mkr/helloip/IpInfos.java:24-26 | After a sequence of adds to a fresh result, `hasAnyFrom(n)` holds exactly when some add used `n`. `infosFromProvider(n)` is the last record added under `n`. |
| IpInfoResults.AddAllLast | helloip-java/src/main/java/io/mkr/helloip/IpInfos.java:44-47 | After a sequence of adds, the record for a name is the last one added under it, or the earlier one if none was added. |
| Providers.AddEachConcat | helloip-java/src/main/java/io/mkr/helloip/MultiAspectIpInfoProviderSupplier.java:63-67 | Adding through a concatenated delegate list equals adding through the first part, then through the second. |
| Providers.AddEachNames | helloip-java/src/main/java/io/mkr/helloip/MultiAspectIpInfoProviderSupplier.java:63-67 | The aggregating `add` adds exactly the names of the delegates whose index contains the address, and keeps the queried address. Names no delegate hits keep their records. |
| Providers.SingleHitNames | helloip-java/src/main/java/io/mkr/helloip/RangeBasedIpInfoProvider.java:50-55 | A single index contributes its own name exactly when its lookup hits. |
| Providers.ProviderAddNames | helloip-java/src/main/java/io/mkr/helloip/MultiAspectIpInfoProviderSupplier.java:62-67 | Every provider kind adds exactly the names of its hitting indexes and leaves the other names' records as they were. |
| MultiAspectSupplier.SubIndexes | helloip-java/src/main/java/io/mkr/helloip/MultiAspectIpInfoProviderSupplier.java:41-45 | There is one sub-index per distinct aspect value, in first-appearance order. Each is named `source + ":" + value`. |
| MultiAspectSupplier.MultiAspectGet | helloip-java/src/main/java/io/mkr/helloip/MultiAspectIpInfoProviderSupplier.java:31-52 | The outcome of `get()`:<br>- an `IOException` gives null;<br>- a runtime failure propagates;<br>- a fetched batch succeeds exactly when every record has the aspect, since a null key makes `Multimaps.index` throw;<br>- on success the result is an aggregating provider with one delegate per distinct value. |
| MultiAspectSupplier.AspectValuesExact | helloip-java/src/main/java/io/mkr/helloip/MultiAspectIpInfoProviderSupplier.java:34-41 | The grouped keys are exactly the aspect values occurring in the batch, without duplicates. |
| MultiAspectSupplier.GroupMembers | helloip-java/src/main/java/io/mkr/helloip/MultiAspectIpInfoProviderSupplier.java:34-39 | A value's group holds exactly the batch records with that aspect value. |
| MultiAspectSupplier.GroupSingle | helloip-java/src/main/java/io/mkr/helloip/MultiAspectIpInfoProviderSupplier.java:34-39 | A single record forms the group of its own value, and every other group of it is empty. |
| MultiAspectSupplier.GroupConcat | helloip-java/src/main/java/io/mkr/helloip/MultiAspectIpInfoProviderSupplier.java:34-39 | Groups keep input order: the group of `a + b` is the group of `a` followed by the group of `b`. |
| MultiAspectSupplier.GroupsPartition | helloip-java/src/main/java/io/mkr/helloip/MultiAspectIpInfoProviderSupplier.java:34-43 | The group sizes over all distinct values add up to the batch size, so every record lands in exactly one sub-index. |
| MultiAspectSupplier.SubIndexHits | helloip-java/src/main/java/io/mkr/helloip/MultiAspectIpInfoProviderSupplier.java:41-45 | The sub-index names that hit an address are `source:v` for exactly the values `v` whose group's index contains it. |
| MultiAspectSupplier.QueryAddsHitSubIndexes | helloip-java/src/main/java/io/mkr/helloip/MultiAspectIpInfoProviderSupplier.java:41-67 | For a query, the aggregating provider adds exactly the names `source:v` of the groups whose index contains the address. |
| SourcingSupplier.SourcingGet | helloip-java/src/main/java/io/mkr/helloip/SourcingIpInfoProviderSupplier.java:25-32 | `get()` succeeds exactly when the fetch does, and any failure is rethrown as a runtime error. On success it returns a single disjoint index named after the source, and that index is exactly the one the `RangeBasedIpInfoProvider` constructor builds from the fetched batch. Its hits are fetched records containing the address. |
| IpInfoLookups.AccumulateOutcome | helloip-java/src/main/java/io/mkr/helloip/IpInfoLookupImpl.java:22-28 | The loop completes exactly when no supplier throws, and otherwise fails with the first supplier's exception. On completion it adds exactly the names that the non-null providers hit. |
| IpInfoLookups.InfosForOutcome | helloip-java/src/main/java/io/mkr/helloip/IpInfoLookupImpl.java:20-30 | `infosFor(ip)` succeeds exactly when every `get()` does. Its result is for `ip`, and its names are exactly those hit by the non-null providers. |
| IpInfoLookups.AllNullGivesFresh | helloip-java/src/main/java/io/mkr/helloip/IpInfoLookupImpl.java:21-29 | If every supplier returns null, the answer is the fresh, empty result. |
| IpInfoLookups.AccumulateAllNull | helloip-java/src/main/java/io/mkr/helloip/IpInfoLookupImpl.java:23-27 | A run of null providers leaves the result unchanged. |
| IpInfoLookups.AccumulateConcat | helloip-java/src/main/java/io/mkr/helloip/IpInfoLookupImpl.java:22-28 | The loop over two lists is the loop over the first, continued from its result over the second, stopping at a failure. |
| IpInfoLookups.NullReadIsSkipped | helloip-java/src/main/java/io/mkr/helloip/IpInfoLookupImpl.java:23-27 | A not-yet-initialised supplier anywhere in the list has no effect on the answer. |
| CachingSuppliers.RefreshedIsLastReturned | helloip-java/src/main/java/io/mkr/helloip/base/AsyncRefreshingSupplier.java:24-33 | After any sequence of runs, the held value is the one the last non-throwing run returned, null included. It is null if every run threw. |
| CachingSuppliers.FailedRunsAreInvisible | helloip-java/src/main/java/io/mkr/helloip/base/AsyncRefreshingSupplier.java:27-31 | A run whose delegate throws leaves the held value unchanged. |
| CachingSuppliers.ThrowingDelegateScenario | helloip-java/src/test/java/io/mkr/helloip/base/AsyncRefreshingSupplierTest.java:47-66 | A delegate that throws on its first and third calls and otherwise returns 2 and 4 is seen as null, 2, 2, 4. |
| CachingSuppliers.Prefetch | helloip-java/src/main/java/io/mkr/helloip/base/PrefetchingMemoizingSupplier.java:12-19 | Construction succeeds exactly when the delegate does and otherwise rethrows its exception. `get` then returns the value captured at construction. |
| CachingSuppliers.PrefetchAgreesWithOneRefresh | helloip-java/src/main/java/io/mkr/helloip/base/PrefetchingMemoizingSupplier.java:10-19 | A successful prefetch supplies what the refreshing holder shows after one successful run. |
| SupplierWiring.AsNullable | helloip-java/src/main/java/io/mkr/helloip/SourcingIpInfoProviderSupplier.java:25-32 | Seen as a nullable supplier, the sourcing supplier never returns null. It succeeds exactly when `get()` does. |
| SupplierWiring.MultiAspectIOErrorClears | helloip-java/src/main/java/io/mkr/helloip/MultiAspectIpInfoProviderSupplier.java:48-51 | An `IOException` in a refresh of a multi-aspect supplier clears the refreshing holder's provider, whatever it held before. |
| SupplierWiring.SourcingIOErrorKeeps | helloip-java/src/main/java/io/mkr/helloip/SourcingIpInfoProviderSupplier.java:28-31 | An `IOException` in a refresh of a sourcing supplier leaves the holder's provider as it was. |
| SupplierWiring.UniformGroup | helloip-java/src/main/java/io/mkr/helloip/MultiAspectIpInfoProviderSupplier.java:34-39 | When every record has the same aspect value, there is one group, and it is the whole batch. |
| SupplierWiring.UniformBatchAgreesWithSourcing | helloip-java/src/main/java/io/mkr/helloip/MultiAspectIpInfoProviderSupplier.java:41-46 | For a batch with a single aspect value, the multi-aspect supplier aggregates exactly the index the sourcing supplier would build, renamed `source:value`. |
| JavaStrings.TrimLeading | helloip-java/src/main/java/io/mkr/helloip/sources/ApnicAsnIpRangesSource.java:76 | The result is a suffix that starts at the first character above U+0020; everything dropped is at most U+0020. |
| JavaStrings.TrimTrailing | helloip-java/src/main/java/io/mkr/helloip/sources/ApnicAsnIpRangesSource.java:76 | The result is a prefix that ends at the last character above U+0020; everything dropped is at most U+0020. |
| JavaStrings.TrimPadded | helloip-java/src/main/java/io/mkr/helloip/sources/ApnicAsnIpRangesSource.java:76-77 | Blank padding in front of a string that starts and ends visibly is exactly what `trim` removes. This is how the right-aligned AS number column reads back. |
| JavaStrings.Trim | helloip-java/src/main/java/io/mkr/helloip/sources/ApnicAsnIpRangesSource.java:76-77 | `trim` leaves no trimmable character at either end. It changes nothing on a string without such characters, and yields empty only for an all-blank string. |
| JavaStrings.TrimIsSlice | helloip-java/src/main/java/io/mkr/helloip/sources/ApnicAsnIpRangesSource.java:76-77 | `trim` returns a contiguous slice of its argument, and every character it removes, before or after that slice, is trimmable. |
| JavaStrings.SplitAll | helloip-java-examples/src/main/java/io/mkr/helloip/examples/RemoteIpDetector.java:67 | Splitting at a character gives at least one piece. No piece contains the separator, and the pieces rejoin to the input. |
| JavaStrings.SplitAllWithoutSeparator | helloip-java/src/main/java/io/mkr/helloip/sources/ApnicAsnIpRangesSource.java:86 | A string without the separator splits into itself alone. |
| JavaStrings.SplitAllConcat | helloip-java-examples/src/main/java/io/mkr/helloip/examples/RemoteIpDetector.java:67 | The pieces of `a + sep + b` are the pieces of `a` followed by those of `b`. |
| JavaStrings.SplitAllJoin | helloip-java/src/main/java/io/mkr/helloip/sources/GoogleCloudIpRangesSource.java:81 | Joining separator-free pieces and splitting again gives back the pieces. |
| JavaStrings.DropTrailingEmpty | helloip-java-examples/src/main/java/io/mkr/helloip/examples/RemoteIpDetector.java:67 | Only empty strings are removed, only from the end, and the result does not end in one. |
| JavaStrings.SplitIsPrefixOfPieces | helloip-java-examples/src/main/java/io/mkr/helloip/examples/RemoteIpDetector.java:67 | `String.split` returns the pieces up to the last non-empty one; everything it drops is empty. |
| JavaStrings.NatToDecimal | helloip-java/src/main/java/io/mkr/helloip/sources/ApnicAsnIpRangesSource.java:91 | The decimal text of a number is a non-empty run of digits without a leading zero, and it denotes that number. |
| JavaStrings.ParseInt | helloip-java/src/main/java/io/mkr/helloip/sources/ApnicAsnIpRangesSource.java:88 | `Integer.parseInt` accepts only non-empty text, and every value it returns lies in the 32-bit signed range. |
| JavaStrings.ParseIntToString | helloip-java/src/main/java/io/mkr/helloip/sources/ApnicAsnIpRangesSource.java:88-91 | `Integer.parseInt(Integer.toString(n))` is `n` for every 32-bit `n`. |
| JavaStrings.ParseIntCanonical | helloip-java/src/main/java/io/mkr/helloip/sources/ApnicAsnIpRangesSource.java:88-91 | Take accepted text without `+` and without a leading zero, other than `"0"` itself (so `"-0"` is excluded). It is exactly `Integer.toString` of the value `parseInt` gives, so `toString` inverts `parseInt` on such text. |
| JavaStrings.ParseIntPlus | helloip-java/src/main/java/io/mkr/helloip/sources/ApnicAsnIpRangesSource.java:88 | A leading `+` changes nothing: `parseInt("+" + d)` equals `parseInt(d)` for every digit string `d`, whether accepted or rejected. |
| AzureSource.AzureRanges | helloip-java/src/main/java/io/mkr/helloip/sources/AzureIpRangesSource.java:52-68 | A null reader gives an empty list. A reader that fails to open and a malformed document both give an `IOException`, and no other failure kind occurs. A parsed document succeeds exactly when the handler gets through all its elements. |
| AzureSource.IpRangePositions | helloip-java/src/main/java/io/mkr/helloip/sources/AzureIpRangesSource.java:85-88 | Lists the positions of exactly the `IpRange` elements, in document order. |
| AzureSource.HandleAllMatchesElements | helloip-java/src/main/java/io/mkr/helloip/sources/AzureIpRangesSource.java:78-90 | The handler completes exactly when every `IpRange` subnet parses. It then emits one record per `IpRange`, in order, tagged with the last preceding `Region` name, or null if there is none. Other elements change nothing. |
| AzureSource.HandleStep | helloip-java/src/main/java/io/mkr/helloip/sources/AzureIpRangesSource.java:78-90 | One more `startElement` keeps the handler in agreement with the reference definition. A `Region` changes only the current region, an `IpRange` appends one record tagged with it, and other elements change nothing. |
| AzureSource.AzureRangesOfDocument | helloip-java/src/main/java/io/mkr/helloip/sources/AzureIpRangesSource.java:55-60 | For a parsed document, the result has one record per `IpRange` element, in order, carrying its subnet and region. |
| ApnicSource.ParseAutnumLine | helloip-java/src/main/java/io/mkr/helloip/sources/ApnicAsnIpRangesSource.java:76-78 | An autnums line is usable exactly when it has at least 6 characters and characters 0..4 trim to an integer. The ASN is that integer; the org is the trimmed text from index 6. Anything else throws. |
| ApnicSource.AutnumEntries | helloip-java/src/main/java/io/mkr/helloip/sources/ApnicAsnIpRangesSource.java:73-80 | The autnums loop succeeds exactly when every line parses, yielding one entry per line in order. One bad line aborts the fetch. |
| ApnicSource.OrgMapKeys | helloip-java/src/main/java/io/mkr/helloip/sources/ApnicAsnIpRangesSource.java:78 | The ASN map holds exactly the ASNs named by some line. |
| ApnicSource.OrgMapLastWins | helloip-java/src/main/java/io/mkr/helloip/sources/ApnicAsnIpRangesSource.java:78 | A repeated ASN keeps the organisation of its last line. |
| ApnicSource.ParseRawLine | helloip-java/src/main/java/io/mkr/helloip/sources/ApnicAsnIpRangesSource.java:86-93 | A raw-table line succeeds exactly when its tab split has two fields, field 0 parses as a CIDR and field 1 trims to an integer. The record is that range with the ASN attributes. |
| ApnicSource.RawRecords | helloip-java/src/main/java/io/mkr/helloip/sources/ApnicAsnIpRangesSource.java:83-95 | The raw-table loop succeeds exactly when every line does. It yields one record per line, in order. |
| ApnicSource.ParseColumns | helloip-java/src/main/java/io/mkr/helloip/sources/ApnicAsnIpRangesSource.java:76-78 | Any five-character number field, a separator and an already trimmed organisation give that number and organisation. |
| ApnicSource.ApnicRanges | helloip-java/src/main/java/io/mkr/helloip/sources/ApnicAsnIpRangesSource.java:70-97 | A null autnums reader is a runtime failure (`NullPointerException`). Each file is converted line by line as it is read. A bad autnums line among those read is a runtime failure, even when the read broke off later, and then the table is not consulted. If every autnums line read is good but the read broke off, the `IOException` escapes. With the map built, a null table reader is a runtime failure, a bad table line is a runtime failure before a later table read failure, and a good but broken table read is an `IOException`. Otherwise the result is the raw-table loop run against the map built from the autnums entries. Success needs both reads complete and gives one record per table line. |
| ApnicSource.ParsedLineJoined | helloip-java/src/main/java/io/mkr/helloip/sources/ApnicAsnIpRangesSource.java:86-92 | A raw-table line parsed against the map of the autnums entries is joined with them. Its range is the line's CIDR, and `ASN` is `Integer.toString` of the line's number. `ASNORG` is the organisation of the last entry for that number, or `"unknown"` when no entry names it. |
| ApnicSource.ApnicRecordJoin | helloip-java/src/main/java/io/mkr/helloip/sources/ApnicAsnIpRangesSource.java:70-97 | Record `i` of a successful fetch is raw-table line `i` joined with the autnums entries, as `ParsedLineJoined` states. |
| ApnicSource.AsnTextRoundTrip | helloip-java/src/main/java/io/mkr/helloip/sources/ApnicAsnIpRangesSource.java:89-92 | A record's attributes are exactly `ASN` and `ASNORG`. `ASN` parses back to the number. `ASNORG` is `"unknown"` exactly when the ASN is unmapped or mapped to that word. |
| ApnicSource.UnlistedAsnIsUnknown | helloip-java/src/main/java/io/mkr/helloip/sources/ApnicAsnIpRangesSource.java:89-92 | An ASN no autnums line names gets the organisation `"unknown"`. |
| ApnicSource.ShortLine | helloip-java/src/main/java/io/mkr/helloip/sources/ApnicAsnIpRangesSource.java:76-77 | Any autnums line shorter than six characters throws, whatever its content. |
| ApnicSource.AutnumLineExample | helloip-java/src/main/java/io/mkr/helloip/sources/ApnicAsnIpRangesSource.java:76-78 | A line `"   13" + " " + org`, with an organisation that starts and ends visibly, gives ASN 13 and that organisation. The 5-character line `"   13"` throws. |
| GoogleCloudSource.StripLeadingQuotes | helloip-java/src/main/java/io/mkr/helloip/sources/GoogleCloudIpRangesSource.java:119 | Leaves the suffix starting at the first character that is not a quote; only quotes are dropped. |
| GoogleCloudSource.StripTrailingQuotes | helloip-java/src/main/java/io/mkr/helloip/sources/GoogleCloudIpRangesSource.java:119 | Leaves the prefix ending at the last character that is not a quote; only quotes are dropped. |
| GoogleCloudSource.StripQuotes | helloip-java/src/main/java/io/mkr/helloip/sources/GoogleCloudIpRangesSource.java:119 | The result neither starts nor ends with `"` or `'`. A string without quotes is unchanged. |
| GoogleCloudSource.StripIsSlice | helloip-java/src/main/java/io/mkr/helloip/sources/GoogleCloudIpRangesSource.java:119 | Stripping returns a contiguous slice of the entry, and every character it removes, before or after that slice, is a quote. |
| GoogleCloudSource.TxtEntries | helloip-java/src/main/java/io/mkr/helloip/sources/GoogleCloudIpRangesSource.java:116-121 | There is one entry per TXT string, in order. Entry `i` is TXT string `i` stripped of quotes, so it is free of quotes at both ends. |
| GoogleCloudSource.StripQuotesIdempotent | helloip-java/src/main/java/io/mkr/helloip/sources/GoogleCloudIpRangesSource.java:119 | Stripping quotes twice is the same as stripping once. |
| GoogleCloudSource.JdkLookup | helloip-java/src/main/java/io/mkr/helloip/sources/GoogleCloudIpRangesSource.java:106-125 | The JDK retriever over raw TXT answers resolves exactly the domains the raw lookup resolves. For such a domain its answer is `TxtEntries` of the raw strings: entry `i` is raw string `i` with its quotes stripped, and stripping it again leaves it unchanged. |
| GoogleCloudSource.ScanTokens | helloip-java/src/main/java/io/mkr/helloip/sources/GoogleCloudIpRangesSource.java:82-87 | Every value found is a token with the statement prefix removed. With no such token, nothing is found. |
| GoogleCloudSource.ScanTokensConcat | helloip-java/src/main/java/io/mkr/helloip/sources/GoogleCloudIpRangesSource.java:82-88 | Scanning is compositional: the matches of two token lists are the matches of each, in order. |
| GoogleCloudSource.ScanStatements | helloip-java/src/main/java/io/mkr/helloip/sources/GoogleCloudIpRangesSource.java:79-89 | Scanning statement tokens `statement + v` returns exactly the values `v`, in order. |
| GoogleCloudSource.SplitJoinTokens | helloip-java/src/main/java/io/mkr/helloip/sources/GoogleCloudIpRangesSource.java:81 | Space-free, non-empty tokens joined by spaces split back into the same tokens. |
| GoogleCloudSource.SpfRoundTrip | helloip-java/src/main/java/io/mkr/helloip/sources/GoogleCloudIpRangesSource.java:79-89 | Take an SPF record written as `v=spf1`, then statements `statement + v`, then unrelated tokens. It passes the `v=spf1` filter, and scanning it returns exactly the values `v`. |
| GoogleCloudSource.RetrieveSpfRule | helloip-java/src/main/java/io/mkr/helloip/sources/GoogleCloudIpRangesSource.java:61-77 | Retrieval fails, with an `IOException`, exactly when the DNS lookup does. On success it returns the statements of the domain's SPF records, in record order. |
| GoogleCloudSource.NonSpfRecordsIgnored | helloip-java/src/main/java/io/mkr/helloip/sources/GoogleCloudIpRangesSource.java:66-70 | TXT records that do not start with `v=spf1` contribute nothing. |
| GoogleCloudSource.SpfStatementsSingle | helloip-java/src/main/java/io/mkr/helloip/sources/GoogleCloudIpRangesSource.java:66-71 | A single TXT record contributes the scan of its statements if it starts with `v=spf1`, and nothing otherwise. |
| GoogleCloudSource.SpfStatementsConcat | helloip-java/src/main/java/io/mkr/helloip/sources/GoogleCloudIpRangesSource.java:66-71 | Records are scanned one after another: the statements of `a + b` are the statements of `a` followed by those of `b`. |
| GoogleCloudSource.CidrRecords | helloip-java/src/main/java/io/mkr/helloip/sources/GoogleCloudIpRangesSource.java:52-56 | The `ip4:` values of one domain become records exactly when all parse as CIDRs. There is one record per value, in order, whose only attribute is `group` = the domain. |
| GoogleCloudSource.DomainRecords | helloip-java/src/main/java/io/mkr/helloip/sources/GoogleCloudIpRangesSource.java:51-56 | A failed lookup of a level-1 domain is an `IOException`. An unparsable CIDR is a runtime failure. Otherwise there is one record per `ip4:` value of the domain's SPF records, in order, with that value's range and only `group` = the domain. |
| GoogleCloudSource.AllDomainRecordsFlatten | helloip-java/src/main/java/io/mkr/helloip/sources/GoogleCloudIpRangesSource.java:48-58 | The level-1 loop equals a map over the domains in order, followed by concatenation of each domain's records. It has the same records in the same order, and fails with the first domain's failure. |
| GoogleCloudSource.AllDomainRecordsTagged | helloip-java/src/main/java/io/mkr/helloip/sources/GoogleCloudIpRangesSource.java:47-59 | The second level succeeds exactly when every included domain does. Each record's attributes are exactly `group` = one of the included domains. |
| GoogleCloudSource.GoogleRanges | helloip-java/src/main/java/io/mkr/helloip/sources/GoogleCloudIpRangesSource.java:47-59 | A failed lookup of the root domain is an `IOException`. Otherwise the result is the level-1 loop over the root's `include:` domains, in order (`AllDomainRecords` of `IncludedDomains`): by `AllDomainRecordsFlatten` and `DomainRecords`, each domain's `ip4:` records in order, each tagged with its own domain, with the first failing domain's failure. So `getIpRanges` succeeds exactly when every included domain's records do, and every record is tagged with one of the included domains. |
| AwsSource.PrefixRecord | helloip-java/src/main/java/io/mkr/helloip/sources/AwsIpRangesSource.java:60-62 | A prefix entry becomes a record exactly when its prefix parses and its service and region are present. `ImmutableMap.of` rejects nulls. The record has the parsed range and exactly the two attributes copied from the entry. |
| Wrappers.MapAll | helloip-java/src/main/java/io/mkr/helloip/sources/AwsIpRangesSource.java:59-63 | A loop that converts each element in turn succeeds exactly when every element converts. It then gives the converted elements in order, one for one. Otherwise it fails with the error of an element before which every element converted, i.e. the first failure. |
| AwsSource.PrefixRecords | helloip-java/src/main/java/io/mkr/helloip/sources/AwsIpRangesSource.java:59-63 | One record per prefix entry, in order and without deduplication, or the failure of the first bad entry. |
| AwsSource.AwsRanges | helloip-java/src/main/java/io/mkr/helloip/sources/AwsIpRangesSource.java:54-66 | A decoding failure propagates. A document without a `prefixes` list throws. Otherwise the result is the prefix records. |
| AwsSource.SampleDocument | helloip-java/src/test/java/io/mkr/helloip/sources/AwsIpRangesSourceTest.java:18-52 | The four-entry sample document gives four records, for any prefixes that parse. The first has the first prefix's range, exactly two attributes, region `us-east-1` and service `AMAZON`. The third entry repeats that prefix for `EC2` and is kept as its own record. |
| RemoteIpDetection.DefaultDetector | helloip-java-examples/src/main/java/io/mkr/helloip/examples/RemoteIpDetector.java:20-29 | A new detector reads `X-Forwarded-For` and trusts exactly the strings the default pattern matches. |
| RemoteIpDetection.SetTrustedProxyIpsPattern | helloip-java-examples/src/main/java/io/mkr/helloip/examples/RemoteIpDetector.java:77-83 | A null or empty pattern disables header inspection. Any other pattern replaces the trusted test when it compiles and throws when it does not. The header name never changes. |
| RemoteIpDetection.SetRemoteHeaderName | helloip-java-examples/src/main/java/io/mkr/helloip/examples/RemoteIpDetector.java:73-75 | Sets the header name and keeps the pattern. |
| RemoteIpDetection.ValuesFromCsvHeaders | helloip-java-examples/src/main/java/io/mkr/helloip/examples/RemoteIpDetector.java:61-71 | Without header access there are no values. |
| RemoteIpDetection.PeerAddress | helloip-java-examples/src/main/java/io/mkr/helloip/examples/RemoteIpDetector.java:49 | The fallback succeeds exactly when the peer address parses as IPv4, and throws otherwise. |
| RemoteIpDetection.ScanFromRight | helloip-java-examples/src/main/java/io/mkr/helloip/examples/RemoteIpDetector.java:37-47 | The backwards scan stops at the right-most value that is untrusted and parses. It reports none exactly when no value qualifies. |
| RemoteIpDetection.RemoteIp | helloip-java-examples/src/main/java/io/mkr/helloip/examples/RemoteIpDetector.java:31-50 | An untrusted peer, or a disabled pattern, gives the peer address. Otherwise the result is the right-most untrusted, parseable header value, or the peer address when there is none. |
| RemoteIpDetection.PickIsRightmost | helloip-java-examples/src/main/java/io/mkr/helloip/examples/RemoteIpDetector.java:37-47 | The functional reading of the scan picks exactly the right-most qualifying value, and none when there is none. |
| RemoteIpDetection.SplitAndPiecesAgree | helloip-java-examples/src/main/java/io/mkr/helloip/examples/RemoteIpDetector.java:67 | Ignoring empty values, `String.split` and the full list of pieces give the same trimmed values. |
| RemoteIpDetection.PiecesOfJoinedRows | helloip-java-examples/src/main/java/io/mkr/helloip/examples/RemoteIpDetector.java:61-71 | Ignoring empty values, the pieces of the rows joined by commas are the values of the rows in order. |
| RemoteIpDetection.HeaderRowsAsOneCsv | helloip-java-examples/src/main/java/io/mkr/helloip/examples/RemoteIpDetector.java:52-71 | Several header rows give the same client address as the same rows joined into one comma-separated row. |
| RemoteIpDetection.TrailingCommaRow | helloip-java-examples/src/main/java/io/mkr/helloip/examples/RemoteIpDetector.java:67 | Take any two non-empty, comma-free, already trimmed values `x` and `y`. The rows `x + ","` and `y` give the values `x, y`. Joined into one row they give `x, "", y`. The lists differ, though the chosen address does not. |
| RemoteIpDetection.PrivateSecondOctetRange | helloip-java-examples/src/main/java/io/mkr/helloip/examples/RemoteIpDetector.java:25-27 | The three `172.` alternatives accept the decimal second field of `n` exactly when 16 ≤ `n` ≤ 31. |
| RemoteIpDetection.DefaultPatternIsPrivateBlocks | helloip-java-examples/src/main/java/io/mkr/helloip/examples/RemoteIpDetector.java:20-27 | On a dotted-quad address, the default pattern matches exactly the addresses of 10/8, 192.168/16, 169.254/16, 127/8 and 172.16/12. |
| RemoteIpDetection.TenNetAccepts | helloip-java-examples/src/main/java/io/mkr/helloip/examples/RemoteIpDetector.java:20-27 | Any text of four dot-separated fields is trusted when the first field is `10` and the other three are runs of one to three digits, whatever their numeric value. |
| RemoteIpDetection.PatternAcceptsNonAddress | helloip-java-examples/src/main/java/io/mkr/helloip/examples/RemoteIpDetector.java:20-27 | The default pattern also accepts `10.999.999.999`, which is not an address. |

## Left out

- HTTP and file access (`ReaderProvider`, `HttpReaderProvider`, `TwoStepHttpReaderProvider`) are not part of this model. Each source receives its decoded input directly, and a failed read is an `IOError` outcome.
- `BufferedReader.readLine` line splitting: the APNIC files are given as the lines read. A provider that throws an `IOException` while opening, and a `close` that throws after the last line, are both a `Broken` read. The model does not tell them apart from a read that breaks off, since all three are the same `IOException` to `getIpRanges`. A provider that returns null is the separate `NoReader` case.
- SAX parsing proper: the Azure document is given as its start-element events (`Document.Parsed`), or as a reader that failed or a document that was malformed.
- Jackson JSON decoding: the AWS document is given as an already decoded `AwsIpRanges` value with nullable fields.
- The JNDI DNS lookup: TXT answers come from a `TxtLookup` function. A lookup that fails (`NamingException`) is `None`. `TxtLookup` stands for the `DnsTextRecordRetriever` interface, so `GoogleRanges` takes entries as the retriever hands them on. The JDK retriever, which strips quotes, is `JdkLookup` applied to a lookup of raw TXT strings.
- `Ipv4Range.parseCidr`, `Ipv4.parse` and `Ipv4.of` are function parameters. Their behaviour on any particular text is not modelled.
- The conversion of an address to a `long` is not modelled: addresses are integers in `0 .. 2^32 - 1`.
- `Pattern.compile` and `Matcher.matches` for caller-supplied patterns are a compiler parameter. Only the default pattern is written out.
- Thread scheduling, the fixed refresh period and `volatile` visibility in `AsyncRefreshingSupplier`: the holder's value is a fold over the outcomes of the runs seen so far.
- Logging calls, `toString` methods and `IpInfos.getInfos()` (a view of the stored records).
- AzureSource.AzureRanges: a `close` in the `finally` block that throws an `IOException` after a good parse is not modelled, so the model succeeds where Java throws. On a failed parse it would only replace one `IOException` by another. The APNIC reads do model a failing `close`, as a `Broken` read.
- AwsSource.AwsRanges: a try-with-resources `close` that throws an `IOException` after the records were built is not modelled, so the model succeeds where Java throws. After a failure, Java suppresses the `close` exception, so nothing else changes.
- `Suppliers.java` (static wiring to live sources), `IpInfoServlet` and `ApacheLogIpStats`: these are application wiring and UI, not core logic.
- `SourcingIpInfoProviderSupplier` building anew on every call is structural: `SourcingGet` is a function of the fetch outcome and holds no state.
- Dafny strings are sequences of Unicode scalar values, while Java strings are UTF-16 code units. `substring(0, 5)` and `substring(6)` on an APNIC autnums line therefore count characters, not UTF-16 units. The two agree on lines of characters from the Basic Multilingual Plane, which is what the file holds.
- `Integer.parseInt` is modelled on ASCII digits. Other Unicode decimal digits, which Java also accepts, are not modelled.
- Header-name case-insensitivity in servlet containers: the request's header function is taken as given.
- RemoteIpDetection.ValuesFromCsvHeaders: its contract states only the no-access case. The content of the values is stated by `RemoteIpDetection.HeaderRowsAsOneCsv` and `RemoteIpDetection.TrailingCommaRow`.
- RangeMaps: the map is a sequence of disjoint entries rather than a sorted tree. Iteration order, `asMapOfRanges` and the coalescing of adjacent entries with equal values (Guava never coalesces on `put`) are not modelled.
