# Region latency metrics — a Dafny model of the aggregator

The service answers `POST /metrics` with a per-region summary of a fixed dataset
of latency observations. Each record carries `region`, `latency_ms` and
`uptime_pct`, and any of these fields may be missing. A query names a list of
regions and a latency threshold. For every requested region name, the
aggregator does four things:

- It selects the records whose `region` equals the name exactly.
- If none match, it writes the sentinel `null/null/null/0`.
- Otherwise it computes the mean latency, the 95th-percentile latency, the mean
  uptime and the number of latencies strictly above the threshold.
- It stores the result in a map keyed by the region name, so a name requested
  twice has one entry.

The 95th percentile (`percentile_95`) uses linear interpolation between the
closest ranks. It sorts the values and takes the zero-based rank
`k = (n - 1) * 0.95`. If `floor(k) == ceil(k)` it returns the value at `k`.
Otherwise it interpolates between the values at `floor(k)` and `ceil(k)`. An
empty list gives 0.

The model is split into these modules:

- `Wrappers` (`wrappers.dfy`): `Option`, used for absent JSON fields and for `null` statistics.
- `Sorting` (`sorting.dfy`): `sorted(values)`. This is a functional insertion sort on `seq<real>`, specified as sorted and multiset-equal to its input. It comes with a proof that the sorted arrangement of a multiset is unique.
- `Statistics` (`statistics.dfy`): sum, mean (`sum(xs) / len(xs)`), the strict count `sum(1 for x in xs if x > t)`, and their independence from the order of the values.
- `Percentile` (`percentile.dfy`): `percentile_95`. The factor 0.95 is the exact rational 19/20. The floor and ceiling of the rank are computed as in the source (`floor`, and `ceil` as floor plus one unless the rank is whole). A lemma shows that the floor is the integer quotient `19 * (n - 1) / 20`, that the floor and ceiling coincide exactly when 20 divides `19 * (n - 1)`, and that the interpolation weight `k - floor(k)` is the remainder of `19 * (n - 1)` by 20, divided by 20.
- `Aggregator` (`aggregator.dfy`): the record and statistics datatypes, region selection, the per-region summary, and the response map. The map is built by a fold over the region list in request order, which mirrors the `for` loop and its dict writes.

A record is `Record(region: Option<string>, latencyMs: Option<real>, uptimePct: Option<real>)`.
A missing latency or uptime reads as `0.0`, as `r.get("latency_ms", 0)` does.
A record with no `region` field never matches, because `None` never equals a
string. The dataset is a parameter of every operation rather than something
loaded from a file.

## Model

| member | source | states |
|---|---|---|
| Sorting.Sort | api/index.py:53 | The result is sorted ascending and holds exactly the input values with their multiplicities (multiset-equal), so its length is the input's. |
| Sorting.SortedUnique | api/index.py:53 | Two sorted sequences with the same multiset of values are identical, so the sorted list depends only on the values. |
| Sorting.SortOrderIndependent | api/index.py:53 | Sorting two rearrangements of the same values gives the same list. |
| Percentile.RankIndices | api/index.py:54-60 | For any n >= 1, `0 <= floor(k) <= ceil(k) <= n - 1` and the two differ by at most one, so `vals[f]`, `vals[c]` and `vals[int(k)]` are valid accesses. The floor equals `19 * (n - 1) / 20`. Floor == ceil exactly when `19 * (n - 1)` is a multiple of 20, and otherwise ceil == floor + 1. The weight `k - f` equals `((19 * (n - 1)) % 20) / 20`. |
| Percentile.Interpolate | api/index.py:55-61 | On a sorted non-empty list, both ranks are in range and the result lies between the values at the floor and the ceiling rank. With `19 * (n - 1) == 20 * q + r`, the result is `vals[q]` when `r == 0`, and otherwise `vals[q] + (vals[q + 1] - vals[q]) * r / 20`. This is linear interpolation with the exact weight `k - floor(k)`, and it rules out nearest-rank. |
| Percentile.Percentile95 | api/index.py:50-61 | An empty list gives 0.0. For a non-empty list the result lies between the least and the greatest input value. |
| Percentile.Percentile95Bracket | api/index.py:53-61 | For every sorted rearrangement `vals` of the input, `vals[floor(k)] <= p95 <= vals[ceil(k)]`. When the rank is a whole number, the result is exactly `vals[floor(k)]`. Otherwise, with `19 * (n - 1) == 20 * q + r`, it is exactly `vals[q] + (vals[q + 1] - vals[q]) * r / 20`. |
| Percentile.Percentile95Singleton | api/index.py:55-59 | For a single value, `k = 0`, floor == ceil, and the percentile is that value. |
| Percentile.Percentile95OrderIndependent | api/index.py:53 | Two inputs with the same multiset of values have the same percentile. |
| Statistics.Mean | api/index.py:80 | The mean of a non-empty list lies between its least and greatest value. |
| Statistics.MeanPermutation | api/index.py:80-82 | The mean depends only on the multiset of values. |
| Statistics.CountAbove | api/index.py:83 | The strict count never exceeds the number of values. |
| Statistics.CountAboveIsIndexCount | api/index.py:83 | The count equals the number of positions whose value is strictly greater than the threshold, so a value equal to the threshold is not counted. |
| Statistics.CountAbovePermutation | api/index.py:83 | The count depends only on the multiset of values. |
| Aggregator.Select | api/index.py:69 | Every selected record is a dataset record whose region equals the name, and there are never more than the dataset holds. |
| Aggregator.SelectMultiset | api/index.py:69 | A record occurs in the selection exactly as often as in the dataset when its region equals the name, and not at all otherwise. A record without a region field is never selected. |
| Aggregator.RegionStats | api/index.py:69-90 | The summary is the sentinel `None/None/None/0` exactly when no record matches. Otherwise all three statistics are present. There are never more breaches than matching records. |
| Aggregator.RegionStatsInRange | api/index.py:78-82 | Each present mean, and the percentile, lies between the least and the greatest field value among the region's records. |
| Aggregator.Metrics | api/index.py:67-90 | The keys are exactly the requested region names. Each entry is the summary of its own region, so a name requested twice maps to the same stats either time. |
| Aggregator.MetricsEmptyQuery | api/index.py:67-68 | With no requested regions, the response map is empty. |
| Aggregator.MetricsRegionSetOnly | api/index.py:67-71 | Two queries naming the same set of regions, in any order and with any repetitions, give the same response. |
| Aggregator.MetricsDuplicate | api/index.py:68-90 | Repeating an already requested name leaves the response unchanged: the later write equals the earlier one. |
| Aggregator.MetricsUnknownRegion | api/index.py:69-77 | A requested region with no record in the dataset is present in the response and maps to exactly `None/None/None/0`. |
| Aggregator.BreachesCountRecords | api/index.py:83 | `breaches` equals the number of dataset positions whose record is in the region and whose latency, defaulted to 0, is strictly above the threshold. |
| Aggregator.AtThresholdNotBreach | api/index.py:83 | Adding a record of the region whose latency equals the threshold leaves `breaches` unchanged. |
| Aggregator.RegionStatsOrderIndependent | api/index.py:69-83 | Each region's summary depends only on the multiset of dataset records, not their order. |
| Aggregator.MetricsOrderIndependent | api/index.py:63-90 | The whole response is unchanged when the dataset records are reordered. |
| Aggregator.TwoRecordRegion | api/index.py:78-83 | For a region with two records, both means are midpoints and the percentile is `lo + (hi - lo) * 19/20`, where lo and hi are the smaller and larger latency. Each latency above the threshold adds one breach. |
| Aggregator.TwoRecordExample | api/index.py:67-90 | Latencies 100 and 200, uptimes 99 and 100, threshold 150 give mean latency 150, p95 195, mean uptime 99.5 and 1 breach under key "a" only. |

## Left out

- The FastAPI application, the CORS middleware and header injection, and the `OPTIONS` and `GET` handlers (api/index.py:11-38) are left out. They are HTTP plumbing with no computation.
- `load_data` and `DATA_PATH` (api/index.py:44-48) are left out because they are file I/O and JSON parsing. The record sequence is a parameter, and a failure to read the file is not modelled.
- Pydantic validation of `Query` (api/index.py:40-42) is left out. It is framework marshalling, and the model takes a well-typed region list and threshold.
- The `JSONResponse` wrapping under `"regions"` (api/index.py:93) is left out. So is the commented-out array form (api/index.py:94-96), which is dead code.
- IEEE-754 arithmetic is not modelled. Values are exact `real`s, 0.95 is exactly 19/20, and means use exact division. The source computes `(n - 1) * 0.95` in binary floating point. Where that product lands within rounding distance of a whole number, the source's floor, ceiling and interpolation weight may differ from the exact ones, and that discrepancy is outside the model. So are the rounding of float sums, NaN and infinities.
- A non-string `region` value needs no separate case. `r.get("region") == region` is simply false for it, so such a record behaves exactly like one with no `region` field, which the model's `None` covers.
- Wrong-typed `latency_ms` or `uptime_pct` values are not modelled. This includes JSON `null`, where `float(None)` raises. Only present numeric values and absent fields are modelled.
- The key order of the Python dict, which is first-request order, is not modelled. The response is a Dafny `map`, which has no order.
