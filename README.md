# Anomaly-detection trainer and Prometheus connector, modelled in Dafny

This project models two parts of the numalogic anomaly-detection UDF:

- **The training sink** (`udf/anomaly-detection/src/udsink/train.py`). For each inbound training request it runs these stages in order:
  - the dedup gate: a `train::…` marker in an expiring key/value store;
  - the metric-configuration lookup;
  - the fetch from the configured backend (Prometheus or Druid);
  - the `min_train_size` check;
  - the train-and-save sequence: three registry saves, each in its own handler.

  Every request that is handled without an escaping exception is acknowledged once, in order.
- **The Prometheus connector** (`udf/anomaly-detection/src/connectors/prometheus.py`), which has four parts:
  - the PromQL selector builder;
  - the range-query paginator, which splits a span into requests of at most 11,000 points;
  - the capped single request;
  - `query_metric`, which concatenates the series into one frame sorted by timestamp, and `PrometheusDataFetcher`:
    - `clean_data` replaces infinities with missing values;
    - it forward- and back-fills gaps of up to 12 rows;
    - it drops rows it cannot repair;
    - for rolling deployments it drops every timestamp reported twice, then the rollout column;
    - `fetch_data` queries the last 36 hours and cleans the result.

The code is modelled in its own form:
- The marker store and the model registry are classes whose methods update their fields: `Dedup.MarkerStore` and `ModelRegistry.Registry`.
- `query_range`, `query_metric`, `clean_data`, `_preprocess`, `_train_and_save` and `run` are methods with loops or step sequences. Each is proved equal to a specification function.
- The string builders, the fills and the dispatch are functions.

Collaborators the code calls but does not define are parameters (oracles):
- the HTTP request with its JSON decoding;
- the configuration lookups;
- the Druid fetch;
- the numeric stages;
- the registry's save outcome.

Files:
- `wrappers.dfy`: Option and Result.
- `strings.dfy`: join, split and their round trip.
- `frames.dfy`: cells, rows and frames, and sorting by timestamp.
- `prometheus_query.dfy`: models the `Prometheus` class's query methods.
- `prometheus_fetcher.dfy`: `PrometheusDataFetcher`.
- `entities.dfy`: the request payload, the configuration records and the artifacts.
- `dedup.dfy`: the gate and the marker store.
- `registry.dfy`: the registry and the save sequence.
- `train.dfy`: fetch dispatch, preprocessing, train-and-save, and the per-request loop.

Behaviour the model keeps as the code has it:
- **Stage exceptions escape.** An exception from a numeric stage is not caught in `_train_and_save`. A save failure other than `RedisRegistryError` is not caught either. Both escape `run`, and no response is returned (`Train.Step`, `RunError.TrainFailed`).
- **Missing metric config raises.** A failing metric-configuration lookup, or an empty `composite_keys`, also escapes `run` (`RunError.NoMetricConfig`).
- **The gate is not atomic.** It is a separate `get` then `setex`. The model is sequential and claims no atomicity.
- **Missing rollout column.** Suppose the rollout label is requested but no returned series carries it, and rows remain after the drop. Then `clean_data` raises. `fetch_data` catches this and returns the uncleaned frame, with infinities already replaced in place (`PrometheusFetcher.FetchDataUncleaned`; `PrometheusFetcher.UnlabelledCleanFails` and `PrometheusFetcher.UnlabelledQuery` give a query that reaches this case).
- **A second clean raises.** For the same reason, `clean_data` is not idempotent when the rollout label is requested: cleaning its own output raises (`PrometheusFetcher.CleanTwiceWithRollout`).
- **The final window uses the default step.** `query_range` requests its final window at the default 30-second step, not the caller's. With a step above 30 seconds, that window can exceed the cap and return nothing (`PrometheusQuery.FinalChunkAtDefaultStep`).

## Model

| member | source | states |
|---|---|---|
| Strings.SplitJoin | udf/anomaly-detection/src/udsink/train.py:92 | splitting a `:`-joined list gives the list back when no part contains `:` |
| Dedup.DedupKey | udf/anomaly-detection/src/udsink/train.py:92-93 | the marker key starts with `train::` |
| Dedup.DedupKeyDecodes | udf/anomaly-detection/src/udsink/train.py:92-93 | stripping `train::` and splitting at `:` recovers `composite_keys + [metric]` when no key contains `:` |
| Dedup.DedupKeyInjective | udf/anomaly-detection/src/udsink/train.py:92-93 | for `:`-free keys, two requests share a marker iff they have the same `composite_keys + [metric]` |
| Dedup.DedupKeyCollision | udf/anomaly-detection/src/udsink/train.py:92-93 | a `:` inside a key makes two different identities share one marker |
| Dedup.Lookup | udf/anomaly-detection/src/udsink/train.py:94 | the store returns a value iff the key is present and not yet expired |
| Dedup.Admit | udf/anomaly-detection/src/udsink/train.py:91-99 | admits iff no truthy live marker; a rejection changes nothing; afterwards the key is marked; an admission sets expiry now + 300; other keys unchanged |
| Dedup.MarkerStore.Get | udf/anomaly-detection/src/udsink/train.py:94 | returns the live value under the key |
| Dedup.MarkerStore.SetEx | udf/anomaly-detection/src/udsink/train.py:98 | stores the value with expiry now + ttl, nothing else changes |
| Dedup.IsNewRequest | udf/anomaly-detection/src/udsink/train.py:90-99 | result and new store are exactly `Admit` on the old store and the request's key |
| Dedup.AdmitWindow | udf/anomaly-detection/src/udsink/train.py:36 | after an admission, the same key is rejected until 300 s have passed and admitted again from then on |
| Dedup.RejectedWhileMarked | udf/anomaly-detection/src/udsink/train.py:94-96 | while a truthy marker is live, every request on the key is rejected and the store is untouched |
| Dedup.OneAdmittedPerWindow | udf/anomaly-detection/src/udsink/train.py:94-99 | of requests on one key within one window, exactly the first is admitted and its expiry is not extended |
| ModelRegistry.SaveStep | udf/anomaly-detection/src/udsink/train.py:172-178 | a save is logged as an attempt and stored under (skeys, dkeys) only when it returns a version |
| ModelRegistry.Registry.Save | udf/anomaly-detection/src/udsink/train.py:172-178 | the registry's new state is `SaveStep` of the old one |
| ModelRegistry.SaveAll | udf/anomaly-detection/src/udsink/train.py:170-230 | the attempts are a prefix of the requests in order; all are attempted unless one raised; nothing stored is removed |
| ModelRegistry.SaveAllAttemptsEach | udf/anomaly-detection/src/udsink/train.py:171-230 | the sequence completes iff no save raised other than a registry error, and then every request was attempted in order; when it raises, exactly the saves up to and including the first non-registry failure were attempted |
| ModelRegistry.SaveAllStopsAtOtherError | udf/anomaly-detection/src/udsink/train.py:171-230 | when the sequence raises, the attempted saves are exactly those up to and including the first that failed with anything but a registry error |
| ModelRegistry.SavedStays | udf/anomaly-detection/src/udsink/train.py:168-230 | every attempted save that returned a version is still stored after the sequence (no rollback); when no later save names the same keys, the entry is exactly that save's artifact, version and uuid |
| PrometheusQuery.LabelQuery | udf/anomaly-detection/src/connectors/prometheus.py:27-30 | the selector starts with the metric, and is the bare metric iff no label is given |
| PrometheusQuery.LabelTerms | udf/anomaly-detection/src/connectors/prometheus.py:29 | one `k='v'` term per label, in label order |
| PrometheusQuery.LabelQueryRoundTrip | udf/anomaly-detection/src/connectors/prometheus.py:27-30 | the selector parses back to the metric and the labels: the bare metric without labels, `metric{k='v',…}` otherwise |
| PrometheusQuery.RangeLimit | udf/anomaly-detection/src/connectors/prometheus.py:82-101 | empty over the cap of 11,000 points or when the request or decoding raised; otherwise exactly the server's series for the window; a non-empty answer comes from a window within the cap |
| PrometheusQuery.QueryRangeLimit | udf/anomaly-detection/src/connectors/prometheus.py:82-101 | the result is `RangeLimit` of the window: empty over the cap, otherwise the server's series, or empty when the request or decoding raised |
| PrometheusQuery.QueryRange | udf/anomaly-detection/src/connectors/prometheus.py:64-80 | the windows requested are `Chunks(start, end, step)` and the result is their answers concatenated in order |
| PrometheusQuery.Chunks | udf/anomaly-detection/src/connectors/prometheus.py:66-79 | no window iff end ≤ start |
| PrometheusQuery.Gather | udf/anomaly-detection/src/connectors/prometheus.py:64-80 | the answers of the windows, concatenated in window order (specification of `query_range`) |
| PrometheusQuery.GatherSnoc | udf/anomaly-detection/src/connectors/prometheus.py:70-79 | one more window appends exactly its `RangeLimit` answer |
| PrometheusQuery.ChunksTile | udf/anomaly-detection/src/connectors/prometheus.py:66-79 | windows are contiguous from start to end; loop windows span 11,000 steps at the caller's step; the last is a positive remainder of at most 11,000 steps at 30 s; none iff end ≤ start |
| PrometheusQuery.ChunksCount | udf/anomaly-detection/src/connectors/prometheus.py:68-76 | the number of windows is the span over 11,000 steps, rounded up |
| PrometheusQuery.ElevenThousandOnePoints | udf/anomaly-detection/src/connectors/prometheus.py:68-79 | a span of 11,001 points is two requests |
| PrometheusQuery.FinalChunkAtDefaultStep | udf/anomaly-detection/src/connectors/prometheus.py:76-88 | with step > 30 a span of 11,000 steps is one window at 30 s, over the cap, so the query returns nothing |
| PrometheusQuery.ChunksWithinCap | udf/anomaly-detection/src/connectors/prometheus.py:84-88 | with a step of at most 30 s no window is refused |
| PrometheusQuery.LabelColumns | udf/anomaly-detection/src/connectors/prometheus.py:50-53 | a label is a column iff it was requested and some series carries it; no column twice |
| PrometheusQuery.ConcatRows | udf/anomaly-detection/src/connectors/prometheus.py:56-58 | every concatenated row has the frame's width |
| PrometheusQuery.ConcatRowsStep | udf/anomaly-detection/src/connectors/prometheus.py:56-58 | the concatenation is in series order: the first i + 1 series give the rows of the first i followed by the rows of series i |
| PrometheusQuery.SeriesRows | udf/anomaly-detection/src/connectors/prometheus.py:46-53 | one row per sample, each of frame width, carrying the sample's timestamp and value followed by each label column's value, or NaN where the series lacks that label |
| PrometheusQuery.LabelCells | udf/anomaly-detection/src/connectors/prometheus.py:49-53 | one cell per label column: the series' label value when it has that label, NaN otherwise |
| PrometheusQuery.QueryMetricSpec | udf/anomaly-detection/src/connectors/prometheus.py:27-62 | raises iff end < start; otherwise a well-formed frame |
| PrometheusQuery.QueryMetricSamples | udf/anomaly-detection/src/connectors/prometheus.py:39-59 | the frame's rows are exactly the returned samples (as a multiset), sorted by timestamp, and its columns the label columns |
| PrometheusQuery.QueryMetric | udf/anomaly-detection/src/connectors/prometheus.py:18-62 | the method's frame equals `QueryMetricSpec` |
| Frames.SortByTs | udf/anomaly-detection/src/connectors/prometheus.py:59 | a permutation of the input |
| Frames.SortByTsSorted | udf/anomaly-detection/src/connectors/prometheus.py:59 | the sorted rows ascend by timestamp |
| PrometheusFetcher.ReplaceInf | udf/anomaly-detection/src/connectors/prometheus.py:125 | every infinite cell becomes missing, every other cell and every timestamp is kept, so no infinity remains |
| PrometheusFetcher.FFill | udf/anomaly-detection/src/connectors/prometheus.py:126 | the forward fill keeps the column's length (its values: `FFillReference`) |
| PrometheusFetcher.BFill | udf/anomaly-detection/src/connectors/prometheus.py:127 | the backward fill keeps the column's length (its values: `BFillReference`) |
| PrometheusFetcher.FFillReference | udf/anomaly-detection/src/connectors/prometheus.py:126 | the forward fill equals its pointwise description: the last present value if at most 12 rows back |
| PrometheusFetcher.BFillReference | udf/anomaly-detection/src/connectors/prometheus.py:127 | the backward fill equals its pointwise description: the next present value if at most 12 rows ahead |
| PrometheusFetcher.FillBothMissing | udf/anomaly-detection/src/connectors/prometheus.py:126-127 | after both fills a cell is missing iff it was missing with no present value within 12 rows either way |
| PrometheusFetcher.FillBothCopies | udf/anomaly-detection/src/connectors/prometheus.py:126-127 | the fills only copy values already in the column |
| PrometheusFetcher.FillRows | udf/anomaly-detection/src/connectors/prometheus.py:126-127 | the filled rows keep the row count and the frame width |
| PrometheusFetcher.FillRowsCell | udf/anomaly-detection/src/connectors/prometheus.py:126-127 | each cell of the filled rows is its column's fill at that row; timestamps are kept |
| PrometheusFetcher.FillRowsColumn | udf/anomaly-detection/src/connectors/prometheus.py:126-127 | each column of the filled rows is the fill of that column alone |
| PrometheusFetcher.FillRowsFixpoint | udf/anomaly-detection/src/connectors/prometheus.py:126-127 | rows with nothing missing are unchanged by either fill |
| PrometheusFetcher.Filled | udf/anomaly-detection/src/connectors/prometheus.py:125-127 | replacing infinities, then the forward and the backward fill keep the row count and the frame width |
| PrometheusFetcher.FilledRowComplete | udf/anomaly-detection/src/connectors/prometheus.py:125-127 | a filled row is complete iff each of its cells was repairable |
| PrometheusFetcher.FilledNoInfinite | udf/anomaly-detection/src/connectors/prometheus.py:125-127 | no infinity survives the fills |
| PrometheusFetcher.KeepComplete | udf/anomaly-detection/src/connectors/prometheus.py:129 | no missing value remains |
| PrometheusFetcher.KeepCompleteRows | udf/anomaly-detection/src/connectors/prometheus.py:129 | a complete row is kept as often as it occurs, an incomplete one never |
| PrometheusFetcher.DropNa | udf/anomaly-detection/src/connectors/prometheus.py:128-129 | no missing value remains |
| PrometheusFetcher.DropNaRows | udf/anomaly-detection/src/connectors/prometheus.py:128-129 | a complete row stays as often as it occurs, an incomplete one never |
| PrometheusFetcher.UniqueTs | udf/anomaly-detection/src/connectors/prometheus.py:135-142 | a sub-multiset of the input |
| PrometheusFetcher.UniqueTsRows | udf/anomaly-detection/src/connectors/prometheus.py:135-142 | a row stays iff its timestamp occurs once in the frame |
| PrometheusFetcher.DropColumn | udf/anomaly-detection/src/connectors/prometheus.py:144 | every row loses exactly the given cell |
| PrometheusFetcher.Repaired | udf/anomaly-detection/src/connectors/prometheus.py:125-129 | rows after fill and drop are complete, finite and of frame width |
| PrometheusFetcher.RepairedRows | udf/anomaly-detection/src/connectors/prometheus.py:125-129 | a filled row stays, as often as it occurs, iff it is complete |
| PrometheusFetcher.DropRolloutOverlap | udf/anomaly-detection/src/connectors/prometheus.py:134-145 | the anti-joined, sorted, column-dropped rows are complete, finite and one narrower |
| PrometheusFetcher.CleanRepaired | udf/anomaly-detection/src/connectors/prometheus.py:131-146 | on repaired rows, a successful clean gives a well-formed frame with no missing and no infinite value |
| PrometheusFetcher.Clean | udf/anomaly-detection/src/connectors/prometheus.py:124-146 | a successful clean gives a well-formed frame with no missing and no infinite value |
| PrometheusFetcher.RepairRows | udf/anomaly-detection/src/connectors/prometheus.py:125-129 | the replace, the two fills and the conditional drop give `Repaired` |
| PrometheusFetcher.FinishClean | udf/anomaly-detection/src/connectors/prometheus.py:131-146 | the empty check and the rollout step give `CleanRepaired` |
| PrometheusFetcher.CleanData | udf/anomaly-detection/src/connectors/prometheus.py:124-146 | the step-by-step method returns `Clean` |
| PrometheusFetcher.CleanKeepsRepairableRows | udf/anomaly-detection/src/connectors/prometheus.py:125-129 | without the rollout label, cleaning succeeds and a filled row survives, as often as it occurs among the filled rows, iff each of its cells was repairable |
| PrometheusFetcher.CleanRollout | udf/anomaly-detection/src/connectors/prometheus.py:134-145 | with the rollout label: no repeated timestamp survives, every unique one does, the rollout column is gone, timestamps strictly ascend |
| PrometheusFetcher.RolloutOverlapRows | udf/anomaly-detection/src/connectors/prometheus.py:135-145 | the rollout step's rows ascend strictly, each had a unique timestamp, and every unique row is kept without its rollout cell |
| PrometheusFetcher.CleanMissingRolloutColumn | udf/anomaly-detection/src/connectors/prometheus.py:134-144 | requesting the rollout label with no such column raises iff rows remain |
| PrometheusFetcher.RepairedFixpoint | udf/anomaly-detection/src/connectors/prometheus.py:125-129 | a complete, finite frame is its own repair |
| PrometheusFetcher.CleanIdempotent | udf/anomaly-detection/src/connectors/prometheus.py:124-146 | without the rollout label, cleaning never fails and a second clean changes nothing |
| PrometheusFetcher.CleanTwiceWithRollout | udf/anomaly-detection/src/connectors/prometheus.py:134-144 | with the rollout label, cleaning a cleaned non-empty frame raises |
| PrometheusFetcher.FetchData | udf/anomaly-detection/src/connectors/prometheus.py:148-180 | fails iff hours < 0; the frame is well formed and has no infinity |
| PrometheusFetcher.FetchDataCleaned | udf/anomaly-detection/src/connectors/prometheus.py:160-170 | whenever the clean of the queried frame succeeds, with or without the rollout label, `fetch_data` returns exactly the cleaned frame, with no missing and no infinite value |
| PrometheusFetcher.FetchDataClean | udf/anomaly-detection/src/connectors/prometheus.py:169-180 | without the rollout label the fetched frame has no missing value |
| PrometheusFetcher.FetchDataUncleaned | udf/anomaly-detection/src/connectors/prometheus.py:169-173 | when the clean raises, the result is the queried frame with infinities replaced in place, and every missing cell is still missing |
| PrometheusFetcher.UnlabelledCleanFails | udf/anomaly-detection/src/connectors/prometheus.py:134-144 | a two-row frame with no label column raises when the rollout label is requested |
| PrometheusFetcher.UnlabelledQuery | udf/anomaly-detection/src/connectors/prometheus.py:27-62 | a series without labels, one present and one missing sample, gives a two-row frame with no label column |
| PrometheusFetcher.TrainerWindowSingleRequest | udf/anomaly-detection/src/connectors/prometheus.py:148-167 | 36 hours at 30 s is a single request |
| Train.FetchPrometheus | udf/anomaly-detection/src/udsink/train.py:41-51 | no Prometheus config gives an empty frame; otherwise raises iff there is no second composite key; the frame is well formed and finite |
| Train.FetchPrometheusRequest | udf/anomaly-detection/src/udsink/train.py:41-51 | with a Prometheus config and a second composite key, the frame is `fetch_data` of the metric under `namespace` = that key, over 36 hours at 30 s, returning only the rollout label; that window is one range request; the selector parses back to that metric and label |
| Train.DruidQueryOf | udf/anomaly-detection/src/udsink/train.py:61-73 | the Druid query carries the server, the datasource, the dimensions, the granularity, the aggregations, the group-by, the pivot and the hours of the fetch configuration |
| Train.DruidFilters | udf/anomaly-detection/src/udsink/train.py:65-66 | filter keys are the stream's keys then its dimensions; filter values are `composite_keys[1:]` then the metric |
| Train.FetchDruid | udf/anomaly-detection/src/udsink/train.py:54-73 | no Druid config gives an empty frame; a missing fetcher section raises; otherwise it succeeds iff Druid answers, with exactly that answer as the frame, and fails only as a Druid failure |
| Train.FetchData | udf/anomaly-detection/src/udsink/train.py:76-88 | dispatches Prometheus and Druid to their fetchers, an unsupported source to an empty frame; raises with no stream config |
| Train.Components | udf/anomaly-detection/src/udsink/train.py:122-126 | one component per configured entry in order, or none iff some entry cannot be built |
| Train.Preprocess | udf/anomaly-detection/src/udsink/train.py:121-130 | the loop's result equals `PreprocessSpec` (components in config order, then fitted) |
| Train.Fit | udf/anomaly-detection/src/udsink/train.py:153-164 | a fit exists iff preprocessing succeeded, the model and the threshold can be instantiated, training succeeded and the threshold could be fitted; its pipeline is the preprocessing pipeline, its model the trained model and its threshold the fitted threshold |
| Entities.SourceKeys | udf/anomaly-detection/src/udsink/train.py:166 | the save keys are `composite_keys` followed by the metric |
| Train.SaveRequests | udf/anomaly-detection/src/udsink/train.py:166-230 | three saves under the request's keys and uuid, in order: the model with the train size, the pipeline, the threshold, the last two without a train size |
| Train.TrainAndSaveSpec | udf/anomaly-detection/src/udsink/train.py:139-230 | a stage failure is raised exactly when fitting fails, and then the registry is untouched |
| Train.TrainAndSave | udf/anomaly-detection/src/udsink/train.py:139-230 | the method's outcome and registry state equal `TrainAndSaveSpec` |
| Train.TrainAndSaveAttempts | udf/anomaly-detection/src/udsink/train.py:166-230 | on success, exactly three saves are attempted in order under the request's keys: model `[model.name]` with the train size, pipeline under the preprocess names, threshold `[threshold.name]`; none on stage failure |
| Train.RegistryErrorsDoNotStopSaves | udf/anomaly-detection/src/udsink/train.py:171-230 | the save sequence completes iff no save raised other than a registry error; when it fails, exactly the saves up to and including the first non-registry failure were attempted |
| ModelRegistry.SaveAllKeepsOtherKeys | udf/anomaly-detection/src/udsink/train.py:170-230 | a key none of the saves names keeps its entry |
| Train.TrainAndSaveNoRollback | udf/anomaly-detection/src/udsink/train.py:168-230 | every save that returned a version remains stored; when no later save of the three names the same keys, with exactly its artifact, version and the request's uuid |
| Train.Step | udf/anomaly-detection/src/udsink/train.py:236-281 | an undecodable datum raises and changes nothing; a decoded request is a duplicate iff its key holds a truthy live marker, and its key is marked afterwards |
| Train.RunSpec | udf/anomaly-detection/src/udsink/train.py:232-283 | at most one disposition per datum; only the last can be an escaping exception, and a short run ends in one |
| Train.Acks | udf/anomaly-detection/src/udsink/train.py:247-281 | one success response per datum with its id, in order |
| Train.HandleDatum | udf/anomaly-detection/src/udsink/train.py:237-281 | the loop body's disposition and new state equal `Step` |
| Train.RunLoop | udf/anomaly-detection/src/udsink/train.py:247-283 | the loop's responses, store and registry equal the run of any step that agrees with `Step` |
| Train.Run | udf/anomaly-detection/src/udsink/train.py:232-283 | the responses, store and registry equal `RunSpec`'s outcome |
| Train.RunAcknowledgesEach | udf/anomaly-detection/src/udsink/train.py:232-283 | run returns iff nothing escaped, and then one success per datum with its id, in order |
| Train.TrainingGate | udf/anomaly-detection/src/udsink/train.py:238-279 | train-and-save runs iff the request decodes, is admitted, has a metric config, fetched without raising and has at least `min_train_size` rows; otherwise the registry is untouched |
| Train.StepMarks | udf/anomaly-detection/src/udsink/train.py:238-277 | after a request the key is marked; an admitted one keeps its marker for the full window whatever followed the gate; other keys untouched |
| Train.StepKeepsMarker | udf/anomaly-detection/src/udsink/train.py:94-99 | a live marker survives any request in the same run |
| Train.MarkedKeyIsDuplicate | udf/anomaly-detection/src/udsink/train.py:238-248 | while a key is marked, each later request on it in the run is a duplicate, as long as the run stays within one expiry window (the run's clock is fixed) |
| Train.RepeatedRequestIsDuplicate | udf/anomaly-detection/src/udsink/train.py:236-248 | a request with the key of an earlier one in the same run is a duplicate, as long as the run stays within one expiry window (the run's clock is fixed) |
| Train.SameRequestTwice | udf/anomaly-detection/src/udsink/train.py:236-283 | the same request twice within one expiry window (the run's clock is fixed): both acknowledged, the second as a duplicate that leaves the registry as it was |

## Left out

- HTTP and JSON decoding: the network request and `response.json()` are the oracle `PrometheusQuery.Http`, which returns the series or `None` when either raises.
- The Druid fetcher, `ConfigManager`, the Redis client and sentinel setup, and the registry's internal versioning. These are lookups and oracles (`Train.Env`, `ModelRegistry.Responder`).
- Numeric stages: the autoencoder training, the scikit-learn pipeline and the thresholds. Their results are opaque artifacts that either exist or raise (`Train.Stages`). Floating-point values are not modelled.
- Logging, timing, `orjson` decoding and the `TrainerPayload` constructor. A datum carries its decoded payload, or `None` when decoding raises.
- Wall-clock time: timestamps and `now` are integer seconds given as parameters. Conversion to datetimes (`pd.to_datetime`, `pytz`) is left out, and so are fractional timestamps.
- Dedup.IsNewRequest: sequential only. The `get` and `setex` are separate calls, so two concurrent requests can both be admitted; this is not modelled.
- Dedup.RequestExpiry: the fixed default of 300 s. The `REQUEST_EXPIRY` environment override is not modelled.
- Train.Run: the marker store's clock does not advance within one run.
- Train.MarkedKeyIsDuplicate: holds only while the run stays within one 300 s expiry window, because the run's clock is fixed; a marker that expires mid-run (`REQUEST_EXPIRY` after its `setex`) is not modelled. `Dedup.AdmitWindow` states the expiry for a single key.
- Train.RepeatedRequestIsDuplicate: as for `MarkedKeyIsDuplicate`, within one expiry window only.
- Train.SameRequestTwice: as for `MarkedKeyIsDuplicate`, within one expiry window only.
- PrometheusQuery.QueryRange: requires `step > 0`. A zero step makes the source divide by zero, and a negative one is not meaningful for a range query.
- PrometheusQuery.Chunks: requires `step > 0`, as for `QueryRange`.
- PrometheusQuery.QueryMetric: requires `step > 0`, as for `QueryRange`; so do `QueryMetricSpec` and `PrometheusFetcher.FetchData` (its scrape interval).
- Frames.Cell: the value column may hold a `Str` cell. The source's conversion of every sample to float (`np.array(..., dtype=float)`), which raises on a non-numeric sample, is not modelled.
- PrometheusFetcher.Clean: row contents only. Not modelled:
  - the leftover `index` column from `reset_index`;
  - the timestamp becoming the index;
  - the order of label columns produced by `pd.concat`;
  - the instability of the default sort. The rows it sorts have distinct timestamps whenever their order matters to the result.
- Frames.SortByTs: a stable insertion sort, so rows with equal timestamps keep series order. The sort in `query_metric` is pandas' default, which is not stable; the order among equal timestamps, and so which value the fills copy into a gap next to them, may differ from the model's.
- PrometheusQuery.QueryMetricSpec: rows with equal timestamps are in series order (see `Frames.SortByTs`); pandas does not fix that order.
- PrometheusFetcher.FetchData: the requested labels are always a list, as the trainer passes. The `None` default is not modelled. With it, `clean_data` raises a `TypeError` on a non-empty frame, and `fetch_data` returns the frame uncleaned.
- PrometheusQuery.QueryMetricSpec: label columns are in requested order, whereas pandas orders them by first appearance across series.
- The unused `Prometheus.query` instant-query method and `Train._train_model`'s data loader settings, which are outside the modelled core.
