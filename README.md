# xis-data-aggregator: the ingest-to-store pipeline in Dafny

A model of the data aggregator's core, run one pack at a time. Each input `Pack` (an identifier,
a timestamp and a slice of integers) is reduced to a `Data` record carrying the maximum of the
slice. The record is serialised and written to two indexes: a sorted set scored by timestamp
(no expiry), and a key/value index from the identifier's text form to the bytes, which expires
500 seconds after the write. The query service reads both indexes back and translates the
repository's outcomes into its own errors. Every processed pack sends one boolean outcome to the
metrics collector. The collector counts successes and failures and logs a line according to a
modulus rule. A small formatter builds the method descriptions used in panic reports.

Modules, in dependency order:

- `GoTypes`: Go's `int64` and `int32` as subset types, nil as `Option`, and `int32(x)` as explicit two's-complement wrap-around.
- `Errors`: every error value of the core with its Go text.
- `Uuid`: the 16-byte identifier, its canonical 36-character text form, and a parser for the four layouts `uuid.Parse` accepts. A Go string is a sequence of UTF-8 bytes, and `uuid.Parse` measures and indexes those bytes, so `Parse` works on the UTF-8 encoding of its text. `Parse(Format(u)) == Ok(u)` is proved, not assumed.
- `SliceHelper`: `GetMaxValue`, the scan and its specification.
- `Models`: `Pack`, `Data` and `MapPackToData`.
- `DataMapping`: `DataToProto` and `ProtoToData`, with the int32 narrowing and the round trip.
- `WireCodec`: a fixed-layout codec that stands in for protobuf, with a proved round trip.
- `SortedSet`: the sorted-set semantics of the order index (unique members ordered by score, then bytes), with ZADD and ZRANGEBYSCORE.
- `RedisRepository`: the repository. The specification functions `PutSpec`, `GetSpec` and `ListSpec` state each operation's outcome. The class `RedisRepository` holds the two indexes as fields, and its methods are proved equal to those functions.
- `RepositoryContract`: the documented contract of the `Repository` interface, proved as lemmas about the repository.
- `Service`: `DataService` and its error translation.
- `EventProc`: `ProcessPack` and the loop of `ProcessData`, with the outcome channel as an appended sequence.
- `Metrics`: the `Collector.Start` fold and its log events.
- `Pipeline`: one worker followed by the collector, as wired in the program's entry point.
- `ErrHelper`: `getMethodDesc`, `PanicErrStr` and `PanicErr`, with the part of `fmt.Sprintf` they rely on.

The store's failures and its clock are inputs. Every repository operation receives an
`Env(now, failing)`: the current time in seconds and the set of store commands that fail at that moment.

Where the code and its own comments differ, the model follows the code:

- `RedisRepository.GetByID` returns the decoder's own error for bytes that do not decode. It does not return `ErrCorrupt`, which the comment `todo: corrupted data` at internal/repository/redis.go:101 anticipates.
- `DataService.GetByID` passes the repository's `ErrNotFound` through unchanged. The recommendation in the comment at internal/repository/redis.go:142-157 is that the service convert it into its own not-found error. The service's own not-found error therefore arises only when the repository returns neither record nor error.
- The doc comment of `Start` (internal/metrics/metrics.go:29) says metrics are logged every `MetricsBatchSize` successful or failed items. The code tests the success counter in both branches, and the model keeps that behaviour.
- The `Repository` interface comment (internal/models/repository.go:18) says a second Put with the same id overwrites the record. The lookup index is overwritten, but the sorted set keeps the old entry, because its member is the record's bytes, not its id. `RepositoryContract.RePutKeepsOrderEntry` shows that a listing then returns both versions.
- No comment mentions that `DataToProto` narrows `Max` to int32 (internal/api/data_mapping.go:24). A value outside the int32 range wraps around, and the round trip is exact only inside it (`DataMapping.RoundTripExact`, `DataMapping.NarrowingWraps`).

Two further properties of the store follow from Redis's sorted-set semantics. Re-adding identical bytes to the sorted set replaces the entry and never duplicates it. Entries with equal scores are ordered by their bytes.

## Model

| member | source | states |
|---|---|---|
| GoTypes.ToInt32 | internal/api/data_mapping.go:24 | `int32(x)` keeps x exactly when x fits in 32 bits, and otherwise differs from x by a multiple of 2^32 |
| Uuid.Format | internal/api/data_mapping.go:22 | `id.String()` is 36 characters long, all ASCII |
| Uuid.Parse | internal/api/data_mapping.go:44 | every failure is one of uuid's three parse errors; the length error occurs exactly when the UTF-8 byte length is not 32, 36, 38 or 45, and it reports that byte length |
| Uuid.ParseFormat | internal/api/data_mapping.go:22-44 | the text form of every identifier parses back to that identifier |
| Uuid.FormatInjective | internal/repository/redis.go:83-89 | distinct identifiers never share a point-index key |
| Uuid.Utf8Ascii | internal/api/data_mapping.go:44 | an ASCII text has one byte per character, holding the character's code |
| Uuid.Utf8OnlyAsciiBytes | internal/api/data_mapping.go:44 | a text whose UTF-8 bytes are all below 0x80 is ASCII |
| Uuid.Utf8Append | internal/api/data_mapping.go:44 | the bytes of a concatenation are the concatenated bytes |
| Uuid.Utf8Char | internal/api/data_mapping.go:44 | a character takes one to four bytes: one exactly for ASCII, holding its code; otherwise a lead byte from 0xC0 and every byte from 0x80 |
| Uuid.ParseBytes | internal/api/data_mapping.go:44 | on bytes: failures are parse errors; the length error exactly for lengths other than 32, 36, 38 and 45, with that length; a prefix error only for 45 bytes that do not start with "urn:uuid:" in either case, carrying those 9 bytes |
| Uuid.ParseDigits | internal/api/data_mapping.go:44 | InvalidFormat exactly when some digit pair is not hex; otherwise byte i is the value of pair i |
| Uuid.ParseDashed | internal/api/data_mapping.go:44 | success only with dashes at 8, 13, 18 and 23, and then byte i is the value of its pair; any failure is InvalidFormat |
| Uuid.NonAsciiCounted | internal/api/data_mapping.go:44 | "é" followed by a 36-character form and "}" has 38 characters but 39 bytes, and is a length error reporting 39 |
| Uuid.ParseDashedFormat | internal/api/data_mapping.go:44 | a 36-byte text that parses has 36 ASCII characters and is the canonical form of the result, up to letter case |
| Errors.Decimal | internal/api/data_mapping.go:44 | the text of a length error's count: decimal digits without a leading zero whose value is the count |
| SliceHelper.MaxValue | pkg/utils/slice-helper.go:33-45 | the empty slice gives 0 with "slice is empty"; otherwise no error, and the result is an element that bounds every element |
| SliceHelper.MaxOfIsUpperBound | pkg/utils/slice-helper.go:38-44 | the scan's final value is at least every element |
| SliceHelper.MaxOfIsElement | pkg/utils/slice-helper.go:38-44 | the scan's final value is one of the elements |
| SliceHelper.MaxOfUnique | pkg/utils/slice-helper.go:38-44 | an element that bounds all the others is the scan's result, so a repeated maximum is returned as itself |
| SliceHelper.GetMaxValue | pkg/utils/slice-helper.go:33-45 | the loop computes the maximum of the slice: an element bounding every element, or 0 with "slice is empty" for an empty slice |
| SliceHelper.MaxValueExamples | pkg/utils/slice-helper_test.go:32-73 | the results of the unit-test cases: empty, mixed, all negative, single element and repeated maximum |
| Models.MapPackToData | internal/models/data.go:15-23 | id and timestamp are copied; there is an error exactly for empty data, and then the record still comes back with max 0; otherwise max is the slice maximum |
| DataMapping.DataToProto | internal/api/data_mapping.go:16-28 | nil gives "data is nil"; otherwise id is the text form, the timestamp is copied, and max is kept exactly when it fits in int32 |
| DataMapping.ProtoToData | internal/api/data_mapping.go:32-47 | nil gives "pb.Data is nil"; otherwise a record always comes back with timestamp and max copied; the error is absent exactly when the id parses, and then the id is the parsed one; otherwise the error is uuid's own parse error and the id is nil |
| DataMapping.RoundTrip | internal/api/data_mapping.go:16-47 | to the wire form and back gives the record with max narrowed to int32, and no error |
| DataMapping.RoundTripExact | internal/api/data_mapping.go:16-47 | the round trip returns the record unchanged exactly when max fits in int32 |
| DataMapping.RoundTripFromWire | internal/api/data_mapping.go:16-47 | a wire form whose id is a parsable 36-byte text survives the trip back, up to the letter case of the id |
| DataMapping.Int32Extremes | internal/api/data_mapping_test.go:114-139 | the int32 minimum and maximum are copied exactly |
| DataMapping.NarrowingWraps | internal/api/data_mapping.go:24 | max = 2^31 comes back as -2^31 |
| WireCodec.UnmarshalMarshal | internal/repository/redis.go:71-99 | the bytes Put writes unmarshal to the wire form they were made from |
| WireCodec.MarshalInjective | internal/repository/redis.go:71-77 | equal bytes come only from equal wire forms |
| WireCodec.Unmarshal | internal/repository/redis.go:99-101 | a decoding failure is the decoder's own error, and input too short for the layout always fails |
| WireCodec.DecodeEncodeLE | internal/repository/redis.go:71-99 | the little-endian integer fields decode to what was encoded |
| WireCodec.DecodeEncodeChars | internal/repository/redis.go:71-99 | the identifier text decodes to what was encoded |
| SortedSet.ZAdd | internal/repository/redis.go:77 | ZADD keeps the set sorted with unique members; afterwards the set holds the new entry plus every earlier entry with a different member |
| SortedSet.ZAddPresent | internal/repository/redis.go:77 | adding an entry that is already present changes nothing |
| SortedSet.ZAddIdempotent | internal/repository/redis.go:77 | adding the same entry twice is the same as adding it once |
| SortedSet.RangeByScore | internal/repository/redis.go:111-114 | the scan holds exactly the entries with from <= score <= to, in index order, and is empty for an inverted interval |
| SortedSet.SortedScores | internal/repository/redis.go:111-114 | a scan in index order is ascending by score |
| SortedSet.SortedExtensional | internal/repository/redis.go:111-114 | a sorted listing is determined by the entries it holds |
| SortedSet.Remove | internal/repository/redis.go:77 | removing a member keeps every other entry, in order |
| SortedSet.Insert | internal/repository/redis.go:77 | sorted insertion of a new member adds exactly that entry and keeps the order |
| SortedSet.LexTotal | internal/repository/redis.go:77 | distinct members are always ordered one way or the other |
| RedisRepository.DecodeEntry | internal/repository/redis.go:126-136 | bytes that do not unmarshal give ErrCorrupt; for bytes that do, it succeeds exactly when the id parses, carrying the parsed id and the timestamp, and otherwise fails with uuid's own parse error |
| RedisRepository.DecodeHits | internal/repository/redis.go:125-137 | a failed scan reports either ErrCorrupt or a uuid parse error |
| RedisRepository.PutSpec | internal/repository/redis.go:61-86 | nil writes nothing and gives "data is nil"; a failed ZADD writes nothing; it succeeds exactly when both commands work; the order index gets the record's bytes scored by its timestamp, replacing only that member; the point index changes only on success, mapping the id text to the bytes with expiry now + 500 |
| RedisRepository.GetSpec | internal/repository/redis.go:88-106 | a failed GET gives its error; an absent or expired key gives ErrNotFound; undecodable bytes give the decoder's error; otherwise the result is ProtoToData of the decoded wire form |
| RedisRepository.ListSpec | internal/repository/redis.go:108-140 | a record list comes back exactly when there is no error, and it is never empty; an inverted interval is ErrNotFound; the errors are the backend error, ErrNotFound, ErrCorrupt or a uuid parse error |
| RedisRepository.RedisRepository.constructor | internal/repository/redis.go:36-54 | a freshly opened store is empty |
| RedisRepository.RedisRepository.Put | internal/repository/redis.go:61-86 | ZADD then SET, with early returns, updates the two index fields exactly as PutSpec says |
| RedisRepository.RedisRepository.GetByID | internal/repository/redis.go:88-106 | the lookup returns what GetSpec says on the current indexes |
| RedisRepository.RedisRepository.ListByPeriod | internal/repository/redis.go:108-140 | the decoding loop with its early returns gives what ListSpec says |
| RedisRepository.DecodeHitsStopsAtError | internal/repository/redis.go:125-135 | an error on a prefix of the hits is the error of the whole scan |
| RedisRepository.DecodeHitsAllOk | internal/repository/redis.go:125-139 | the scan succeeds exactly when every hit decodes |
| RedisRepository.DecodeHitsValues | internal/repository/redis.go:126-137 | a successful scan has one record per hit, each the decoding of that hit, in order |
| RedisRepository.DecodeHitsOk | internal/repository/redis.go:126-139 | both facts above together |
| RedisRepository.DecodeHitsErr | internal/repository/redis.go:125-135 | a failed scan reports the error of the first hit that does not decode, and every earlier hit decodes |
| RepositoryContract.WireOf | internal/repository/redis.go:63-71 | the wire form of a record has its id text and timestamp and converts back to the narrowed record |
| RepositoryContract.EntryOf | internal/repository/redis.go:77 | the order-index entry of a record is scored by its timestamp and decodes to the narrowed record |
| RepositoryContract.EntryOfInjective | internal/repository/redis.go:77 | two records share an order-index member exactly when their narrowed forms are equal |
| RepositoryContract.EmptyValid | internal/repository/redis.go:36-54 | the empty store is valid and well-formed |
| RepositoryContract.PutPreservesWellFormed | internal/repository/redis.go:61-86 | Put keeps every entry decodable and every point-index value under its own id, whatever the outcome |
| RepositoryContract.PutAll | internal/models/repository.go:17-25 | a sequence of Put calls keeps the store valid |
| RepositoryContract.PutAllWellFormed | internal/models/repository.go:17-25 | every store built by Put calls from a well-formed one is well-formed |
| RepositoryContract.PutThenGet | internal/models/repository.go:17-35 | after a successful Put, GetByID of the same id finds the narrowed record until it expires, and the record itself when max fits in int32 |
| RepositoryContract.PutKeepsOthers | internal/models/repository.go:17-35 | a Put leaves the lookup of every other id unchanged, whatever its outcome |
| RepositoryContract.PutOverwrites | internal/models/repository.go:18 | a second successful Put with the same id replaces the first for GetByID |
| RepositoryContract.PutAllKeepsOthers | internal/models/repository.go:17-35 | any number of Puts of other ids leave a lookup unchanged |
| RepositoryContract.NeverPutNotFound | internal/models/repository.go:33 | an id that no Put carried is not found, with no record |
| RepositoryContract.GetWellFormed | internal/repository/redis.go:88-104 | in a well-formed store a working lookup either succeeds or reports ErrNotFound |
| RepositoryContract.GetReturnsRequestedId | internal/repository/redis.go:88-104 | a record found under an id carries that id |
| RepositoryContract.ListInRange | internal/models/repository.go:37-47 | a listing holds only records with from <= timestamp <= to, in ascending timestamp order |
| RepositoryContract.ListNotFoundIff | internal/repository/redis.go:111-123 | in a well-formed store a working scan fails only with ErrNotFound, and does so exactly when no entry's score is in range |
| RepositoryContract.DecodedMembers | internal/repository/redis.go:126-137 | when every hit decodes, the scan holds exactly the decoded hits |
| RepositoryContract.ListMembership | internal/repository/redis.go:108-140 | in a well-formed store a listing holds exactly the decoded entries whose score is in range |
| RepositoryContract.ListAbortsOnBadEntry | internal/repository/redis.go:125-131 | one matched entry that does not decode makes the whole scan fail with no partial result, with the error of some matched entry; if no matched entry unmarshals, the error is ErrCorrupt |
| RepositoryContract.ListAfterPut | internal/repository/redis.go:77-140 | after a Put whose ZADD worked, every listing covering the timestamp holds the narrowed record |
| RepositoryContract.ListInclusiveBounds | internal/models/repository.go:38-42 | a listing from t to t finds a record put with timestamp t |
| RepositoryContract.ExpiryDivergence | internal/repository/redis.go:76-83 | after the point index has expired a record, GetByID reports ErrNotFound while ListByPeriod still lists it |
| RepositoryContract.PutOrderIdempotent | internal/repository/redis.go:77 | repeating a Put leaves the order index as the first Put left it |
| RepositoryContract.PutPoints | internal/repository/redis.go:83 | a successful Put maps the id text to the record's bytes with expiry now + 500 |
| RepositoryContract.PutPointsIdempotent | internal/repository/redis.go:83 | repeating a Put leaves the point index as the first Put left it |
| RepositoryContract.PutIdempotent | internal/repository/redis.go:61-86 | repeating a Put in the same environment changes nothing further and returns the same error |
| RepositoryContract.RePutKeepsOrderEntry | internal/repository/redis.go:76-83 | re-putting an id with different values keeps both entries in the order index, and a listing shows both |
| RepositoryContract.PutOrderMembers | internal/repository/redis.go:77 | after a Put whose ZADD worked, the order index is the record's entry plus the earlier entries with other members |
| RepositoryContract.ThreeStored | internal/models/repository.go:17-25 | three Puts from the empty store give a valid store |
| RepositoryContract.ThreePuts | internal/repository/redis.go:77 | three Puts at timestamps 100, 200 and 300 leave exactly their three entries |
| RepositoryContract.HitsOfThree | internal/repository/redis.go:111-114 | a scan of [150, 300] over entries scored 100, 200 and 300 returns the last two, in order |
| RepositoryContract.ListOfThree | internal/repository/redis.go:108-140 | a listing of [150, 300] over those three records yields the last two, in order |
| RepositoryContract.ScanOfTwo | internal/repository/redis.go:126-137 | two decodable hits decode to their two records, in order |
| RepositoryContract.ThreeRecordScenario | internal/models/repository.go:37-47 | three records at 100, 200 and 300 put into an empty store: [150, 300] lists the last two, in order |
| Service.TranslateGet | internal/service/data_service.go:26-39 | exactly one of record and error; a repository error passes through with no record; nil becomes not found; the nil id becomes corrupted data; otherwise the record passes through unchanged |
| Service.TranslateList | internal/service/data_service.go:41-54 | a repository error gives an empty, non-nil list with the same error; nil gives not found with a nil list; empty gives not found with an empty list; success exactly for a non-empty result, passed through |
| Service.DataService.constructor | internal/service/data_service.go:18-20 | the service holds the given repository |
| Service.DataService.Put | internal/service/data_service.go:22-24 | delegates to the repository and returns its error unchanged |
| Service.DataService.GetByID | internal/service/data_service.go:26-39 | the lookup translated by TranslateGet |
| Service.DataService.ListByPeriod | internal/service/data_service.go:41-54 | the listing translated by TranslateList |
| Service.ServiceGet | internal/service/data_service.go:26-39 | the lookup as a function of the store: a record with a non-nil id or an error, never both |
| Service.ServiceList | internal/service/data_service.go:41-54 | the listing as a function of the store: without an error the list is present and not empty |
| Service.ServiceNotFoundUnreachable | internal/service/data_service.go:29-50 | with this repository the service never produces its own not-found error |
| Service.ServiceListError | internal/service/data_service.go:45-46 | a failing listing comes back as an empty list with the repository's error |
| Service.ServicePutThenGet | internal/service/data_service.go:22-38 | after a successful Put of a record with a non-nil id, the service returns the narrowed record until it expires |
| Service.ServiceNilIdCorrupt | internal/service/data_service.go:34-35 | a record stored under the nil id is reported as corrupted data |
| Service.ServiceCorruptOnlyForNil | internal/service/data_service.go:26-39 | in a well-formed store corrupted data is reported only for the nil id, and a found record carries the requested id |
| EventProc.Outcomes.constructor | cmd/xis-data-aggregator/main.go:79 | a fresh outcome channel has nothing sent on it |
| EventProc.Outcomes.Send | internal/service/event_proc.go:36-50 | a send appends one value |
| EventProc.ProcessPackSpec | internal/service/event_proc.go:31-53 | the outcome is true exactly when there is no error, and exactly when the pack has values and both writes work; an empty pack leaves the store as it was with "slice is empty"; otherwise the store and error are those of Put |
| EventProc.ProcessPack | internal/service/event_proc.go:31-53 | updates the store and returns the error as ProcessPackSpec says, and sends exactly one outcome |
| EventProc.ProcessData | internal/service/event_proc.go:13-29 | the sequential loop runs every pack in turn; the store and the outcomes sent are those of ProcessAllSpec |
| EventProc.ProcessAllSpec | internal/service/event_proc.go:17-23 | processing a sequence of packs keeps the store valid |
| EventProc.ProcessAllOutcomes | internal/service/event_proc.go:17-23 | one outcome per pack, and outcome i is true exactly when pack i has values and both of its writes work; an error does not stop the loop |
| EventProc.ProcessPackKeeps | internal/service/event_proc.go:31-53 | processing a pack keeps every decodable order-index entry |
| EventProc.ProcessPackAdds | internal/service/event_proc.go:31-53 | a pack with values whose ZADD works puts its record in the order index |
| EventProc.PutKeepsOrderEntry | internal/repository/redis.go:77 | a Put keeps every decodable order-index entry, whatever its outcome |
| EventProc.ProcessAllRecorded | internal/service/event_proc.go:17-23 | every pack with values whose ZADD worked has its record in the final order index |
| Metrics.Step | internal/metrics/metrics.go:33-45 | true adds one success and false one failure, leaving the other counter unchanged; a success is logged exactly when the new success count is a multiple of the batch size; a failure is logged exactly when the success count is |
| Metrics.Collector.constructor | cmd/xis-data-aggregator/main.go:96-99 | the collector starts with zero counters and no log lines |
| Metrics.Collector.Start | internal/metrics/metrics.go:30-46 | the loop over the outcomes updates the counters and the log exactly as Fold says; the batch size has to be positive |
| Metrics.Fold | internal/metrics/metrics.go:33-45 | the collector logs at most one line per outcome |
| Metrics.CountOf | internal/metrics/metrics.go:33-45 | a count of outcomes is at most the number of outcomes |
| Metrics.FoldCounts | internal/metrics/metrics.go:33-45 | the counters grow by the numbers of trues and falses, which sum to the stream length |
| Metrics.FoldFromZero | internal/metrics/metrics.go:33-45 | from zero, the success count is the number of trues and the failure count the number of falses, summing to the stream length |
| Metrics.FoldMonotone | internal/metrics/metrics.go:33-45 | consuming more of the stream never decreases either counter |
| Metrics.SuccessLogs | internal/metrics/metrics.go:36-38 | "Successfully processed k items" is logged exactly for the multiples k of the batch size that the success counter reaches |
| Metrics.FailuresLoggedWhileStalled | internal/metrics/metrics.go:41-43 | while the success counter sits on a multiple of the batch size, every failure is logged with the new failure count |
| Metrics.FailuresSilentOffBatch | internal/metrics/metrics.go:41-43 | while the success counter is off a multiple, failures are not logged |
| Metrics.QuirkExamples | config/config.go:14 | with batch size 10, a first failure is logged, and a failure after one success is not |
| Pipeline.StoredCount | cmd/xis-data-aggregator/main.go:95-108 | the number of stored packs is at most the number of packs |
| Pipeline.OutcomesCountStored | cmd/xis-data-aggregator/main.go:95-108 | the number of true outcomes is the number of stored packs |
| Pipeline.PipelineCounts | cmd/xis-data-aggregator/main.go:95-108 | after the collector consumes the worker's outcomes, successes are the stored packs and failures are the rest |
| Pipeline.HealthyStoresAllNonEmpty | cmd/xis-data-aggregator/main.go:95-108 | with every write working and every pack non-empty, all packs count as stored |
| Pipeline.Run | cmd/xis-data-aggregator/main.go:95-108 | one worker followed by the collector: the store is ProcessAllSpec's, and the counters are the stored and unstored counts |
| ErrHelper.GetMethodDesc | pkg/utils/err-helper.go:98-120 | the loop builds the name, or "uncknown_method_" for an empty one, then the parameters joined by ", " in parentheses |
| ErrHelper.JoinBothWays | pkg/utils/err-helper.go:111-116 | joining from the left, as the loop does, equals joining from the right |
| ErrHelper.JoinAppend | pkg/utils/err-helper.go:111-116 | appending a parameter appends the separator and that parameter |
| ErrHelper.NoParams | pkg/utils/err-helper.go:106-117 | with no parameters the description is the name followed by "()" |
| ErrHelper.LastParamEnds | pkg/utils/err-helper.go:111-117 | the separator never trails: the description ends with the last parameter and ")" |
| ErrHelper.JoinLength | pkg/utils/err-helper.go:111-116 | the joined text is the parameters' total length plus two characters per gap |
| ErrHelper.SplitComma | pkg/utils/err-helper.go:114 | splitting at commas always yields at least one part |
| ErrHelper.SplitNoComma | pkg/utils/err-helper.go:114 | a comma-free prefix joins the first part of the split |
| ErrHelper.SplitJoin | pkg/utils/err-helper.go:111-116 | when no parameter contains a comma, splitting the joined text at commas gives back the parameters, each after the first with its leading blank |
| ErrHelper.EmptyParamAmbiguity | pkg/utils/err-helper.go:106-117 | no parameters and a single empty parameter give the same description |
| ErrHelper.MethodDescExample | pkg/utils/err-helper.go:96-97 | "ProcessData" with "input" and "42" is "ProcessData(input, 42)" |
| ErrHelper.PanicErrStr | pkg/utils/err-helper.go:71-82 | the report is `Sprintf` of the format constant: the method description, `" PANIC:'"`, the panic value, `"'\n\tat:[[\n"`, the stack and `"\n]]\n"`; so it starts with the description and is 21 characters longer than its three parts |
| ErrHelper.PanicLayout | pkg/utils/err-helper.go:12 | the format constant puts its three arguments after the description slot, inside the quotes and inside the stack brackets |
| ErrHelper.SprintfLiteral | pkg/utils/err-helper.go:80 | `Sprintf` copies text without a percent sign unchanged |
| ErrHelper.SprintfVerb | pkg/utils/err-helper.go:80 | `%v` and `%s` write the next argument unchanged, percent signs included |
| ErrHelper.VerbMissing | pkg/utils/err-helper.go:52 | a verb with no argument left is written as `%!c(MISSING)` |
| ErrHelper.ThreeVerbs | pkg/utils/err-helper.go:12 | a format of three verbs between literal texts places the three arguments between those texts |
| ErrHelper.PanicErrTextLayout | pkg/utils/err-helper.go:45-53 | PanicErr's report is the layout of PanicErrStr with the rendered slice as the one parameter |
| ErrHelper.PanicErrPlain | pkg/utils/err-helper.go:52 | with no percent sign in any input, PanicErr's error message is the report text |
| ErrHelper.PanicErrPercent | pkg/utils/err-helper.go:52 | a panic value ending in "%" garbles the message: `%'` becomes `%!'(MISSING)`, so the message differs from the report |
| ErrHelper.PanicErrMessageFixed | pkg/utils/err-helper.go:52 | passing the report as an argument makes the message equal to the report for every input |
| ErrHelper.SlotNoPercent | pkg/utils/err-helper.go:45-53 | PanicErr's description has no percent sign when its name and parameters have none |
| ErrHelper.PanicErrOneSlot | pkg/utils/err-helper.go:45-53 | PanicErr's description holds the whole parameter slice, bracketed and blank-separated, in one slot |
| ErrHelper.PanicErrExample | pkg/utils/err-helper.go:45-53 | PanicErr with parameters "a" and "b" describes the call as "F([a b])" |

## Left out

- `Open` and `Close`, and the in-process Redis server they start and stop: the constructor produces the empty store instead.
- Concurrency: the worker goroutines, the `sync.WaitGroup`, channel blocking, and the `closeOnce` close of the metrics channel. `Pipeline.Run` models a single worker run to completion before the collector starts. With several workers the order of outcomes would interleave.
- The protobuf byte layout: `WireCodec` is a stand-in codec with a fixed layout of 8 timestamp bytes, 4 bytes for max and 3 bytes per identifier character. Because the codec differs, the tie order between equal scores follows the stand-in bytes and not protobuf's.
- The float64 conversion of the score: the score is the integer timestamp, so timestamps beyond 2^53 are not rounded.
- The type assertion of each matched member to a byte slice in `ListByPeriod` is taken to succeed. According to the go-redis v9 documentation, sorted-set members come back as `string`, so the assertion at internal/repository/redis.go:128 would panic on every matched entry; the model follows the evident intent instead.
- The error texts produced by foreign code: `Undecodable` stands for protobuf's decode error and `Backend(cmd)` for the client's error on a failed command.
- Wall-clock expiry: `Env.now` is a logical clock in seconds, and a value has expired once now >= write time + 500. The in-process server the program starts (miniredis) expires keys only when its clock is advanced explicitly (`FastForward`), which the program never does, so the divergence `RepositoryContract.ExpiryDivergence` describes does not show up in the program as written; the model states what a real Redis server would do.
- Uuid.Parse: on a parse error Go returns a partially filled identifier, while the model returns the nil identifier. Downstream no caller looks at the identifier once there is an error.
- The `%q` quoting inside uuid's error texts for an invalid prefix: the model puts the 9 prefix bytes, one character per byte, between plain double quotes.
- Metrics.Step: the Go `int` counters are unbounded naturals, so their overflow after 2^63 outcomes is not modelled.
- The unreachable branches: `pbData == nil` after a successful conversion, a `proto.Marshal` error, and `data == nil` after `MapPackToData`. None of them can occur in the model, because the functions involved are total.
- A nil `*Pack` given to `ProcessPack` panics in Go. Packs are values in the model, so no nil pack can arise.
- The `recover()` guards of the error helpers and Go's `%v` rendering: parameters, the recovered value and the stack are taken as already rendered strings.
- ErrHelper.Sprintf: only what the panic report and `PanicErr` need. `%v` and `%s` with text arguments, `%%`, a missing argument and a trailing `%` are modelled. A verb after flags, width or precision, other verbs with an argument, and surplus arguments (`%!(EXTRA …)`) are not: the model copies such a `%` as written.
- Logging through glog, except the metrics lines, which become `LogEvent`s. The "process data error" line of `ProcessData` is not modelled.
- The REST and gRPC transports, the process wiring other than the single-worker pipeline, the mock pack generator, the configuration flags and the example client.
- The `Repository` interface is not a separate Dafny type with several implementations. Its documented contract is stated as the lemmas of `RepositoryContract` about the one implementation, `RedisRepository`.

## Findings

| source | as written | input that shows it | evidently intended | confidence | as-written member | corrected member |
|---|---|---|---|---|---|---|
| pkg/utils/err-helper.go:52 | `Errorf(PanicErrStr(...))` passes the report as the format string, so a `%` in the panic value, the stack, the method name or a parameter is read as a verb | a panic value `"100%"`: the message holds `100%!'(MISSING)` instead of `100%'` | the error message is the report text, as with `Errorf("%s", PanicErrStr(...))` | medium; not executed | ErrHelper.PanicErrPercent | ErrHelper.PanicErrMessageFixed |
