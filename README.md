# NLog Pub/Sub target — a Dafny model

This project models the core of an NLog target that publishes log events to Google Cloud
Pub/Sub. It covers two parts.

**The target (`PubSubTarget.cs`)**
- `SendBatch` parses the attribute string `"k1:v1;k2:v2"` lazily into a cached dictionary.
- It then turns the batch of events into a list of publish requests. There are two modes:
  - **Per-record mode (`FormPayload`).** One message per rendered event whose encoding is shorter than `MaxBytesPerRequest`; longer ones are dropped. A running byte counter decides how many times the open request `pRequest` is sealed, but the same list is sealed each time (see "## Findings").
  - **Concatenation mode (`FormPayloadConcat`).** The rendered events are appended as lines to one buffer. For a non-negative limit the buffer is sealed as a single message every `MaxMessagesPerRequest + 1` records; for a negative one the first message is empty and every record gets a message of its own.
- It hands the requests to the publisher and completes every event's continuation: all with null, or, when anything threw, all with that exception. This holds as long as the continuations themselves return normally.

**The resource registry (`GoogleResources.cs`)**
- A static dictionary from topic to a loaded publisher client and topic name.
- It is created lazily and filled by get-or-insert.
- The loader swallows every failure and still returns an object.

## Modules

- `Common`: Option, Result, and the .NET exceptions the code can raise (`Exception`). Also bytes and `string.IsNullOrEmpty`.
- `Strings`: `String.Split(char)` and `String.Join`, with their round trips.
- `Attributes`: the attribute parse as a function over the split segments, with its success condition, its result and its failure point.
- `Batching`: the specification functions of both payload modes. In per-record mode these are the accepted payloads, the `totalBytes`/seal counter and the evidently intended partition. In concatenation mode they are the fold over the buffer and the chunks it equals.
- `PubSub`: the target as a class. Its configuration and `_atributesD` are fields. The methods are `ParseAtributes` (the loop at lines 70-80), `FormPayload`, `FormPayloadConcat` and `SendBatch`. The loops of the two payload builders are `BuildRequests` and `BuildConcatRequests`, with `AddMessage` and `Seal` for the steps that add a message to `pRequest` and seal it. `List<PubsubMessage>` is the class `RequestList`, so a list sealed twice is one object referenced twice.
- `Resources`: `GoogleResources` as a class, `LoadResources`, and the static dictionary as the class `Registry` with `Instance`.

How the world is represented:
- `Layout.Render`, `ByteString.CopyFromUtf8` and `Environment.NewLine` are constant fields of the target, given to its constructor.
- Publishing (`Instance`, `PublishAsync`, `Task.WhenAll`) is one `dispatch` function parameter of `SendBatch`. It maps the contents of the requests to the exception it throws, if any: `Foreign` for a failure inside the client library or the transport, `NullReference` for a client that failed to load, or `ArgumentNull` for a null `Topic`.
- The file system, the credential file and the SDK client creation used by `LoadResources` are an `Environment` parameter. It holds the current directory, `Path.Combine`, and a `connect` function that is None when any of these steps throws.

## Model

| member | source | states |
|---|---|---|
| Strings.JoinSplit | src/NLog.Targets.PubSubTarget/PubSubTarget.cs:74 | joining the parts of `Split(s, sep)` with `sep` gives `s` back: the split loses nothing |
| Strings.Split | src/NLog.Targets.PubSubTarget/PubSubTarget.cs:74-77 | String.Split on one separator: there is always at least one part, and no part holds the separator |
| Strings.SplitJoin | src/NLog.Targets.PubSubTarget/PubSubTarget.cs:74 | splitting a join of separator-free parts gives exactly those parts |
| Strings.SplitHasSeveralParts | src/NLog.Targets.PubSubTarget/PubSubTarget.cs:77-78 | a segment splits into two or more parts on ':' exactly when it contains ':', which is when `kv[1]` exists |
| Strings.SplitFirstPart | src/NLog.Targets.PubSubTarget/PubSubTarget.cs:77 | a separator-free prefix followed by the separator is split off as the first part |
| Strings.SplitWithoutSeparator | src/NLog.Targets.PubSubTarget/PubSubTarget.cs:77 | a string without the separator splits into itself alone |
| Attributes.ParseSegments | src/NLog.Targets.PubSubTarget/PubSubTarget.cs:75-79 | the foreach only adds entries: every key of the starting dictionary stays, with its value |
| Attributes.ParseStep | src/NLog.Targets.PubSubTarget/PubSubTarget.cs:77-78 | one iteration either raises the segment's fault (IndexOutOfRange without ':', DuplicateKey for a present key) with the dictionary unchanged, or adds kv[0] -> kv[1] and continues |
| Attributes.ParseSucceedsIff | src/NLog.Targets.PubSubTarget/PubSubTarget.cs:74-79 | the parse ends without an exception if and only if every segment has a ':' and the keys are new and pairwise distinct |
| Attributes.ParsableRest | src/NLog.Targets.PubSubTarget/PubSubTarget.cs:75-79 | after a good first segment, the remaining segments are still parsable against the grown dictionary |
| Attributes.ParsedKeys | src/NLog.Targets.PubSubTarget/PubSubTarget.cs:75-79 | a successful parse has exactly the old keys plus every segment's kv[0] |
| Attributes.ParsedValues | src/NLog.Targets.PubSubTarget/PubSubTarget.cs:77-78 | a successful parse maps every segment's kv[0] to its kv[1] |
| Attributes.ParseStopsAtFault | src/NLog.Targets.PubSubTarget/PubSubTarget.cs:72-79 | a failed parse leaves behind the dictionary built by the segments before the first faulty one, and raises that segment's exception |
| Attributes.ParseIgnoresExtraParts | src/NLog.Targets.PubSubTarget/PubSubTarget.cs:77-78 | for "k:v:extra" only k -> v is added: parts after the second are ignored |
| Attributes.SegmentParts | src/NLog.Targets.PubSubTarget/PubSubTarget.cs:77-78 | the segment "k:v" of a plain pair has key k and value v |
| Attributes.ParseSegmentsOfPairs | src/NLog.Targets.PubSubTarget/PubSubTarget.cs:75-79 | the segments of plain pairs with new, distinct keys parse without an exception into the dictionary extended by those pairs |
| Attributes.ParseFormat | src/NLog.Targets.PubSubTarget/PubSubTarget.cs:70-80 | round trip: the attribute string written from plain pairs with distinct keys parses back to exactly those pairs |
| PubSub.PubSubTarget.constructor | src/NLog.Targets.PubSubTarget/PubSubTarget.cs:16-35 | Name is "PubSubTarget"; the limits default to 1048576 bytes and 1000 messages; the attribute string and dictionary start null |
| PubSub.PubSubTarget.ParseAtributes | src/NLog.Targets.PubSubTarget/PubSubTarget.cs:70-80 | parses only when the attribute string is non-empty and no dictionary is cached; the dictionary is stored before the loop, so a partial dictionary stays cached when a segment throws |
| PubSub.PubSubTarget.AttributeStep | src/NLog.Targets.PubSubTarget/PubSubTarget.cs:70-80 | a cached dictionary is kept and never re-parsed; the dictionary stays null exactly when it was null and the attribute string is null or empty; an exception is raised only by a first parse, which still leaves a dictionary behind; that parse succeeds exactly when the segments are parsable |
| PubSub.NewMessage | src/NLog.Targets.PubSubTarget/PubSubTarget.cs:158-163 | the message carries the data and every entry of the dictionary, no more; a null dictionary throws NullReference |
| PubSub.AddMessage | src/NLog.Targets.PubSubTarget/PubSubTarget.cs:158-165 | pRequest then holds the messages of one more accepted payload, each with the whole dictionary; a null dictionary throws NullReference and pRequest is unchanged |
| PubSub.RequestList.Add | src/NLog.Targets.PubSubTarget/PubSubTarget.cs:165 | the message is appended to the list |
| PubSub.BuildRequests | src/NLog.Targets.PubSubTarget/PubSubTarget.cs:139-180 | per-record loop: it fails (NullReference) exactly when the dictionary is null and some record is accepted. Otherwise it returns seals+1 references to one list holding the messages of all accepted payloads in order, or no reference when none is accepted |
| PubSub.PubSubTarget.FormPayload | src/NLog.Targets.PubSubTarget/PubSubTarget.cs:136-181 | the same, over this target's encoded events, byte limit and dictionary |
| PubSub.BuildConcatRequests | src/NLog.Targets.PubSubTarget/PubSubTarget.cs:186-234 | concatenation loop: it fails (NullReference) exactly when the dictionary is null and there is an event. Otherwise it returns one distinct request per payload of the fold, each holding exactly one message with that payload and the whole dictionary |
| PubSub.PubSubTarget.FormPayloadConcat | src/NLog.Targets.PubSubTarget/PubSubTarget.cs:183-236 | the same, over this target's renderings, count limit and line terminator |
| PubSub.Seal | src/NLog.Targets.PubSubTarget/PubSubTarget.cs:199-207 | sealing puts one message with the buffer's data and the whole dictionary into the empty pRequest and appends pRequest to the requests, leaving those sealed before untouched; a null dictionary throws NullReference |
| PubSub.PubSubTarget.Requests | src/NLog.Targets.PubSubTarget/PubSubTarget.cs:82-91 | building the requests fails only with NullReference and only with a null dictionary; every message carries the whole dictionary; in concatenation mode every request holds one message; in per-record mode every request holds every accepted message |
| PubSub.PubSubTarget.Outcome | src/NLog.Targets.PubSubTarget/PubSubTarget.cs:65-133 | with no attribute string configured, every batch that yields a message fails with NullReference, in either mode |
| PubSub.PubSubTarget.AsWrittenRequests | src/NLog.Targets.PubSubTarget/PubSubTarget.cs:136-181 | with a 25-byte limit and three 10-byte events, the requests published are two copies of one request holding all three messages |
| PubSub.PubSubTarget.EmptyAttributesIntended | src/NLog.Targets.PubSubTarget/PubSubTarget.cs:158-163 | reading a missing dictionary as empty, building the requests never fails, and without a dictionary every message carries no attribute |
| PubSub.PubSubTarget.IntendedOutcomeSucceeds | src/NLog.Targets.PubSubTarget/PubSubTarget.cs:65-133 | with a missing dictionary read as empty, the attribute step raises nothing when no attribute string is configured, and once it raises nothing the batch succeeds whenever publishing does: building the requests never throws |
| PubSub.PubSubTarget.SendBatch | src/NLog.Targets.PubSubTarget/PubSubTarget.cs:65-133 | the attribute step updates the cached dictionary; provided continuations return normally, every continuation, in order, receives the same value: the parse error, else the exception building the requests in the configured mode, else what publishing them throws (null for success) |
| Batching.Accepted | src/NLog.Targets.PubSubTarget/PubSubTarget.cs:149 | every accepted payload is strictly shorter than the limit |
| Batching.Rejected | src/NLog.Targets.PubSubTarget/PubSubTarget.cs:149-172 | every rejected payload is at least as long as the limit |
| Batching.Step | src/NLog.Targets.PubSubTarget/PubSubTarget.cs:149-167 | one iteration seals at most once; after a seal totalBytes is the new payload's length (reset to 0, then the length added); a totalBytes within a non-negative limit stays within it |
| Batching.Count | src/NLog.Targets.PubSubTarget/PubSubTarget.cs:143-174 | with nothing accepted the counter is untouched (no seal, 0 bytes); otherwise there are fewer seals than accepted payloads, because a seal needs an earlier accepted payload in the open request |
| Batching.AcceptedIff | src/NLog.Targets.PubSubTarget/PubSubTarget.cs:145-168 | a payload is accepted exactly when it occurs in the input and is shorter than the limit, so one of exactly the limit's length is dropped |
| Batching.AcceptedAndRejected | src/NLog.Targets.PubSubTarget/PubSubTarget.cs:145-174 | accepted and rejected together are the input as a multiset: a rejection does not stop the loop, and nothing is lost or duplicated |
| Batching.PartitionMultiset | src/NLog.Targets.PubSubTarget/PubSubTarget.cs:145-174 | the multiset half of the partition, by induction over the loop |
| Batching.CounterWithinLimit | src/NLog.Targets.PubSubTarget/PubSubTarget.cs:143-167 | after every iteration totalBytes is non-negative, and at most the limit when the limit is non-negative |
| Batching.Intended | src/NLog.Targets.PubSubTarget/PubSubTarget.cs:141-180 | the corrected partition is empty exactly when nothing is accepted, and none of its requests is empty |
| Batching.IntendedCount | src/NLog.Targets.PubSubTarget/PubSubTarget.cs:151-180 | the counter agrees with the intended partition: no request iff nothing is accepted, else seals+1 requests whose open one has totalBytes bytes |
| Batching.IntendedFlatten | src/NLog.Targets.PubSubTarget/PubSubTarget.cs:145-180 | the intended requests concatenated in order are exactly the accepted payloads |
| Batching.IntendedBounded | src/NLog.Targets.PubSubTarget/PubSubTarget.cs:151-156 | every intended request is non-empty and within the byte limit |
| Batching.IntendedWithinLimit | src/NLog.Targets.PubSubTarget/PubSubTarget.cs:141-180 | the corrected per-record result: non-empty requests, each within the limit, that concatenate to the accepted payloads |
| Batching.AsWrittenExceedsLimit | src/NLog.Targets.PubSubTarget/PubSubTarget.cs:141-180 | three 10-byte records against a 25-byte limit: one seal, so two references to one 30-byte request, where [[r1, r2], [r3]] is intended |
| Batching.ScenarioTwo | src/NLog.Targets.PubSubTarget/PubSubTarget.cs:149-167 | two 10-byte records against a 25-byte limit stay in one request of 20 bytes without a seal |
| Batching.PositiveTotal | src/NLog.Targets.PubSubTarget/PubSubTarget.cs:167 | a request's size is never negative |
| Batching.FlattenAppend | src/NLog.Targets.PubSubTarget/PubSubTarget.cs:178 | sealing one more request appends its contents to the concatenation of all requests |
| Batching.LinesAppend | src/NLog.Targets.PubSubTarget/PubSubTarget.cs:216 | AppendLine adds the text and then the line terminator |
| Batching.ConcatFold | src/NLog.Targets.PubSubTarget/PubSubTarget.cs:186-232 | the loop never drops or reorders a sealed payload: the payloads sealed so far are a prefix of the result |
| Batching.ConcatFoldGrows | src/NLog.Targets.PubSubTarget/PubSubTarget.cs:194-232 | the fold never has fewer payloads than it has already sealed, and has at least one more when a record remains or the buffer holds one |
| Batching.ConcatNonEmpty | src/NLog.Targets.PubSubTarget/PubSubTarget.cs:221-232 | at least one event gives at least one message |
| Batching.ChunksShape | src/NLog.Targets.PubSubTarget/PubSubTarget.cs:194-232 | chunks of k concatenate back to the input; there are ceil(n / k) of them, each non-empty and at most k long, all but the last exactly k |
| Batching.ConcatFoldChunks | src/NLog.Targets.PubSubTarget/PubSubTarget.cs:194-232 | from any buffered state, the rest of the fold is the text of the chunks of maxMessages + 1 records |
| Batching.ConcatIsChunks | src/NLog.Targets.PubSubTarget/PubSubTarget.cs:194-232 | for a non-negative limit, message j folds records j*(M+1) up to (j+1)*(M+1), each followed by a new line |
| Batching.ConcatCount | src/NLog.Targets.PubSubTarget/PubSubTarget.cs:194-232 | for a non-negative limit there are ceil(n / (M+1)) requests, none for no events |
| Batching.LinesOfFlatten | src/NLog.Targets.PubSubTarget/PubSubTarget.cs:211-216 | writing the chunks one buffer each and joining the buffers is writing all the records into one buffer |
| Batching.LinesConcat | src/NLog.Targets.PubSubTarget/PubSubTarget.cs:216 | AppendLine over two runs of texts is the concatenation of the two |
| Batching.ConcatPreservesLines | src/NLog.Targets.PubSubTarget/PubSubTarget.cs:192-223 | for any limit, the payloads concatenated in order are each rendering followed by a new line, in input order, nothing lost or duplicated |
| Batching.ConcatNegativeLimit | src/NLog.Targets.PubSubTarget/PubSubTarget.cs:190-214 | with a negative limit the first message is empty, then every record has a message of its own |
| Batching.ConcatFoldSameAsZero | src/NLog.Targets.PubSubTarget/PubSubTarget.cs:197 | once a record is buffered, any negative limit seals exactly as a limit of 0 does |
| Batching.ConcatFoldSealedPrefix | src/NLog.Targets.PubSubTarget/PubSubTarget.cs:207 | payloads already sealed are kept ahead of everything sealed later |
| Resources.CredentialPath | src/NLog.Targets.PubSubTarget/GoogleResources.cs:48-57 | there is a credential path exactly when a file name is given |
| Resources.CredentialDirectory | src/NLog.Targets.PubSubTarget/GoogleResources.cs:50-57 | a null and an empty directory name the same file, and the current directory matters only when no directory is configured |
| Resources.Load | src/NLog.Targets.PubSubTarget/GoogleResources.cs:60-71 | a successful load had a file name, a project and a topic, names exactly the requested project and topic, and holds the client created from the credential path with the given timeout |
| Resources.GoogleResources.constructor | src/NLog.Targets.PubSubTarget/GoogleResources.cs:18-45 | a new object has a null client and a null topic |
| Resources.GoogleResources.LoadResources | src/NLog.Targets.PubSubTarget/GoogleResources.cs:43-79 | always a fresh object; its fields hold the loaded client and topic name, or both stay null when any step threw |
| Resources.Registry.constructor | src/NLog.Targets.PubSubTarget/GoogleResources.cs:16 | the static dictionary starts null, so every entry is trivially consistent with its key (`Valid`) |
| Resources.Registry.Instance | src/NLog.Targets.PubSubTarget/GoogleResources.cs:22-41 | a cached topic is returned with the dictionary unchanged; an absent topic is loaded once and added, every other entry untouched, and the dictionary is created only then; a null topic throws ArgumentNull (after creating the dictionary when there was none); every entry stays consistent with its key, so a returned topic name always names the requested topic |
| Resources.Registry.InstanceTwice | src/NLog.Targets.PubSubTarget/GoogleResources.cs:22-40 | the key is the topic alone: a second call with any other file, directory, project, timeout or environment returns the same object, and a failed load stays cached with null fields |

## Left out

- Concurrency: `async void` dispatch, the awaiting of `Task.WhenAll` and the lock with its double check in `Instance` are not modelled. Calls run one at a time, so the double check collapses to one.
- Publishing is the `dispatch` parameter of `SendBatch`. This covers the call to `Instance`, `PublishAsync` and a null client at line 99. The call at `PubSubTarget.cs:95` passes four arguments while `Instance` takes five, so the two files come from different revisions; the model keeps them apart and does not reconcile them.
- The result-logging loop at `PubSubTarget.cs:105-117` only writes trace logs, so it is left out. Its `task.Exception` branch cannot be reached after `await Task.WhenAll`.
- All `InternalLogger` calls are left out: they only log.
- The attribute parse in the constructor (`PubSubTarget.cs:37-47`) is left out. `Atributes` is always unset when it runs, so it never runs. It duplicates lines 70-80, which are modelled.
- `Write(AsyncLogEventInfo)` and `Write(IList<...>)` (`PubSubTarget.cs:55-63`) only forward to `SendBatch`, and `InitializeTarget` only calls the base class.
- The concrete UTF-8 encoding, the layout and `Environment.NewLine` are left abstract.
- Credential loading, the gRPC channel, call timing and client creation are one abstract `connect` function. So is `Path.Combine`. `TopicName`'s own validation of its arguments is reduced to rejecting null.
- `StringExtensions.cs` is not part of this model. It converts values with culture-dependent parsing and reads environment variables and configuration files.
- PubSub.BuildRequests: does not model the 32-bit overflow of `bytes.Length + totalBytes`, because lengths are unbounded integers here.
- PubSub.BuildConcatRequests: does not model the 32-bit overflow of `count`, because counts are unbounded integers here.
- PubSub.PubSubTarget.SendBatch: continuations are assumed to return normally. In the source a continuation that throws inside the `try` (lines 120-123) sends control to the `catch` (lines 129-132), so the events before it are completed twice, first with null and then with that exception; the model does not capture this.
- Continuations are not delegates here. `SendBatch` returns, per event and in order, the argument each continuation is called with.

## Findings

| source | as written | input that shows it | evidently intended | confidence | as-written member | corrected member |
|---|---|---|---|---|---|---|
| src/NLog.Targets.PubSubTarget/PubSubTarget.cs:141-180 | after a seal `pRequest` is added to the result but never replaced, so every entry of the result is the same list, holding every accepted message | three 10-byte records with a 25-byte limit: the result is two references to one 30-byte request | a fresh list after each seal, giving [[r1, r2], [r3]], each request within the limit | high, not executed | Batching.AsWrittenExceedsLimit | Batching.IntendedWithinLimit |
| src/NLog.Targets.PubSubTarget/PubSubTarget.cs:70-80 | with no attribute string the dictionary stays null, and the foreach over it (lines 160, 201, 225) throws for every message | the default configuration (Atributes unset, per-record mode, 1048576-byte limit) and one event whose encoding is shorter than the limit: every continuation receives a NullReferenceException | attributes are optional, as the IsNullOrEmpty guard at line 70 suggests, so a missing dictionary reads as empty and the messages are published without attributes | high, not executed | PubSub.PubSubTarget.Outcome | PubSub.PubSubTarget.IntendedOutcomeSucceeds |

`PubSub.PubSubTarget.FormPayload` and `PubSub.PubSubTarget.Requests` keep the behaviour as written, because that is what the target does. `PubSub.PubSubTarget.AsWrittenRequests` states the first finding on the published requests. `Batching.Intended` is the corrected partition: its counter is the same, and it opens a new request at every seal.
