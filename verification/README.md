# Inbox multiplexing and NUID generation — a Dafny model

This project models three pieces of sequential logic from the NATS .NET client core.

- **NUID generator** (`NuidWriter`). Each execution context owns a writer state: a 12-symbol prefix, an increment in [33, 333] and a counter. Each call adds the increment to the counter. While the counter stays below 62^10, the call renders the prefix followed by the counter's 10 base-62 digits, least significant first. Otherwise it refreshes prefix, increment and counter from the random sources and renders the fresh counter.
- **Inbox registry** (`InboxSubBuilder` and the `InboxSub` adapter). It maps each inbox subject to a bucket of subscriptions and supports register, deliver and remove. The model follows the `NET6_0_OR_GREATER` branch. Each bucket is an object with an identity, so "remove only this bucket instance" can be stated. The registry's meaning is the abstract map `View` from subject to subscription set. Every operation is proved against a reference definition on that map (`AbstractRegister`, `AbstractRemove`, `Members`).
- **netstandard2.0 helpers**: `TaskExtensions.IsNotCompletedSuccessfully`, `SpanExtensions.Contains` and `ReadOnlySequenceExtensions.GetOffset`.

Files:

- `wrappers.dfy`: `Option` and `Result`.
- `numerics.dfy`: bytes, 32-bit signed values, the `(uint)` cast and the wrap-around of 64-bit unsigned addition.
- `base62.dfy`: the digit table and the fixed-width base-62 codec.
- `nuid_writer.dfy`: the generator.
- `inbox_registry.dfy`: the registry and its adapter.
- `netstandard.dfy`: the three helpers.

Random values are parameters. A `Draw` carries the 12 prefix bytes, the increment and the starting counter, each in the range the source asks its random source for. Logging becomes a returned `warned` flag. Deliver returns the set of subscriptions it invoked, together with the frame they received.

## Model

| member | source | states |
|---|---|---|
| `Base62.DigitsTable` | NATS.Client.Core/Internal/NuidWriter.cs:33-37 | The digit table has 62 entries, all in `[0-9A-Za-z]`, and entry `i` has digit value `i` |
| `Base62.DigitOfValue` | NATS.Client.Core/Internal/NuidWriter.cs:34 | Every alphabet symbol sits in the table at the index of its value, so the table covers the alphabet exactly |
| `Base62.DigitAtPow` | NATS.Client.Core/Internal/NuidWriter.cs:76-81 | Digit `k`, obtained by taking `% 62` after dropping `k` digits with `/ 62`, is the table entry for `(n / 62^k) % 62` |
| `Base62.EncodeUnfold` | NATS.Client.Core/Internal/NuidWriter.cs:76-81 | A rendering is the low digit `n % 62` followed by the rendering of `n / 62` at one digit less |
| `Base62.DecodeEncode` | NATS.Client.Core/Internal/NuidWriter.cs:76-81 | Decoding a `width`-digit rendering gives `n mod 62^width`: only the low digits survive |
| `Base62.EncodeDecode` | NATS.Client.Core/Internal/NuidWriter.cs:76-81 | Rendering the decoded value of any alphabet string, at its own width, gives the string back |
| `Base62.EncodeInjective` | NATS.Client.Core/Internal/NuidWriter.cs:15-17 | Distinct counters below `62^width` render differently |
| `Base62.DivModNested` | NATS.Client.Core/Internal/NuidWriter.cs:78-80 | Dividing by 62 after dividing by `62^k` equals dividing by `62^(k+1)`, as the loop's repeated `sequential /= Base` does; the remainders nest likewise |
| `NuidWriter.MaxSequentialIsPow` | NATS.Client.Core/Internal/NuidWriter.cs:15 | The constant 839299365868340224 equals 62^10 |
| `NuidWriter.GetPrefix` | NATS.Client.Core/Internal/NuidWriter.cs:134-140 | The prefix has one symbol per random byte, all in the alphabet, and symbol `i` has value `byte[i] mod 62` |
| `NuidWriter.Refresh` | NATS.Client.Core/Internal/NuidWriter.cs:175-181 | A refresh from in-range draws yields a valid state: 12 alphabet symbols, symbol `i` having value `byte[i] mod 62` for every `i`, increment in [33, 333], counter in [0, 62^10]; increment and counter are the drawn values |
| `NuidWriter.Render` | NATS.Client.Core/Internal/NuidWriter.cs:71-81 | The identifier has 22 symbols; the first 12 are the prefix and symbol `12+k` is the counter's digit `(seq / 62^k) % 62`; it stays in the alphabet when the prefix does |
| `NuidWriter.RenderRoundTrip` | NATS.Client.Core/Internal/NuidWriter.cs:76-81 | The 10-symbol suffix is in the alphabet and decodes to `seq mod 62^10`, which is `seq` itself below 62^10 |
| `NuidWriter.RenderInjective` | NATS.Client.Core/Internal/NuidWriter.cs:15-17 | Under one prefix, distinct counters below 62^10 give distinct identifiers |
| `NuidWriter.WriteBuffer` | NATS.Client.Core/Internal/NuidWriter.cs:64-84 | A buffer shorter than 22 or a prefix whose length is not 12 gives false and leaves the buffer untouched; otherwise slots 0..21 hold the rendering and later slots are kept |
| `NuidWriter.TryWriteNuidCore` | NATS.Client.Core/Internal/NuidWriter.cs:64-84 | The digit loop: slots 0..11 hold the prefix and slot `12+k` holds digit `(seq / 62^k) % 62`; the failure path and the slots after 21 are unchanged |
| `NuidWriter.WriteNext` | NATS.Client.Core/Internal/NuidWriter.cs:152-169 | The instance `TryWriteNuidCore(Span<char>)`: the call advances the counter by the increment. Below 62^10 it keeps prefix and increment; otherwise it takes prefix, increment and counter from the draw and renders that counter with nothing added. The state stays valid, even when the buffer is too short |
| `NuidWriter.StepWithoutRefresh` | NATS.Client.Core/Internal/NuidWriter.cs:154-158 | A call whose advanced counter stays below 62^10 renders that counter under the unchanged prefix and changes only the counter |
| `NuidWriter.NewNuid` | NATS.Client.Core/Internal/NuidWriter.cs:49-62 | With its 22-slot buffer the write always succeeds, so the exception is never thrown; the identifier is the rendering of the new state's prefix and counter, and that state is valid |
| `NuidWriter.AnyBufferGivesNewNuid` | NATS.Client.Core/Internal/NuidWriter.cs:51-55 | The uninitialised stack buffer's content does not matter: through any 22-slot buffer the call succeeds and writes exactly the identifier and state `NewNuid` returns |
| `NuidWriter.NewNuidRoundTrip` | NATS.Client.Core/Internal/NuidWriter.cs:49-62 | A generated identifier has 22 alphabet symbols, starts with the state's prefix, and its suffix decodes to the state's counter mod 62^10 |
| `NuidWriter.AdvanceMonotonic` | NATS.Client.Core/Internal/NuidWriter.cs:154 | Adding a positive increment more times gives a strictly larger counter |
| `NuidWriter.GenerateRun` | NATS.Client.Core/Internal/NuidWriter.cs:152-181 | Consecutive calls of one context yield one identifier per call and keep the state valid throughout |
| `NuidWriter.CallCounts` | NATS.Client.Core/Internal/NuidWriter.cs:152-159 | The generator's call maps valid states to valid states. Below 62^10 it renders the advanced counter and changes nothing but the counter |
| `NuidWriter.RunOfWithoutRefresh` | NATS.Client.Core/Internal/NuidWriter.cs:152-159 | For any step function that counts like this, call `i` of a run staying below 62^10 renders the counter advanced `i+1` times under the original prefix; the state ends with only its counter advanced |
| `NuidWriter.RunWithoutRefresh` | NATS.Client.Core/Internal/NuidWriter.cs:152-159 | The same for the generator: in a run that stays below 62^10, call `i` renders the counter advanced `i+1` times under the original prefix, and the state ends with only its counter advanced |
| `NuidWriter.NoRepeatWithoutRefresh` | NATS.Client.Core/Internal/NuidWriter.cs:152-159 | No identifier repeats within a run that does not refresh |
| `NuidWriter.RunCountersDistinct` | NATS.Client.Core/Internal/NuidWriter.cs:154-158 | Two different calls of such a run render different identifiers |
| `NuidWriter.AsWrittenRefreshRendersZeroSuffix` | NATS.Client.Core/Internal/NuidWriter.cs:95-98 | As written, a refresh may draw the counter 62^10. It is rendered as ten '0' symbols, the suffix of counter 0, and that suffix does not decode to the state's counter |
| `NuidWriter.IntendedRefreshRoundTrip` | NATS.Client.Core/Internal/NuidWriter.cs:156-167 | Corrected: with starting counters drawn below 62^10, every state's counter stays below 62^10 and each identifier's suffix decodes to exactly that counter |
| `Numerics.AddUInt64` | NATS.Client.Core/Internal/NuidWriter.cs:154 | The `ulong` sum stays below 2^64: it is the plain sum when that fits, and otherwise the sum minus 2^64, which is smaller than the first operand |
| `Numerics.ToUInt32` | NATS.Client.Core/Internal/netstandard.cs:121 | The `(uint)` cast keeps non-negative values and wraps negative ones into [0, 2^32) |
| `InboxRegistry.EmptyRegistry` | NATS.Client.Core/Internal/InboxSub.cs:59 | The registry starts with no subject |
| `InboxRegistry.Install` | NATS.Client.Core/Internal/InboxSub.cs:76 | A new bucket instance holding only the subscription is allocated, its subject points at it, and every other subject and existing instance is unchanged |
| `InboxRegistry.InstallRegisters` | NATS.Client.Core/Internal/InboxSub.cs:74-86 | Installing a fresh bucket on a subject with no member gives the reference registration |
| `InboxRegistry.Register` | NATS.Client.Core/Internal/InboxSub.cs:71-94 | The registry afterwards means the reference registration. A non-empty bucket keeps its instance. A missing or empty bucket is replaced by a fresh instance holding only the subscription, and the old instance is left untouched. Every other subject keeps its bucket instance, and every other instance is unchanged |
| `InboxRegistry.RegisterIdempotent` | NATS.Client.Core/Internal/InboxSub.cs:88-91 | Registering the same subscription twice is the same as registering it once |
| `InboxRegistry.ReceivedAsync` | NATS.Client.Core/Internal/InboxSub.cs:141-156 | Delivery invokes exactly the subscriptions of the subject's bucket and passes the frame unchanged. An unknown subject invokes nobody and warns |
| `InboxRegistry.ReceiveAsync` | NATS.Client.Core/Internal/InboxSub.cs:43-44 | The adapter forwards subject, reply-to, headers and payload unchanged to the registry's delivery |
| `InboxRegistry.TryRemoveInstance` | NATS.Client.Core/Internal/InboxSub.cs:186-188 | The subject's key is dropped only while it still points at the given instance; otherwise nothing changes |
| `InboxRegistry.RemoveFromInstance` | NATS.Client.Core/Internal/InboxSub.cs:178-189 | The looked-up instance, current or stale, loses the subscription and no other instance changes; it warns exactly when the subscription was absent from that instance. The subject's key stays, or is dropped only when the instance was emptied. If the instance is still current, the registry means the reference removal; if it was already replaced, the registry's meaning is unchanged |
| `InboxRegistry.RemoveAsync` | NATS.Client.Core/Internal/InboxSub.cs:170-198 | The registry afterwards means the reference removal: the subscription leaves its bucket and an emptied subject disappears. Only the subject's bucket instance changes, and every other subject keeps its bucket instance. An unknown subject changes nothing. It warns when the subject or the subscription was not registered |
| `InboxRegistry.RegisterThenDeliver` | NATS.Client.Core/Internal/InboxSub.cs:71-94 | After registration, a frame on the subscription's subject reaches it without a warning |
| `InboxRegistry.RemoveThenDeliver` | NATS.Client.Core/Internal/InboxSub.cs:170-189 | After removal, no frame on any subject reaches the removed subscription |
| `InboxRegistry.OtherSubjectsUnaffected` | NATS.Client.Core/Internal/InboxSub.cs:74-94 | Register and remove leave every other subject's members unchanged |
| `InboxRegistry.NoEmptyBucketsPreserved` | NATS.Client.Core/Internal/InboxSub.cs:184-189 | Register and remove, one at a time, never leave a subject pointing at an empty bucket |
| `InboxRegistry.RemoveUndoesRegister` | NATS.Client.Core/Internal/InboxSub.cs:170-189 | Removing a subscription just registered restores the registry's meaning, without a warning |
| `InboxRegistry.StaleRemoveKeepsFreshBucket` | NATS.Client.Core/Internal/InboxSub.cs:81-86 | Suppose a removal still holds a bucket that has been retired, and a registration has since installed a fresh one. Finishing that removal warns and does not delete the fresh bucket; its subscriber still receives frames |
| `InboxRegistry.FanOut` | NATS.Client.Core/Internal/InboxSub.cs:152-156 | Two subscriptions on one subject both receive a frame; after one is removed, only the other does |
| `NetStandard.IsNotCompletedSuccessfully` | NATS.Client.Core/Internal/netstandard.cs:61-64 | False for a null task; otherwise true exactly when the task has not run to completion: pending, canceled or faulted |
| `NetStandard.Contains` | NATS.Client.Core/Internal/netstandard.cs:98-107 | True exactly when some element of the span equals the value |
| `NetStandard.FindSegment` | NATS.Client.Core/Internal/netstandard.cs:146-150 | The walk along `Next` finds a segment exactly when it is in the chain, and stops at its first occurrence |
| `NetStandard.GetOffset` | NATS.Client.Core/Internal/netstandard.cs:113-161 | Single segment: the position's index is returned unchecked. Multi-segment, checked in the source's order: a non-segment position object raises an invalid cast; an index beyond the segment's memory raises out-of-range; a start object that is not a segment raises an invalid cast; a null start, or a segment not in the chain, raises out-of-range. Otherwise the result is the running index plus the index |
| `NetStandard.NullPositionIsStart` | NATS.Client.Core/Internal/netstandard.cs:123-128 | A position with no object is read as the sequence start, whatever its integer |

## Left out

- The per-thread writer slot and its lazy creation (the static `TryWriteNuid(Span<char>)`, `InitAndWrite`, the `[ThreadStatic]` field). This is thread-locality. The model threads one writer state through the calls instead. The instance overload these dispatch to is modelled as `WriteNext`.
- The random sources. `RandomNumberGenerator`, `Random.Shared` and the floating-point scaling in the non-NET6 `GetSequential` become the `Draw` parameter, constrained to the requested ranges.
- The `Unsafe` and `MemoryMarshal` block copies. They are sequence updates here.
- The `ConcurrentDictionary.AddOrUpdate` retry loop, the bucket locks, and reclamation by the weak table. Operations are sequential. The instance rule of removal is stated through `RemoveFromInstance` with a bucket observed earlier, which can be stale.
- The `#else` fallback branch of the registry, which uses weak-reference lists. It is not modelled.
- Isolation of failures between sibling subscriptions is not asserted. Delivery awaits each subscription in turn without catching.
- `sub.ReadyAsync()`, `NatsSubBase`, `NatsConnection`, `InboxSubBuilder.Build`, `ILogger` and the static `Logger`. These are external collaborators or logging. Warnings become the `warned` flag.
- The timer and async helpers of netstandard.cs: `PeriodicTimer`, `WaitAsync` and the `TaskCompletionSource` shim. The library pass-throughs `EncodingExtensions`, `SequenceReaderExtensions` and `KeyValuePairExtensions` are also left out. None of these has sequential logic of its own.
- NATS.Client.TestUtilities/netstandard.cs and NATS.Client.Core.Tests/netstandard.cs. They only hold channel-enumeration and `Task.Run` wrappers.
- NetStandard.GetOffset: the result is an unbounded integer. Overflow of the `long` sum of running index and index is not modelled, and neither is the debug assertion on its sign.
- NetStandard.GetOffset: `chain` stands for the segments reached by following `Next` from the start object; it is not derived from the start object itself. A cyclic `Next` chain, on which the walk at netstandard.cs:147-150 never ends, cannot be represented by a finite `chain`. When both the start object and the position object are null in a multi-segment sequence, the model returns out-of-range, where the source fails on a null dereference.
- InboxRegistry.ReceivedAsync: subscriptions are invoked as a set. Their order, and the awaiting of each call, are not modelled. `invoked` equal to the bucket's members assumes every handler returns normally. In the source, a handler that throws ends the loop, later subscriptions are not called, and the exception propagates to the caller.

The comment on `MaxSequential` (NuidWriter.cs:15) gives it as 62^10, and the render test `sequential < MaxSequential` (NuidWriter.cs:156) treats only counters below it as renderable. `GetSequential` draws the fresh counter from [0, 62^10], with 62^10 included (NuidWriter.cs:98). `ValidDraw` follows the code; see Findings. The corrected range `IntendedDraw` is a subset of it. Every property above that is stated for `ValidDraw` therefore also holds under the correction.

## Findings

| source | as written | input that shows it | evidently intended | confidence | as-written member | corrected member |
|---|---|---|---|---|---|---|
| NATS.Client.Core/Internal/NuidWriter.cs:98 | `NextInt64(0, MaxSequential + 1)` draws the fresh counter from [0, 62^10]. 62^10 does not fit in 10 base-62 digits. | A refresh that draws 62^10 renders the suffix "0000000000", the same as counter 0, and that suffix decodes to 0 rather than to the state's counter | Draw the counter from [0, 62^10), the range the `sequential < MaxSequential` test treats as renderable | medium, not executed | `NuidWriter.AsWrittenRefreshRendersZeroSuffix` | `NuidWriter.IntendedRefreshRoundTrip` |
