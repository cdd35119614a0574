# hashf in Dafny

hashf searches for natural numbers `i` whose SHA-256 digest ends in a given
number `N` of zero hex digits. The digest is taken over the 16 little-endian
bytes of `i` as a `u128`. The program prints the first `F` such numbers in
ascending order, each with its digest.

Two kinds of actor do the work:

- **Coordinator** (`Manager`). It hands out blocks of 100000 consecutive
  indices, one block per readiness signal, for as long as it knows fewer
  than `F` matches. It collects every match it is told about. Once it knows
  enough matches and no block is still being scanned, it stops, sorts the
  matches by index and prints the first `F`.
- **Workers**. Each worker announces itself once. For every block it is
  given, it hashes each index in order, reports each match, and then
  reports the block as done.

The project models the following:

- the zero-tail test `is_zero_terminated`, including its two aborts (module
  `ZeroTail`, `zero_tail.dfy`);
- the messages and the `Display` rendering of a found hash, with a parser
  that reads a rendered line back (module `Messages`, `messages.dfy`);
- the worker's start-up signal (`StartupOutput`, which `Search` delivers
  once per worker) and its scan loop (module `WorkerActor`, `worker.dfy`);
- the coordinator:
  - its builder and its block size;
  - its two message handlers;
  - its report on stopping, written as `sort_by_key` followed by
    `take(records)` and rendered as lines

  (module `ManagerActor`, `manager.dfy`);
- the whole search as a transition system (module `Search`, `search.dfy`).
  - A run is any sequence of deliveries. Messages about one request arrive
    in the order the worker sent them; messages about different requests,
    and the start-up signals, may interleave in any way.
  - Over every such run the coordinator never aborts, and the blocks it
    issues are `0, 1, 2, …` with no gap.
  - When it stops, its report is exactly the first `F` matching indices of
    `[0, K * 100000)` in ascending order, where `K` is the number of blocks
    it issued. These are also the first `F` matches of every longer prefix
    of the naturals.

The model follows these conventions:

- SHA-256 is the parameter `digest` (a total function from bytes to 32-byte
  digests). Nothing about it is assumed.
- A Rust panic becomes the `Err` case of a `Result`.
- Indices are unbounded naturals.

## Model

| member | source | states |
|---|---|---|
| ZeroTail.IsZeroTerminated | src/lib.rs:7-17 | Aborts with a length error exactly when the hash is not 32 bytes; that check comes first. Aborts with a count error exactly when the length is right and the count is outside 1..=64. Otherwise it answers true exactly when the last `count` hex digits of the hash are zero, checked against an independent digit-by-digit definition. |
| ZeroTail.NibbleTailByBytes | src/lib.rs:11-13 | The code's byte-level reading agrees with the digit-level definition: `count / 2` zero bytes, plus a zero low nibble in the byte before them when `count` is odd. Every index it touches lies inside the digest. |
| ZeroTail.TailEqualsZeroed | src/lib.rs:12 | Comparing the last `n` bytes with a prefix of `ZEROED` is the same as those bytes all being zero. |
| ZeroTail.DownwardClosed | src/lib.rs:7-17 | A hash that passes for `n` zero digits also passes for every smaller admissible count. |
| ZeroTail.ZeroedPassesEveryCount | src/lib.rs:41-46 | The all-zero digest passes for every count from 1 to 64. |
| ZeroTail.PanicVectors | src/lib.rs:23-39 | A one-byte hash aborts. Counts 0 and 65 abort. |
| ZeroTail.NoTailZeroVector | src/lib.rs:48-57 | The sample ending in byte 21 passes for no count. |
| ZeroTail.SingleTailZeroVector | src/lib.rs:59-69 | The sample ending in byte 48 passes exactly for count 1. |
| ZeroTail.EvenTailZeroesVector | src/lib.rs:71-82 | The sample ending in bytes 3, 0 passes exactly for counts 1 and 2. |
| ZeroTail.OddTailZeroesVector | src/lib.rs:84-96 | The sample ending in bytes 16, 0 passes exactly for counts 1 to 3. |
| Messages.HexStringChar | src/messages.rs:30-32 | Character `j` of the `{:02x}` rendering is hex digit `j` of the bytes, high nibble first. |
| Messages.HexStringAlphabet | src/messages.rs:30-32 | Every character of the rendering is in `0-9a-f`. |
| Messages.HexRoundTrip | src/messages.rs:30-32 | Parsing the hex rendering gives back the bytes. |
| Messages.HexStringInjective | src/messages.rs:30-32 | Different hashes never render the same. |
| Messages.ZeroTailOnRendering | src/lib.rs:7-17 | A 32-byte digest passes the test for `count` exactly when the last `count` characters of its printed hex form are `'0'`. |
| Messages.DecimalRoundTrip | src/messages.rs:29 | Parsing the decimal rendering of the index gives back the index. |
| Messages.RenderLayout | src/messages.rs:27-37 | A printed line consists of the decimal index, then `: "`, then the 64 hex characters of the hash, then `"`. |
| Messages.RenderRoundTrip | src/messages.rs:27-37 | Parsing a printed line gives back the index and the hash. |
| Messages.RenderInjective | src/messages.rs:27-37 | Different records never print the same line. |
| WorkerActor.LeBytesRoundTrip | src/worker.rs:31 | The `n` little-endian bytes of a number below `256^n` decode back to that number. |
| WorkerActor.IndexBytesRoundTrip | src/worker.rs:31 | Every `u128` index is recovered from its 16-byte encoding, so distinct indices hash distinct inputs. |
| WorkerActor.MatchesInSound | src/worker.rs:30-38 | Every entry of the reference list of matches of `[lo, hi)` is a matching index in the range, paired with its own digest. |
| WorkerActor.MatchesInAscending | src/worker.rs:30 | The reference list is strictly ascending by index. |
| WorkerActor.MatchesInComplete | src/worker.rs:30-38 | Every matching index of the range is in the reference list. |
| WorkerActor.MatchesInSpec | src/worker.rs:30-38 | The three facts above together. |
| WorkerActor.MatchesInSplit | src/worker.rs:30 | The matches of a range split at any midpoint are the matches of the two halves, in order. |
| WorkerActor.ScanStep | src/worker.rs:31-37 | Hashing one more index appends its report if it matches, and nothing otherwise. |
| WorkerActor.ScanOutputShape | src/worker.rs:30-40 | A scan sends one report for exactly each matching index of the range, in strictly ascending order, each with its own digest. It then sends one completion signal carrying the same range. |
| WorkerActor.EmptyRangeOnlyCompletes | src/worker.rs:30-40 | An empty range produces only the completion signal. |
| WorkerActor.StartupOutput | src/worker.rs:11-14 | A started worker sends exactly one message, a readiness signal naming no finished range; `Search.DeliverStartup` delivers it once per worker. |
| WorkerActor.HandleSearch | src/worker.rs:17-46 | The scan loop sends exactly the reference scan output: the reports of the reference list of matches, then the completion signal. |
| ManagerActor.BlockRangeSpec | src/manager.rs:92-103 | Block `k` is `[k * 100000, (k + 1) * 100000)`. Dividing its start by the block size gives `k` back, which is the lookup the completion handler uses. |
| ManagerActor.BlocksTile | src/manager.rs:99-103 | Each block is non-empty and ends where the next one starts. |
| ManagerActor.Build | src/manager.rs:12-21 | Building succeeds exactly when all three fields are set, and the unset worker count is reported first. The result carries the configuration, no blocks and no matches. |
| ManagerActor.BuildFromChain | src/manager.rs:23-39 | Setting all three fields through the chain always builds. Leaving out the worker count aborts. |
| ManagerActor.HandleReady | src/manager.rs:88-112 | Aborts exactly when a completed range names no issued block. The completed block, and no other, becomes `Finished`. A new block `\|blocks\|` is issued exactly when fewer than `records` matches are known. The handler stops exactly when enough are known and every block is finished. The configuration and the matches are unchanged. |
| ManagerActor.HandleFound | src/manager.rs:118-122 | The report is appended to the matches; the blocks and the configuration are unchanged. |
| ManagerActor.HandlersOnlyAdvance | src/manager.rs:88-122 | Neither handler shrinks the block list or un-finishes a block, and new blocks start as `Started`. |
| ManagerActor.ZeroRecordsStopsAtOnce | src/manager.rs:96-110 | With `records = 0`, the first readiness signal stops the coordinator without issuing any block. |
| ManagerActor.Insert | src/manager.rs:77 | Inserting into a sorted list keeps it sorted and adds one entry. |
| ManagerActor.InsertPermutes | src/manager.rs:77 | Inserting adds exactly the inserted entry to the multiset of entries. |
| ManagerActor.SortByDigit | src/manager.rs:77 | The result is sorted by index and is a permutation of the input. |
| ManagerActor.TakeSortedShape | src/manager.rs:79 | Taking `n` entries gives `min(n, length)` entries that are sorted and drawn from the list. |
| ManagerActor.TakeSortedSmallest | src/manager.rs:77-79 | No entry left out is smaller than an entry kept. |
| ManagerActor.Report | src/manager.rs:76-82 | The report has `min(records, found)` entries and is sorted. Its entries are drawn from the matches. No match left out has a smaller index than a reported one. |
| ManagerActor.RenderLinesReadBack | src/manager.rs:78-81 | After the header, each printed line parses back to its record. |
| ManagerActor.StoppedOutputReadsBack | src/manager.rs:76-82 | The printed text is `Results:` followed by one line per reported record, in order, and each line reads back as that record. |
| Search.RespondDone | src/manager.rs:90-94 | The completion of block `j` marks block `j` finished, then decides. |
| Search.DeliverFound | src/manager.rs:118-122 | While block `k` has matches left, delivering its next message records its next match. |
| Search.DeliverDone | src/manager.rs:88-112 | Once block `k` has delivered all of its matches, delivering its next message retires the request, finishes the block and decides. |
| Search.IssueAccounted | src/manager.rs:96-103 | Issuing the next block adds all of its matches to the matches still to come. |
| Search.FoundAccounted | src/manager.rs:118-122 | Delivering a match moves it from the matches still to come to the matches received. |
| Search.DoneAccounted | src/manager.rs:90-94 | Retiring a completed request leaves the accounting unchanged. |
| Search.DecidePreserves | src/manager.rs:96-110 | The coordinator's decision keeps the run invariant and the configuration. In particular, it stops only with enough matches and nothing in flight. |
| Search.StartupPreserves | src/worker.rs:11-14 | Delivering a start-up signal never aborts and keeps the invariant. |
| Search.DeliverPreserves | src/manager.rs:85-122 | Delivering any request's next message never aborts and keeps the invariant. |
| Search.StepPreserves | src/manager.rs:85-122 | Every delivery never aborts, keeps the invariant and keeps the configuration. |
| Search.RunPreserves | src/manager.rs:85-122 | The same holds over any sequence of deliveries. |
| Search.InitInv | src/manager.rs:12-21 | A freshly built coordinator satisfies the invariant. |
| Search.StoppedFacts | src/manager.rs:104-110 | A stopped coordinator has nothing in flight and every block finished. Its matches are, as a multiset, exactly the matches of `[0, K * 100000)`. |
| Search.SortedPermutationUnique | src/manager.rs:77 | A list sorted by index that is a permutation of a strictly ascending list is that list. |
| Search.ReportOfPermutation | src/manager.rs:76-82 | When the matches are a permutation of a strictly ascending list, the report is that list's first `records` entries. |
| Search.FirstMatchesStable | src/manager.rs:79 | Once a prefix holds at least `n` matches, the first `n` matches of any longer prefix are the same. |
| Search.StoppedReportIsFirstMatches | src/manager.rs:76-122 | Every run from a built coordinator never aborts and issues blocks `0..K` with no gap. If the coordinator stops, nothing is in flight, every block is finished, and the report is exactly the first `records` matching indices of `[0, K * 100000)`, ascending. Those are also the first `records` matches of every longer prefix. |

## Left out

- `main.rs` is not part of this model. It parses the arguments, builds and starts the coordinator, and polls it every 10 ms until it stops; that is runtime I/O. The default worker count of one per CPU is a parameter here.
- Argument parsing (`arg.rs`) is not part of this model. It restricts the zero count to 1..=64, so the model's zero count is the type `ZeroCount` (1..=64). `Build` therefore cannot express a zero count of 0 or above 64.
- SHA-256 is the parameter `digest` and is not modelled. No property of the hash is used.
- Integer widths are left out: indices and block numbers are unbounded naturals. `IndexBytes` keeps only the low 16 bytes, and its round trip is proved only below 2^128. `blocks_calc.len() * BLOCK_SIZE` (src/manager.rs:99) is a `usize` product cast to `u128` only afterwards: it overflows once about `usize::MAX` indices have been issued (2^64 on 64-bit targets, 2^32, about 42 950 blocks, on 32-bit ones), where a debug build panics and a release build wraps, so the issued range is no longer block `k`'s and the completion lookup at src/manager.rs:92 marks another block. That overflow is not modelled. The `as usize` cast at src/manager.rs:92 never truncates, because every range start it sees came from that product.
- Actor mailboxes, threads and the `SyncArbiter` pool are modelled only as the choice of which pending message is delivered next. Messages about one request keep their send order, and which worker scans which request is not modelled, since all workers share one configuration.
- Logging (`trace!`, `info!`) and the `Debug` impl of `HashFound` (messages.rs:17-25) are left out; they have no effect on the state.
- The `workers.as_ref().unwrap()` at manager.rs:101 is not modelled. The address is set in `started` before any message can arrive.
- The `hash.try_into().unwrap()` at worker.rs:35 always succeeds, because `Digest` is 32 bytes by type.
- `ctx.stop()` is modelled by a `stopped` flag. Deliveries after it are ignored, matching a stopped actor that handles no further messages.
- SortByDigit: stability of `sort_by_key` is not stated. It does not matter for the report, whose indices are distinct.
- WorkerActor.HandleSearch: its contract is equality with the reference output `ScanOutput`. The properties of that output are stated in `ScanOutputShape`.
- That a run eventually stops (liveness) is not stated; the end-to-end lemma is about every run that does stop.
