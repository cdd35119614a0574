/**
 * The coordinator (src/manager.rs). It hands out fixed-size blocks of the
 * index space one per readiness signal while too few matches are known,
 * records every match it is told about, and stops once enough matches are
 * known and no block is still being scanned. On stopping it prints the
 * matches sorted by index, cut to the requested number.
 */
module ManagerActor {
  import opened Wrappers
  import opened ZeroTail
  import opened Messages

  /** The state of one issued block. */
  datatype BlockStatus = Started | Finished

  /** The chain builder; every field must be set before `Build`. */
  datatype Builder = Builder(workersCount: Option<nat>, records: Option<nat>, zeroes: Option<ZeroCount>)
  {
    /** Sets the number of worker threads. */
    function WithWorkers(n: nat): Builder
    {
      this.(workersCount := Some(n))
    }

    /** Sets how many matches are wanted. */
    function WithRecords(n: nat): Builder
    {
      this.(records := Some(n))
    }

    /** Sets how many trailing zero hex digits a match needs. */
    function WithZeroes(z: ZeroCount): Builder
    {
      this.(zeroes := Some(z))
    }
  }

  /** The builder as `Default` creates it, with nothing set. */
  const DefaultBuilder: Builder := Builder(None, None, None)

  /**
   * The coordinator's state: its configuration, one status per issued block
   * in issue order, and the matches reported so far in arrival order.
   */
  datatype Manager = Manager(
    workersCount: nat,
    records: nat,
    zeroes: ZeroCount,
    blocks: seq<BlockStatus>,
    found: seq<HashFound>)

  /** The ways the coordinator aborts: an unset builder field, or a finished range that names no issued block. */
  datatype ManagerPanic = UnsetWorkersCount | UnsetRecords | UnsetZeroes | BlockIndexOutOfBounds

  /** What a readiness signal makes the coordinator do. */
  datatype Action = Dispatch(request: SearchInsideRange) | Stop | Wait

  /** The length of every block. */
  const BlockSize: nat := 100000

  /** Block `k`: the range the coordinator issues as its `k`-th block. */
  function BlockRange(k: nat): Range
  {
    var start := k * BlockSize;
    Range(start, BlockSize + start)
  }

  /** Block `k` covers `[k * 100000, (k + 1) * 100000)`, and looking up its start finds `k` again. */
  lemma BlockRangeSpec(k: nat)
    ensures BlockRange(k).start == k * BlockSize
    ensures BlockRange(k).end == (k + 1) * BlockSize
    ensures BlockRange(k).start / BlockSize == k
  {
  }

  /** Consecutive blocks meet without gap or overlap, so blocks `0..K` tile `[0, K * 100000)`. */
  lemma BlocksTile(k: nat)
    ensures BlockRange(k).end == BlockRange(k + 1).start
    ensures BlockRange(k).start < BlockRange(k).end
  {
  }

  /** Builds the coordinator; it aborts on the first unset field and starts with no blocks and no matches. */
  function Build(b: Builder): (r: Result<Manager, ManagerPanic>)
    ensures r.Ok? <==> b.workersCount.Some? && b.records.Some? && b.zeroes.Some?
    ensures r == Err(UnsetWorkersCount) <==> b.workersCount.None?
    ensures r.Ok? ==>
      && r.value.workersCount == b.workersCount.value
      && r.value.records == b.records.value
      && r.value.zeroes == b.zeroes.value
      && r.value.blocks == []
      && r.value.found == []
  {
    match (b.workersCount, b.records, b.zeroes)
    case (None, _, _) => Err(UnsetWorkersCount)
    case (_, None, _) => Err(UnsetRecords)
    case (_, _, None) => Err(UnsetZeroes)
    case (Some(w), Some(n), Some(z)) => Ok(Manager(w, n, z, [], []))
  }

  /** Setting all three fields in a chain, as the program's entry point does, always builds. */
  lemma BuildFromChain(w: nat, n: nat, z: ZeroCount)
    ensures Build(DefaultBuilder.WithWorkers(w).WithRecords(n).WithZeroes(z)) == Ok(Manager(w, n, z, [], []))
    ensures Build(DefaultBuilder.WithRecords(n).WithZeroes(z)) == Err(UnsetWorkersCount)
  {
  }

  /** Marks the block whose range starts at `range.start` as finished; it aborts when no such block was issued. */
  function MarkFinished(m: Manager, range: Range): Result<Manager, ManagerPanic>
  {
    var index := range.start / BlockSize;
    if index < |m.blocks| then Ok(m.(blocks := m.blocks[index := Finished]))
    else Err(BlockIndexOutOfBounds)
  }

  /** Issues the next block while matches are short, otherwise stops when nothing is in flight. */
  function Decide(m: Manager): (Manager, Action)
  {
    if |m.found| < m.records then
      var start := |m.blocks| * BlockSize;
      (m.(blocks := m.blocks + [Started]), Dispatch(SearchInsideRange(Range(start, BlockSize + start))))
    else if Started !in m.blocks then
      (m, Stop)
    else
      (m, Wait)
  }

  /**
   * The `WorkerReady` handler: first marks the finished range's block, then
   * either issues block number `|blocks|`, stops, or waits for in-flight work.
   */
  function HandleReady(m: Manager, completed: Option<Range>): (r: Result<(Manager, Action), ManagerPanic>)
    ensures r.Err? <==> completed.Some? && completed.value.start / BlockSize >= |m.blocks|
    ensures r.Ok? ==>
      var (m', a) := r.value;
      && m'.workersCount == m.workersCount && m'.records == m.records && m'.zeroes == m.zeroes
      && m'.found == m.found
      && |m.blocks| <= |m'.blocks|
      && (forall k | 0 <= k < |m.blocks| ::
            m'.blocks[k] == if completed.Some? && k == completed.value.start / BlockSize then Finished else m.blocks[k])
      && (a.Dispatch? <==> |m.found| < m.records)
      && (a.Dispatch? ==>
            |m'.blocks| == |m.blocks| + 1 && m'.blocks[|m.blocks|] == Started
            && a.request.range == BlockRange(|m.blocks|))
      && (!a.Dispatch? ==> |m'.blocks| == |m.blocks|)
      && (a.Stop? <==> m.records <= |m.found| && forall k | 0 <= k < |m'.blocks| :: m'.blocks[k] == Finished)
  {
    match completed
    case None => Ok(Decide(m))
    case Some(range) =>
      match MarkFinished(m, range)
      case Err(e) => Err(e)
      case Ok(marked) => Ok(Decide(marked))
  }

  /** The `HashFound` handler: the report joins the found list unchanged; nothing else moves. */
  function HandleFound(m: Manager, h: HashFound): (m': Manager)
    ensures m'.found == m.found + [h]
    ensures m'.blocks == m.blocks
    ensures m'.workersCount == m.workersCount && m'.records == m.records && m'.zeroes == m.zeroes
  {
    m.(found := m.found + [h])
  }

  /**
   * How a block list may evolve in one step: it never shrinks, an entry
   * only ever stays as it is or becomes `Finished`, and new entries are
   * `Started`. So a finished block is never started again.
   */
  predicate StatusStep(before: seq<BlockStatus>, after: seq<BlockStatus>)
  {
    && |before| <= |after|
    && (forall k | 0 <= k < |before| :: after[k] == before[k] || after[k] == Finished)
    && (forall k | |before| <= k < |after| :: after[k] == Started)
  }

  /** Over any number of steps: the list never shrinks and a finished block stays finished. */
  predicate NoRegress(before: seq<BlockStatus>, after: seq<BlockStatus>)
  {
    && |before| <= |after|
    && (forall k | 0 <= k < |before| :: before[k] == Finished ==> after[k] == Finished)
  }

  /** Both handlers move the block list only as `StatusStep` allows, and so never regress. */
  lemma HandlersOnlyAdvance(m: Manager, completed: Option<Range>, h: HashFound)
    ensures HandleReady(m, completed).Ok? ==>
      && StatusStep(m.blocks, HandleReady(m, completed).value.0.blocks)
      && NoRegress(m.blocks, HandleReady(m, completed).value.0.blocks)
    ensures StatusStep(m.blocks, HandleFound(m, h).blocks)
  {
  }

  /** With no records wanted and no block issued, the first readiness signal stops the coordinator without issuing a block. */
  lemma ZeroRecordsStopsAtOnce(m: Manager)
    requires m.records == 0 && m.blocks == []
    ensures HandleReady(m, None) == Ok((m, Stop))
  {
  }

  /** Sorted ascending by index. */
  predicate SortedByDigit(s: seq<HashFound>)
  {
    forall i, j | 0 <= i < j < |s| :: s[i].digit <= s[j].digit
  }

  /** Inserts `x` into a sorted list before the first entry with an index not below its own. */
  function Insert(x: HashFound, s: seq<HashFound>): (r: seq<HashFound>)
    requires SortedByDigit(s)
    ensures |r| == |s| + 1
    ensures r[0] == x || (|s| > 0 && r[0] == s[0])
    ensures SortedByDigit(r)
  {
    if |s| == 0 then [x]
    else if x.digit <= s[0].digit then [x] + s
    else
      var tail := s[1..];
      assert SortedByDigit(tail);
      var rest := Insert(x, tail);
      assert s[0].digit <= rest[0].digit;
      [s[0]] + rest
  }

  /** Inserting adds exactly the one entry. */
  lemma {:induction false} InsertPermutes(x: HashFound, s: seq<HashFound>)
    requires SortedByDigit(s)
    ensures multiset(Insert(x, s)) == multiset(s) + multiset{x}
  {
    if |s| > 0 && x.digit > s[0].digit {
      var tail := s[1..];
      InsertPermutes(x, tail);
      assert s == [s[0]] + tail;
      assert Insert(x, s) == [s[0]] + Insert(x, tail);
    }
  }

  /** `sort_by_key` on the index: the same entries, sorted ascending by index. */
  function SortByDigit(s: seq<HashFound>): (r: seq<HashFound>)
    ensures SortedByDigit(r)
    ensures multiset(r) == multiset(s)
  {
    if |s| == 0 then []
    else
      assert s == [s[0]] + s[1..];
      InsertPermutes(s[0], SortByDigit(s[1..]));
      Insert(s[0], SortByDigit(s[1..]))
  }

  /** `iter().take(n)`: the first `n` entries, or all of them when there are fewer. */
  function Take<T>(n: nat, s: seq<T>): seq<T>
  {
    if n <= |s| then s[..n] else s
  }

  /** The first `n` entries of a sorted list are sorted and come from it. */
  lemma TakeSortedShape(sorted: seq<HashFound>, n: nat)
    requires SortedByDigit(sorted)
    ensures var r := Take(n, sorted);
      && |r| == (if n <= |sorted| then n else |sorted|)
      && SortedByDigit(r)
      && multiset(r) <= multiset(sorted)
  {
    var k := if n <= |sorted| then n else |sorted|;
    var r := Take(n, sorted);
    assert sorted == r + sorted[k..];
  }

  /** In a sorted list, no entry from position `k` on is smaller than one before `k`. */
  lemma LaterNotSmaller(sorted: seq<HashFound>, k: nat, i: nat, h: HashFound)
    requires SortedByDigit(sorted) && i < k <= |sorted| && h in multiset(sorted[k..])
    ensures sorted[i].digit <= h.digit
  {
    var j :| 0 <= j < |sorted[k..]| && sorted[k..][j] == h;
    assert sorted[k + j] == h;
  }

  /** No entry of a sorted list left out of its first `n` is smaller than one kept. */
  lemma TakeSortedSmallest(sorted: seq<HashFound>, n: nat)
    requires SortedByDigit(sorted)
    ensures var r := Take(n, sorted);
      forall i, h | 0 <= i < |r| && h in multiset(sorted) - multiset(r) :: r[i].digit <= h.digit
  {
    var k := if n <= |sorted| then n else |sorted|;
    var r := Take(n, sorted);
    assert sorted == r + sorted[k..];
    assert multiset(sorted) - multiset(r) == multiset(sorted[k..]);
    forall i, h | 0 <= i < |r| && h in multiset(sorted) - multiset(r)
      ensures r[i].digit <= h.digit
    {
      LaterNotSmaller(sorted, k, i, h);
    }
  }

  /**
   * What the coordinator reports on stopping: the `records` smallest found
   * entries by index (all of them when fewer were found), in ascending order.
   */
  function Report(m: Manager): (r: seq<HashFound>)
    ensures |r| == if m.records <= |m.found| then m.records else |m.found|
    ensures SortedByDigit(r)
    ensures multiset(r) <= multiset(m.found)
    ensures forall i, h | 0 <= i < |r| && h in multiset(m.found) - multiset(r) :: r[i].digit <= h.digit
  {
    var sorted := SortByDigit(m.found);
    TakeSortedShape(sorted, m.records);
    TakeSortedSmallest(sorted, m.records);
    Take(m.records, sorted)
  }

  /** One rendered line per record, in order. */
  function RenderLines(rep: seq<HashFound>): seq<string>
  {
    seq(|rep|, i requires 0 <= i < |rep| => Render(rep[i]))
  }

  /** The text printed on stopping: a `Results:` header, then one rendered line per reported record, in order. */
  function StoppedOutput(m: Manager): seq<string>
  {
    ["Results:"] + RenderLines(Report(m))
  }

  /** Every rendered line reads back as its record, after the header. */
  lemma RenderLinesReadBack(rep: seq<HashFound>)
    ensures var lines := ["Results:"] + RenderLines(rep);
      && |lines| == |rep| + 1
      && lines[0] == "Results:"
      && forall i | 1 <= i < |lines| :: ParseLine(lines[i]) == Some(rep[i - 1])
  {
    var lines := ["Results:"] + RenderLines(rep);
    forall i | 1 <= i < |lines|
      ensures ParseLine(lines[i]) == Some(rep[i - 1])
    {
      assert lines[i] == Render(rep[i - 1]);
      RenderRoundTrip(rep[i - 1]);
    }
  }

  /** The printed text is the header and then one line per reported record that reads back as that record. */
  lemma StoppedOutputReadsBack(m: Manager)
    ensures var lines := StoppedOutput(m);
      && |lines| == |Report(m)| + 1
      && lines[0] == "Results:"
      && forall i | 1 <= i < |lines| :: ParseLine(lines[i]) == Some(Report(m)[i - 1])
  {
    RenderLinesReadBack(Report(m));
  }
}
