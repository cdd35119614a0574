/**
 * A worker of the pool (src/worker.rs): it announces itself once, then for
 * every range it is given it hashes each index in order, reports each match
 * and finally reports the range as done. SHA-256 is the parameter `digest`.
 */
module WorkerActor {
  import opened Wrappers
  import opened ZeroTail
  import opened Messages

  /** The digest provider: SHA-256 of the given bytes, treated as an opaque total function. */
  type DigestFn = seq<Byte> -> Digest

  /** A worker's configuration: how many trailing zero hex digits a match needs. */
  datatype Worker = Worker(zeroes: ZeroCount)

  /** 256 to the power `n`. */
  function Pow256(n: nat): (p: nat)
    ensures p >= 1
  {
    if n == 0 then 1 else 256 * Pow256(n - 1)
  }

  /** One past the largest `u128`. */
  const U128Bound: nat := Pow256(16)

  /** The `n` low-order bytes of `i`, least significant first. */
  function LeBytes(i: nat, n: nat): (bs: seq<Byte>)
    ensures |bs| == n
  {
    if n == 0 then [] else [i % 256] + LeBytes(i / 256, n - 1)
  }

  /** The number whose little-endian bytes are `bs`. */
  function FromLeBytes(bs: seq<Byte>): nat
  {
    if |bs| == 0 then 0 else bs[0] + 256 * FromLeBytes(bs[1..])
  }

  /** Decoding the `n` low bytes of a number below `256^n` gives the number back. */
  lemma {:induction false} LeBytesRoundTrip(i: nat, n: nat)
    requires i < Pow256(n)
    ensures FromLeBytes(LeBytes(i, n)) == i
  {
    if n > 0 {
      LeBytesRoundTrip(i / 256, n - 1);
      assert LeBytes(i, n)[1..] == LeBytes(i / 256, n - 1);
    }
  }

  /** The digest input for index `i`: `u128::to_le_bytes`, 16 bytes least significant first. */
  function IndexBytes(i: nat): seq<Byte>
  {
    LeBytes(i, 16)
  }

  /** Every `u128` index is recovered from its 16-byte encoding, so distinct indices hash distinct inputs. */
  lemma IndexBytesRoundTrip(i: nat)
    requires i < U128Bound
    ensures |IndexBytes(i)| == 16
    ensures FromLeBytes(IndexBytes(i)) == i
  {
    LeBytesRoundTrip(i, 16);
  }

  /** Whether index `i` is a match: its digest ends in `zeroes` zero hex digits. */
  predicate IsMatch(zeroes: ZeroCount, digest: DigestFn, i: nat)
  {
    IsZeroTerminated(digest(IndexBytes(i)), zeroes) == Ok(true)
  }

  /** The report a worker builds for index `i`. */
  function Record(digest: DigestFn, i: nat): HashFound
  {
    HashFound(i, digest(IndexBytes(i)))
  }

  /** The reference list of matches in `[lo, hi)`: every matching index in ascending order, with its digest. */
  function MatchesIn(zeroes: ZeroCount, digest: DigestFn, lo: nat, hi: nat): seq<HashFound>
    decreases hi
  {
    if hi <= lo then []
    else MatchesIn(zeroes, digest, lo, hi - 1) + (if IsMatch(zeroes, digest, hi - 1) then [Record(digest, hi - 1)] else [])
  }

  /** Every entry of `ms` is a matching index of `[lo, hi)` with its own digest. */
  predicate MatchRecords(zeroes: ZeroCount, digest: DigestFn, lo: nat, hi: nat, ms: seq<HashFound>)
  {
    forall k | 0 <= k < |ms| ::
      lo <= ms[k].digit < hi && IsMatch(zeroes, digest, ms[k].digit) && ms[k] == Record(digest, ms[k].digit)
  }

  /** Ascending strictly by index. */
  predicate StrictlyAscending(ms: seq<HashFound>)
  {
    forall k, l | 0 <= k < l < |ms| :: ms[k].digit < ms[l].digit
  }

  /** Every entry of the reference list is a matching index of `[lo, hi)` with its own digest. */
  lemma {:induction false} MatchesInSound(zeroes: ZeroCount, digest: DigestFn, lo: nat, hi: nat)
    ensures MatchRecords(zeroes, digest, lo, hi, MatchesIn(zeroes, digest, lo, hi))
    decreases hi
  {
    if hi > lo {
      MatchesInSound(zeroes, digest, lo, hi - 1);
      var prev := MatchesIn(zeroes, digest, lo, hi - 1);
      var ms := MatchesIn(zeroes, digest, lo, hi);
      var last := if IsMatch(zeroes, digest, hi - 1) then [Record(digest, hi - 1)] else [];
      assert ms == prev + last;
      forall k | 0 <= k < |ms|
        ensures lo <= ms[k].digit < hi && IsMatch(zeroes, digest, ms[k].digit) && ms[k] == Record(digest, ms[k].digit)
      {
        if k < |prev| {
          assert ms[k] == prev[k];
        } else {
          assert ms[k] == last[0] == Record(digest, hi - 1);
        }
      }
    }
  }

  /** The reference list is strictly ascending by index. */
  lemma {:induction false} MatchesInAscending(zeroes: ZeroCount, digest: DigestFn, lo: nat, hi: nat)
    ensures StrictlyAscending(MatchesIn(zeroes, digest, lo, hi))
    decreases hi
  {
    if hi > lo {
      MatchesInAscending(zeroes, digest, lo, hi - 1);
      MatchesInSound(zeroes, digest, lo, hi - 1);
      var prev := MatchesIn(zeroes, digest, lo, hi - 1);
      var ms := MatchesIn(zeroes, digest, lo, hi);
      var last := if IsMatch(zeroes, digest, hi - 1) then [Record(digest, hi - 1)] else [];
      assert ms == prev + last;
      forall k, l | 0 <= k < l < |ms|
        ensures ms[k].digit < ms[l].digit
      {
        assert ms[k] == prev[k];
        if l < |prev| {
          assert ms[l] == prev[l];
        } else {
          assert ms[l] == last[0] && ms[l].digit == hi - 1;
        }
      }
    }
  }

  /** Every matching index of `[lo, hi)` is in the reference list. */
  lemma {:induction false} MatchesInComplete(zeroes: ZeroCount, digest: DigestFn, lo: nat, hi: nat)
    ensures forall i | lo <= i < hi && IsMatch(zeroes, digest, i) :: Record(digest, i) in MatchesIn(zeroes, digest, lo, hi)
    decreases hi
  {
    if hi > lo {
      MatchesInComplete(zeroes, digest, lo, hi - 1);
      var prev := MatchesIn(zeroes, digest, lo, hi - 1);
      var ms := MatchesIn(zeroes, digest, lo, hi);
      forall i | lo <= i < hi && IsMatch(zeroes, digest, i)
        ensures Record(digest, i) in ms
      {
        if i < hi - 1 {
          assert Record(digest, i) in prev;
        } else {
          assert ms[|ms| - 1] == Record(digest, i);
        }
      }
    }
  }

  /**
   * The reference list holds exactly the matching indices of `[lo, hi)`,
   * each with its own digest, in strictly ascending order.
   */
  lemma MatchesInSpec(zeroes: ZeroCount, digest: DigestFn, lo: nat, hi: nat)
    ensures var ms := MatchesIn(zeroes, digest, lo, hi);
      && MatchRecords(zeroes, digest, lo, hi, ms)
      && StrictlyAscending(ms)
      && (forall i | lo <= i < hi && IsMatch(zeroes, digest, i) :: Record(digest, i) in ms)
  {
    MatchesInSound(zeroes, digest, lo, hi);
    MatchesInAscending(zeroes, digest, lo, hi);
    MatchesInComplete(zeroes, digest, lo, hi);
  }

  /** The matches of a range split at any midpoint are those of the two halves, in order. */
  lemma {:induction false} MatchesInSplit(zeroes: ZeroCount, digest: DigestFn, lo: nat, mid: nat, hi: nat)
    requires lo <= mid <= hi
    ensures MatchesIn(zeroes, digest, lo, hi) == MatchesIn(zeroes, digest, lo, mid) + MatchesIn(zeroes, digest, mid, hi)
    decreases hi
  {
    if hi > mid {
      MatchesInSplit(zeroes, digest, lo, mid, hi - 1);
    }
  }

  /** The match reports for a list of records, in the same order. */
  function Reports(fs: seq<HashFound>): (msgs: seq<ManagerMsg>)
    ensures |msgs| == |fs|
  {
    seq(|fs|, k requires 0 <= k < |fs| => Found(fs[k]))
  }

  /**
   * What a worker sends once it is started: a single readiness signal that
   * names no finished range, so the coordinator has nothing to mark.
   */
  function StartupOutput(): (out: seq<ManagerMsg>)
    ensures |out| == 1
    ensures forall k | 0 <= k < |out| :: out[k].WorkerReady? && out[k].completed.None?
  {
    [WorkerReady(None)]
  }

  /** Everything a worker sends for one range: its match reports in index order, then the completion signal. */
  function ScanOutput(w: Worker, digest: DigestFn, range: Range): seq<ManagerMsg>
  {
    Reports(MatchesIn(w.zeroes, digest, range.start, range.end)) + [WorkerReady(Some(range))]
  }

  /** Reporting two lists one after the other is reporting their concatenation. */
  lemma ReportsAppend(fs: seq<HashFound>, gs: seq<HashFound>)
    ensures Reports(fs + gs) == Reports(fs) + Reports(gs)
  {
  }

  /** Scanning one more index appends that index's report when it matches, and nothing otherwise. */
  lemma ScanStep(zeroes: ZeroCount, digest: DigestFn, lo: nat, i: nat)
    requires lo <= i
    ensures Reports(MatchesIn(zeroes, digest, lo, i + 1)) ==
      Reports(MatchesIn(zeroes, digest, lo, i)) + (if IsMatch(zeroes, digest, i) then [Found(Record(digest, i))] else [])
  {
    var before := MatchesIn(zeroes, digest, lo, i);
    if IsMatch(zeroes, digest, i) {
      ReportsAppend(before, [Record(digest, i)]);
    } else {
      assert before + [] == before;
    }
  }

  /**
   * What the scan of a range sends: match reports for exactly the matching
   * indices of the range, in strictly ascending order and each with its own
   * digest, and then one completion signal carrying the same range.
   */
  lemma ScanOutputShape(w: Worker, digest: DigestFn, range: Range)
    ensures var out := ScanOutput(w, digest, range);
      && |out| >= 1 && out[|out| - 1] == WorkerReady(Some(range))
      && (forall k | 0 <= k < |out| - 1 ::
            && out[k].Found?
            && range.start <= out[k].found.digit < range.end
            && IsMatch(w.zeroes, digest, out[k].found.digit)
            && out[k].found.hash == digest(IndexBytes(out[k].found.digit)))
      && (forall k, l | 0 <= k < l < |out| - 1 :: out[k].found.digit < out[l].found.digit)
      && (forall i | range.start <= i < range.end && IsMatch(w.zeroes, digest, i) ::
            Found(Record(digest, i)) in out[..|out| - 1])
  {
    var out := ScanOutput(w, digest, range);
    var matches := MatchesIn(w.zeroes, digest, range.start, range.end);
    MatchesInSpec(w.zeroes, digest, range.start, range.end);
    assert out[..|out| - 1] == Reports(matches);
    forall i | range.start <= i < range.end && IsMatch(w.zeroes, digest, i)
      ensures Found(Record(digest, i)) in out[..|out| - 1]
    {
      var k :| 0 <= k < |matches| && matches[k] == Record(digest, i);
      assert out[..|out| - 1][k] == Found(Record(digest, i));
    }
  }

  /** An empty range produces only the completion signal. */
  lemma EmptyRangeOnlyCompletes(w: Worker, digest: DigestFn, range: Range)
    requires range.end <= range.start
    ensures ScanOutput(w, digest, range) == [WorkerReady(Some(range))]
  {
  }

  /**
   * The scan handler: hashes every index of the range in ascending order,
   * sends a report for each match as soon as it is found, and ends with
   * the completion signal carrying the same range.
   */
  method HandleSearch(w: Worker, digest: DigestFn, msg: SearchInsideRange) returns (out: seq<ManagerMsg>)
    ensures out == ScanOutput(w, digest, msg.range)
  {
    var range := msg.range;
    out := [];
    var i := range.start;
    while i < range.end
      invariant range.start <= i
      invariant i <= range.end || i == range.start
      invariant out == Reports(MatchesIn(w.zeroes, digest, range.start, i))
    {
      var hash := digest(IndexBytes(i));
      var passes := IsZeroTerminated(hash, w.zeroes);
      ScanStep(w.zeroes, digest, range.start, i);
      if passes.value {
        out := out + [Found(HashFound(i, hash))];
      }
      i := i + 1;
    }
    out := out + [WorkerReady(Some(range))];
  }
}
