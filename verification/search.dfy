/**
 * The whole search as a transition system: the coordinator together with
 * the message streams of the workers (src/manager.rs with src/worker.rs).
 *
 * The actor runtime hands the coordinator one message at a time. Each
 * worker first sends one start-up signal; each issued request is scanned by
 * some worker, whose messages for it arrive in the order it sent them, while
 * messages about different requests may interleave arbitrarily. A run is a
 * sequence of choices of which pending message is delivered next; every
 * interleaving the runtime can produce is one such run.
 */
module Search {
  import opened Wrappers
  import opened ZeroTail
  import opened Messages
  import opened WorkerActor
  import opened ManagerActor

  /**
   * A point in a run: the coordinator's state, how many workers have not yet
   * delivered their start-up signal, the ranges issued so far in issue order,
   * for every request still in flight (by its issue number) how many of its
   * scan messages have been delivered, and whether the coordinator has stopped.
   */
  datatype Sys = Sys(m: Manager, unstarted: nat, inFlight: map<nat, nat>, issued: seq<Range>, stopped: bool)

  /** Which pending message is delivered next: a start-up signal, or the next message about the `k`-th request. */
  datatype Choice = Startup | Deliver(k: nat)

  /** The start of a run: the freshly built coordinator has spawned its workers and nothing is delivered yet. */
  function Init(m: Manager): Sys
  {
    Sys(m, m.workersCount, map[], [], false)
  }

  /** What the worker scanning `range` sends; workers carry the coordinator's zero count. */
  function Scan(m: Manager, digest: DigestFn, range: Range): seq<ManagerMsg>
  {
    ScanOutput(Worker(m.zeroes), digest, range)
  }

  /** Carries out the coordinator's decision: a dispatched range starts a new stream, `Stop` ends the run. */
  function Apply(s: Sys, m': Manager, a: Action): Sys
  {
    match a
    case Dispatch(request) =>
      s.(m := m', inFlight := s.inFlight[|s.issued| := 0], issued := s.issued + [request.range])
    case Stop => s.(m := m', stopped := true)
    case Wait => s.(m := m')
  }

  /** The coordinator handles a `WorkerReady` message; its only failure is its own abort. */
  function Respond(s: Sys, completed: Option<Range>): Result<Sys, ManagerPanic>
  {
    match HandleReady(s.m, completed)
    case Err(e) => Err(e)
    case Ok((m', a)) => Ok(Apply(s, m', a))
  }

  /** Delivers the start-up signal of one worker not yet heard from, if any is left. */
  function DeliverStartup(s: Sys): Result<Sys, ManagerPanic>
  {
    if s.unstarted == 0 then Ok(s)
    else Respond(s.(unstarted := s.unstarted - 1), StartupOutput()[0].completed)
  }

  /** Delivers the next message about the `k`-th request, if it is in flight and has one left. */
  function DeliverNext(digest: DigestFn, s: Sys, k: nat): Result<Sys, ManagerPanic>
  {
    if k !in s.inFlight || k >= |s.issued| then Ok(s)
    else
      var out := Scan(s.m, digest, s.issued[k]);
      var pos := s.inFlight[k];
      if pos >= |out| then Ok(s)
      else
        var rest := if pos + 1 == |out| then s.inFlight - {k} else s.inFlight[k := pos + 1];
        match out[pos]
        case Found(h) => Ok(s.(m := HandleFound(s.m, h), inFlight := rest))
        case WorkerReady(completed) => Respond(s.(inFlight := rest), completed)
  }

  /** Delivers one message; a stopped coordinator ignores everything. */
  function Step(digest: DigestFn, s: Sys, c: Choice): Result<Sys, ManagerPanic>
  {
    if s.stopped then Ok(s)
    else
      match c
      case Startup => DeliverStartup(s)
      case Deliver(k) => DeliverNext(digest, s, k)
  }

  /** Delivers the chosen messages one after another, stopping at an abort. */
  function Run(digest: DigestFn, s: Sys, cs: seq<Choice>): Result<Sys, ManagerPanic>
    decreases |cs|
  {
    if |cs| == 0 then Ok(s)
    else
      match Step(digest, s, cs[0])
      case Err(e) => Err(e)
      case Ok(s') => Run(digest, s', cs[1..])
  }

  /** The matches of block `k` at zero count `zeroes`. */
  function BlockMatches(zeroes: ZeroCount, digest: DigestFn, k: nat): seq<HashFound>
  {
    var r := BlockRange(k);
    MatchesIn(zeroes, digest, r.start, r.end)
  }

  /** The matches of every block, as one table indexed by block number. */
  function Table(zeroes: ZeroCount, digest: DigestFn): nat -> seq<HashFound>
  {
    (k: nat) => BlockMatches(zeroes, digest, k)
  }

  /** The entries of row `k` of `table` still to be reported, when request `k` is in flight. */
  function PendingOf<T>(table: nat -> seq<T>, inFlight: map<nat, nat>, k: nat): multiset<T>
  {
    if k in inFlight && inFlight[k] <= |table(k)| then multiset(table(k)[inFlight[k]..])
    else multiset{}
  }

  /** The entries of rows `0..n` still to be reported. */
  function Pending<T>(table: nat -> seq<T>, inFlight: map<nat, nat>, n: nat): multiset<T>
  {
    if n == 0 then multiset{}
    else Pending(table, inFlight, n - 1) + PendingOf(table, inFlight, n - 1)
  }

  /** The issued ranges are blocks `0, 1, …, K-1` in that order, `K` the number of blocks. */
  predicate IssuedInOrder(s: Sys)
  {
    && |s.issued| == |s.m.blocks|
    && (forall k | 0 <= k < |s.issued| :: s.issued[k] == BlockRange(k))
  }

  /** The requests in flight are exactly the `Started` blocks, and none has delivered more than its matches. */
  ghost predicate FlightIsStarted(digest: DigestFn, s: Sys)
  {
    && (forall k | k in s.inFlight ::
          k < |s.m.blocks| && s.m.blocks[k] == Started && s.inFlight[k] <= |BlockMatches(s.m.zeroes, digest, k)|)
    && (forall k | 0 <= k < |s.m.blocks| && s.m.blocks[k] == Started :: k in s.inFlight)
  }

  /** The matches received plus those still to come are exactly the matches in `[0, K * 100000)`. */
  ghost predicate Accounted(digest: DigestFn, s: Sys)
  {
    var n := |s.m.blocks|;
    multiset(s.m.found) + Pending(Table(s.m.zeroes, digest), s.inFlight, n) == multiset(MatchesIn(s.m.zeroes, digest, 0, n * BlockSize))
  }

  /** What holds at every point of a run. */
  ghost predicate InvCore(digest: DigestFn, s: Sys)
  {
    IssuedInOrder(s) && FlightIsStarted(digest, s) && Accounted(digest, s)
  }

  /** The run invariant: the core facts, and a stopped coordinator has enough matches and nothing in flight. */
  ghost predicate Inv(digest: DigestFn, s: Sys)
  {
    && InvCore(digest, s)
    && (s.stopped ==> s.m.records <= |s.m.found| && Started !in s.m.blocks)
  }

  /** The configuration is the same in both states. */
  predicate SameConfig(a: Manager, b: Manager)
  {
    a.workersCount == b.workersCount && a.records == b.records && a.zeroes == b.zeroes
  }

  /** Two in-flight maps with the same pending rows below `n` have the same pending sum below `n`. */
  lemma {:induction false} PendingSame<T>(table: nat -> seq<T>, f: map<nat, nat>, g: map<nat, nat>, n: nat)
    requires forall q: nat | q < n :: PendingOf(table, f, q) == PendingOf(table, g, q)
    ensures Pending(table, g, n) == Pending(table, f, n)
  {
    if n > 0 {
      PendingSame(table, f, g, n - 1);
    }
  }

  /** Two in-flight maps that agree except on request `j` have the same pending rows below `j`. */
  lemma PendingBelow<T>(table: nat -> seq<T>, f: map<nat, nat>, g: map<nat, nat>, n: nat, j: nat)
    requires f - {j} == g - {j} && n <= j
    ensures forall q: nat | q < n :: PendingOf(table, f, q) == PendingOf(table, g, q)
  {
    forall q: nat | q < n
      ensures PendingOf(table, f, q) == PendingOf(table, g, q)
    {
      PendingOfAgree(table, f, g, j, q);
    }
  }

  /**
   * Two in-flight maps that agree except on request `j` have pending sums
   * that differ by exactly that request's terms.
   */
  lemma {:induction false} PendingChange<T>(table: nat -> seq<T>, f: map<nat, nat>, g: map<nat, nat>, n: nat, j: nat)
    requires f - {j} == g - {j} && j < n
    ensures Pending(table, g, n) + PendingOf(table, f, j) == Pending(table, f, n) + PendingOf(table, g, j)
  {
    var q := n - 1;
    var a, b := Pending(table, f, q), Pending(table, g, q);
    var x, y := PendingOf(table, f, j), PendingOf(table, g, j);
    if j == q {
      PendingBelow(table, f, g, q, j);
      PendingSame(table, f, g, q);
      Rearrange(a, x, y);
    } else {
      PendingChange(table, f, g, q, j);
      PendingOfAgree(table, f, g, j, q);
      AddBoth(b, a, x, y, PendingOf(table, f, q));
    }
  }

  /** Two in-flight maps that agree except on request `j` agree on what every other request has pending. */
  lemma PendingOfAgree<T>(table: nat -> seq<T>, f: map<nat, nat>, g: map<nat, nat>, j: nat, q: nat)
    requires f - {j} == g - {j} && q != j
    ensures PendingOf(table, f, q) == PendingOf(table, g, q)
  {
    assert q in f <==> q in f - {j};
    assert q in g <==> q in g - {j};
    assert q in f ==> f[q] == (f - {j})[q];
    assert q in g ==> g[q] == (g - {j})[q];
  }

  /** Adding the same part to both sides keeps an equation. */
  lemma AddBoth<T>(b: multiset<T>, a: multiset<T>, x: multiset<T>, y: multiset<T>, p: multiset<T>)
    requires b + x == a + y
    ensures (b + p) + x == (a + p) + y
  {
    forall o
      ensures ((b + p) + x)[o] == ((a + p) + y)[o]
    {
      assert (b + x)[o] == (a + y)[o];
    }
  }

  /** Multiset union is associative and commutative. */
  lemma Rearrange<T>(a: multiset<T>, x: multiset<T>, y: multiset<T>)
    ensures (a + y) + x == (a + x) + y
  {
  }

  /** Adding the same part to the pending side and to the total keeps the accounting. */
  lemma GainBoth<T>(found: multiset<T>, p: multiset<T>, p': multiset<T>, x: multiset<T>, all: multiset<T>, all': multiset<T>)
    requires found + p == all && p' == p + x && all' == all + x
    ensures found + p' == all'
  {
  }

  /** Moving a part from the pending side to the received side keeps the accounting. */
  lemma MoveOver<T>(found: multiset<T>, pf: multiset<T>, pg: multiset<T>, t: multiset<T>, u: multiset<T>, h: multiset<T>, all: multiset<T>)
    requires found + pf == all && pg + t == pf + u && t == h + u
    ensures (found + h) + pg == all
  {
    forall o
      ensures ((found + h) + pg)[o] == all[o]
    {
      assert (pg + t)[o] == (pf + u)[o];
      assert (found + pf)[o] == all[o];
    }
  }

  /** A suffix of a list is its first entry plus the rest. */
  lemma SuffixSplit<T>(s: seq<T>, i: nat)
    requires i < |s|
    ensures multiset(s[i..]) == multiset{s[i]} + multiset(s[i + 1..])
  {
    assert s[i..] == [s[i]] + s[i + 1..];
  }

  /** Issuing row `n` adds all of its entries to those still to come. */
  lemma PendingIssue<T>(table: nat -> seq<T>, f: map<nat, nat>, n: nat, found: seq<T>, all: multiset<T>)
    requires n !in f
    requires multiset(found) + Pending(table, f, n) == all
    ensures multiset(found) + Pending(table, f[n := 0], n + 1) == all + multiset(table(n))
  {
    var g := f[n := 0];
    assert f - {n} == g - {n};
    PendingBelow(table, f, g, n, n);
    PendingSame(table, f, g, n);
    assert table(n)[0..] == table(n);
    GainBoth(multiset(found), Pending(table, f, n), Pending(table, g, n + 1), multiset(table(n)), all, all + multiset(table(n)));
  }

  /** Delivering the next entry of row `k` moves it from those still to come to those received. */
  lemma PendingAdvance<T>(table: nat -> seq<T>, f: map<nat, nat>, n: nat, k: nat, found: seq<T>, all: multiset<T>)
    requires k < n && k in f && f[k] < |table(k)|
    requires multiset(found) + Pending(table, f, n) == all
    ensures multiset(found + [table(k)[f[k]]]) + Pending(table, f[k := f[k] + 1], n) == all
  {
    var ms, pos := table(k), f[k];
    var g := f[k := pos + 1];
    assert f - {k} == g - {k};
    PendingChange(table, f, g, n, k);
    assert PendingOf(table, f, k) == multiset(ms[pos..]);
    assert PendingOf(table, g, k) == multiset(ms[pos + 1..]);
    SuffixSplit(ms, pos);
    assert multiset(found + [ms[pos]]) == multiset(found) + multiset{ms[pos]};
    MoveOver(multiset(found), Pending(table, f, n), Pending(table, g, n),
      PendingOf(table, f, k), PendingOf(table, g, k), multiset{ms[pos]}, all);
  }

  /** Retiring row `k` once all of its entries are delivered leaves the accounting unchanged. */
  lemma PendingRetire<T>(table: nat -> seq<T>, f: map<nat, nat>, n: nat, k: nat, found: seq<T>, all: multiset<T>)
    requires k < n && k in f && f[k] == |table(k)|
    requires multiset(found) + Pending(table, f, n) == all
    ensures multiset(found) + Pending(table, f - {k}, n) == all
  {
    var g := f - {k};
    assert f - {k} == g - {k};
    PendingChange(table, f, g, n, k);
    assert PendingOf(table, f, k) == multiset{};
    assert PendingOf(table, g, k) == multiset{};
    MoveOver(multiset(found), Pending(table, f, n), Pending(table, g, n), multiset{}, multiset{}, multiset{}, all);
  }

  /** Nothing is pending when nothing is in flight. */
  lemma {:induction false} PendingNone<T>(table: nat -> seq<T>, n: nat)
    ensures Pending(table, map[], n) == multiset{}
  {
    if n > 0 {
      PendingNone(table, n - 1);
    }
  }

  /** The state after the coordinator issues its next block. */
  function Issue(s: Sys): Sys
  {
    s.(m := s.m.(blocks := s.m.blocks + [Started]), inFlight := s.inFlight[|s.issued| := 0], issued := s.issued + [BlockRange(|s.m.blocks|)])
  }

  /** Issuing the next block adds all of its matches to those still to come. */
  lemma IssueAccounted(digest: DigestFn, s: Sys)
    requires |s.issued| == |s.m.blocks| && |s.m.blocks| !in s.inFlight && Accounted(digest, s)
    ensures Accounted(digest, Issue(s))
  {
    var z, n, found := s.m.zeroes, |s.m.blocks|, s.m.found;
    var t := Issue(s);
    assert t.m.zeroes == z && t.m.found == found && |t.m.blocks| == n + 1 && t.inFlight == s.inFlight[n := 0];
    var all := MatchesIn(z, digest, 0, n * BlockSize);
    var ms := BlockMatches(z, digest, n);
    PendingIssue(Table(z, digest), s.inFlight, n, found, multiset(all));
    assert Table(z, digest)(n) == ms;
    BlockRangeSpec(n);
    MatchesInSplit(z, digest, 0, n * BlockSize, (n + 1) * BlockSize);
    assert multiset(all + ms) == multiset(all) + multiset(ms);
  }


  /** Issuing the next block keeps the issue order and the in-flight bookkeeping. */
  lemma IssueShape(digest: DigestFn, s: Sys)
    requires IssuedInOrder(s) && FlightIsStarted(digest, s)
    ensures IssuedInOrder(Issue(s)) && FlightIsStarted(digest, Issue(s))
  {
    var t := Issue(s);
    assert t.m.zeroes == s.m.zeroes && t.m.blocks == s.m.blocks + [Started];
  }

  /** Issuing the next block keeps the invariant. */
  lemma IssuePreserves(digest: DigestFn, s: Sys)
    requires InvCore(digest, s)
    ensures InvCore(digest, Issue(s))
  {
    IssueShape(digest, s);
    IssueAccounted(digest, s);
  }

  /** The coordinator's decision, carried out: issue while matches are short, else stop or wait. */
  lemma DecideCases(s: Sys)
    ensures var (m', a) := Decide(s.m);
      && (|s.m.found| < s.m.records ==> Apply(s, m', a) == Issue(s))
      && (s.m.records <= |s.m.found| ==> Apply(s, m', a) == s.(stopped := s.stopped || Started !in s.m.blocks))
  {
  }

  /** Carrying out the coordinator's decision keeps the invariant. */
  lemma DecidePreserves(digest: DigestFn, s: Sys)
    requires InvCore(digest, s) && !s.stopped
    ensures var (m', a) := Decide(s.m); Inv(digest, Apply(s, m', a)) && SameConfig(s.m, m')
  {
    DecideCases(s);
    if |s.m.found| < s.m.records {
      IssuePreserves(digest, s);
    }
  }

  /** The state after the next match of the `k`-th request is delivered. */
  function NextFound(digest: DigestFn, s: Sys, k: nat): Sys
    requires k in s.inFlight && s.inFlight[k] < |BlockMatches(s.m.zeroes, digest, k)|
  {
    s.(m := HandleFound(s.m, BlockMatches(s.m.zeroes, digest, k)[s.inFlight[k]]), inFlight := s.inFlight[k := s.inFlight[k] + 1])
  }

  /** Delivering a match moves it from those still to come to those received. */
  lemma FoundAccounted(digest: DigestFn, s: Sys, k: nat)
    requires Accounted(digest, s)
    requires k < |s.m.blocks| && k in s.inFlight && s.inFlight[k] < |BlockMatches(s.m.zeroes, digest, k)|
    ensures Accounted(digest, NextFound(digest, s, k))
  {
    var z, n, f, found := s.m.zeroes, |s.m.blocks|, s.inFlight, s.m.found;
    var ms := BlockMatches(z, digest, k);
    var t := NextFound(digest, s, k);
    assert t.m.zeroes == z && t.m.found == found + [ms[f[k]]] && |t.m.blocks| == n && t.inFlight == f[k := f[k] + 1];
    assert Table(z, digest)(k) == ms;
    PendingAdvance(Table(z, digest), f, n, k, found, multiset(MatchesIn(z, digest, 0, n * BlockSize)));
  }


  /** Delivering a match keeps the issue order and the in-flight bookkeeping. */
  lemma FoundShape(digest: DigestFn, s: Sys, k: nat)
    requires IssuedInOrder(s) && FlightIsStarted(digest, s)
    requires k in s.inFlight && s.inFlight[k] < |BlockMatches(s.m.zeroes, digest, k)|
    ensures IssuedInOrder(NextFound(digest, s, k)) && FlightIsStarted(digest, NextFound(digest, s, k))
  {
    var t := NextFound(digest, s, k);
    assert t.m.zeroes == s.m.zeroes && t.m.blocks == s.m.blocks && t.issued == s.issued;
  }

  /** The state after the `k`-th request completes, before the coordinator decides. */
  function NextDone(s: Sys, k: nat): Sys
    requires k < |s.m.blocks|
  {
    s.(m := s.m.(blocks := s.m.blocks[k := Finished]), inFlight := s.inFlight - {k})
  }

  /** A request that completed has nothing still to come, so retiring it leaves the accounting unchanged. */
  lemma DoneAccounted(digest: DigestFn, s: Sys, k: nat)
    requires Accounted(digest, s)
    requires k < |s.m.blocks| && k in s.inFlight && s.inFlight[k] == |BlockMatches(s.m.zeroes, digest, k)|
    ensures Accounted(digest, NextDone(s, k))
  {
    var z, n, f, found := s.m.zeroes, |s.m.blocks|, s.inFlight, s.m.found;
    var t := NextDone(s, k);
    assert t.m.zeroes == z && t.m.found == found && |t.m.blocks| == n && t.inFlight == f - {k};
    assert Table(z, digest)(k) == BlockMatches(z, digest, k);
    PendingRetire(Table(z, digest), f, n, k, found, multiset(MatchesIn(z, digest, 0, n * BlockSize)));
  }


  /** Retiring a completed request and finishing its block keeps the issue order and the in-flight bookkeeping. */
  lemma DoneShape(digest: DigestFn, s: Sys, k: nat)
    requires IssuedInOrder(s) && FlightIsStarted(digest, s)
    requires k in s.inFlight
    ensures k < |s.m.blocks|
    ensures IssuedInOrder(NextDone(s, k)) && FlightIsStarted(digest, NextDone(s, k))
  {
    var t := NextDone(s, k);
    assert t.m.zeroes == s.m.zeroes && t.m.blocks == s.m.blocks[k := Finished] && t.issued == s.issued;
  }

  /** Delivering the next match of a request in flight keeps the invariant and the configuration. */
  lemma FoundPreserves(digest: DigestFn, s: Sys, k: nat)
    requires Inv(digest, s) && !s.stopped && k in s.inFlight
    requires s.inFlight[k] < |BlockMatches(s.m.zeroes, digest, k)|
    ensures Inv(digest, NextFound(digest, s, k)) && SameConfig(s.m, NextFound(digest, s, k).m)
  {
    assert k < |s.m.blocks|;
    FoundAccounted(digest, s, k);
    FoundShape(digest, s, k);
  }

  /** Delivering the completion of a request in flight keeps the invariant and the configuration. */
  lemma DonePreserves(digest: DigestFn, s: Sys, k: nat)
    requires Inv(digest, s) && !s.stopped && k in s.inFlight
    requires s.inFlight[k] == |BlockMatches(s.m.zeroes, digest, k)|
    ensures k < |s.m.blocks|
    ensures var s' := NextDone(s, k);
      Inv(digest, Apply(s', Decide(s'.m).0, Decide(s'.m).1)) && SameConfig(s.m, Decide(s'.m).0)
  {
    DoneShape(digest, s, k);
    DoneAccounted(digest, s, k);
    DecidePreserves(digest, NextDone(s, k));
  }

  /** The coordinator's answer to a start-up signal is its plain decision. */
  lemma RespondStartup(s: Sys)
    ensures Respond(s, None) == Ok(Apply(s, Decide(s.m).0, Decide(s.m).1))
  {
  }

  /** The coordinator's answer to the completion of block `j` marks that block finished and then decides. */
  lemma RespondDone(s: Sys, j: nat)
    requires j < |s.m.blocks|
    ensures var s' := s.(m := s.m.(blocks := s.m.blocks[j := Finished]));
      Respond(s, Some(BlockRange(j))) == Ok(Apply(s', Decide(s'.m).0, Decide(s'.m).1))
  {
    BlockRangeSpec(j);
    assert MarkFinished(s.m, BlockRange(j)) == Ok(s.m.(blocks := s.m.blocks[j := Finished]));
  }

  /** The scan of block `k` sends the block's matches as reports, then the completion. */
  lemma ScanOfBlock(m: Manager, digest: DigestFn, k: nat)
    ensures Scan(m, digest, BlockRange(k)) == Reports(BlockMatches(m.zeroes, digest, k)) + [WorkerReady(Some(BlockRange(k)))]
  {
  }

  /** While block `k` has matches left, the next message about it is the next match. */
  lemma DeliverFound(digest: DigestFn, s: Sys, k: nat)
    requires k in s.inFlight && k < |s.issued| && s.issued[k] == BlockRange(k)
    requires s.inFlight[k] < |BlockMatches(s.m.zeroes, digest, k)|
    ensures DeliverNext(digest, s, k) == Ok(NextFound(digest, s, k))
  {
    var ms := BlockMatches(s.m.zeroes, digest, k);
    ScanOfBlock(s.m, digest, k);
    assert Scan(s.m, digest, s.issued[k])[s.inFlight[k]] == Found(ms[s.inFlight[k]]);
  }

  /** Once block `k` has delivered all of its matches, the next message about it is its completion. */
  lemma DeliverDone(digest: DigestFn, s: Sys, k: nat)
    requires k in s.inFlight && k < |s.issued| && s.issued[k] == BlockRange(k) && k < |s.m.blocks|
    requires s.inFlight[k] == |BlockMatches(s.m.zeroes, digest, k)|
    ensures DeliverNext(digest, s, k) == Ok(Apply(NextDone(s, k), Decide(NextDone(s, k).m).0, Decide(NextDone(s, k).m).1))
  {
    var ms := BlockMatches(s.m.zeroes, digest, k);
    ScanOfBlock(s.m, digest, k);
    assert Scan(s.m, digest, s.issued[k])[s.inFlight[k]] == WorkerReady(Some(BlockRange(k)));
    RespondDone(s.(inFlight := s.inFlight - {k}), k);
  }

  /** A start-up signal keeps the invariant and the configuration, and the coordinator does not abort. */
  lemma StartupPreserves(digest: DigestFn, s: Sys)
    requires Inv(digest, s) && !s.stopped
    ensures var r := Step(digest, s, Startup); r.Ok? && Inv(digest, r.value) && SameConfig(s.m, r.value.m)
  {
    if s.unstarted > 0 {
      var s' := s.(unstarted := s.unstarted - 1);
      RespondStartup(s');
      DecidePreserves(digest, s');
    }
  }

  /** Delivering the next message of request `k` keeps the invariant and the configuration, and the coordinator does not abort. */
  lemma DeliverPreserves(digest: DigestFn, s: Sys, k: nat)
    requires Inv(digest, s) && !s.stopped
    ensures var r := Step(digest, s, Deliver(k)); r.Ok? && Inv(digest, r.value) && SameConfig(s.m, r.value.m)
  {
    if k in s.inFlight {
      if s.inFlight[k] < |BlockMatches(s.m.zeroes, digest, k)| {
        FoundPreserves(digest, s, k);
        DeliverFound(digest, s, k);
      } else {
        DonePreserves(digest, s, k);
        DeliverDone(digest, s, k);
      }
    }
  }

  /** Every step keeps the invariant and the configuration, and the coordinator never aborts. */
  lemma StepPreserves(digest: DigestFn, s: Sys, c: Choice)
    requires Inv(digest, s)
    ensures Step(digest, s, c).Ok?
    ensures Inv(digest, Step(digest, s, c).value)
    ensures SameConfig(s.m, Step(digest, s, c).value.m)
  {
    if s.stopped {
    } else if c.Startup? {
      StartupPreserves(digest, s);
    } else {
      DeliverPreserves(digest, s, c.k);
    }
  }

  /** Over any run from a state satisfying the invariant, the coordinator never aborts and the invariant holds at the end. */
  lemma {:induction false} RunPreserves(digest: DigestFn, s: Sys, cs: seq<Choice>)
    requires Inv(digest, s)
    ensures Run(digest, s, cs).Ok?
    ensures Inv(digest, Run(digest, s, cs).value)
    ensures SameConfig(s.m, Run(digest, s, cs).value.m)
    decreases |cs|
  {
    if |cs| > 0 {
      StepPreserves(digest, s, cs[0]);
      RunPreserves(digest, Step(digest, s, cs[0]).value, cs[1..]);
    }
  }

  /** A freshly built coordinator satisfies the invariant. */
  lemma InitInv(digest: DigestFn, m: Manager)
    requires m.blocks == [] && m.found == []
    ensures Inv(digest, Init(m))
  {
  }

  /** A sorted list with the same entries as a strictly ascending list starts with the same entry. */
  lemma SameHead(a: seq<HashFound>, b: seq<HashFound>)
    requires SortedByDigit(a) && StrictlyAscending(b)
    requires multiset(a) == multiset(b) && 0 < |a|
    ensures 0 < |b| && a[0] == b[0]
  {
    assert a[0] in multiset(b);
    var j :| 0 <= j < |b| && b[j] == a[0];
    assert b[0] in multiset(a);
    var i :| 0 <= i < |a| && a[i] == b[0];
    assert a[0].digit <= a[i].digit;
  }

  /** Two lists with the same entries and the same first entry have tails with the same entries. */
  lemma SameTails<T>(a: seq<T>, b: seq<T>)
    requires multiset(a) == multiset(b) && 0 < |a| && 0 < |b| && a[0] == b[0]
    ensures multiset(a[1..]) == multiset(b[1..])
  {
    assert a == [a[0]] + a[1..];
    assert b == [b[0]] + b[1..];
    assert multiset(a[1..]) == multiset(a) - multiset{a[0]};
    assert multiset(b[1..]) == multiset(b) - multiset{b[0]};
  }

  /** A sorted list with the same entries as a strictly ascending list is that list. */
  lemma {:induction false} SortedPermutationUnique(a: seq<HashFound>, b: seq<HashFound>)
    requires SortedByDigit(a) && StrictlyAscending(b)
    requires multiset(a) == multiset(b)
    ensures a == b
    decreases |a|
  {
    assert |a| == |multiset(a)| == |multiset(b)| == |b|;
    if |a| > 0 {
      SameHead(a, b);
      SameTails(a, b);
      SortedPermutationUnique(a[1..], b[1..]);
      assert a == [a[0]] + a[1..];
      assert b == [b[0]] + b[1..];
    }
  }

  /** The first `n` entries of a list are unchanged by appending more. */
  lemma TakeAppend<T>(n: nat, a: seq<T>, b: seq<T>)
    requires n <= |a|
    ensures Take(n, a + b) == Take(n, a)
  {
    assert (a + b)[..n] == a[..n];
  }

  /**
   * Once `[lo, mid)` holds at least `n` matches, scanning further cannot
   * change the first `n`: they are the first `n` matches of any longer range.
   */
  lemma FirstMatchesStable(zeroes: ZeroCount, digest: DigestFn, lo: nat, mid: nat, hi: nat, n: nat)
    requires lo <= mid <= hi && n <= |MatchesIn(zeroes, digest, lo, mid)|
    ensures Take(n, MatchesIn(zeroes, digest, lo, hi)) == Take(n, MatchesIn(zeroes, digest, lo, mid))
  {
    MatchesInSplit(zeroes, digest, lo, mid, hi);
    TakeAppend(n, MatchesIn(zeroes, digest, lo, mid), MatchesIn(zeroes, digest, mid, hi));
  }

  /** A stopped coordinator has nothing in flight, every block finished, and has received exactly the matches of its blocks. */
  lemma StoppedFacts(digest: DigestFn, s: Sys)
    requires Inv(digest, s) && s.stopped
    ensures s.inFlight == map[]
    ensures forall k | 0 <= k < |s.m.blocks| :: s.m.blocks[k] == Finished
    ensures multiset(s.m.found) == multiset(MatchesIn(s.m.zeroes, digest, 0, |s.m.blocks| * BlockSize))
  {
    if k :| k in s.inFlight {
      assert false;
    }
    PendingNone(Table(s.m.zeroes, digest), |s.m.blocks|);
  }

  /** When the found list holds exactly the entries of a strictly ascending list, the report is that list's first `records` entries. */
  lemma ReportOfPermutation(m: Manager, all: seq<HashFound>)
    requires multiset(m.found) == multiset(all) && StrictlyAscending(all)
    ensures Report(m) == Take(m.records, all)
  {
    SortedPermutationUnique(SortByDigit(m.found), all);
  }

  /**
   * The end-to-end promise. In every run of the search from a freshly built
   * coordinator, whatever the interleaving: the coordinator never aborts,
   * it issues blocks `0, 1, 2, …` with no gap, and if it stops then nothing
   * is in flight, every block is finished, and its report is exactly the
   * first `records` matching indices of `[0, K * 100000)`, in ascending
   * order, `K` being the number of blocks it issued; these are also the
   * first `records` matches of every longer prefix `[0, hi)`, that is, the
   * smallest matching indices of all.
   */
  lemma StoppedReportIsFirstMatches(digest: DigestFn, b: Builder, cs: seq<Choice>)
    requires Build(b).Ok?
    ensures Run(digest, Init(Build(b).value), cs).Ok?
    ensures var s := Run(digest, Init(Build(b).value), cs).value;
      && s.m.records == b.records.value && s.m.zeroes == b.zeroes.value
      && |s.issued| == |s.m.blocks|
      && (forall k | 0 <= k < |s.issued| :: s.issued[k] == BlockRange(k))
      && (s.stopped ==>
            && s.inFlight == map[]
            && (forall k | 0 <= k < |s.m.blocks| :: s.m.blocks[k] == Finished)
            && |Report(s.m)| == s.m.records
            && Report(s.m) == Take(s.m.records, MatchesIn(s.m.zeroes, digest, 0, |s.m.blocks| * BlockSize))
            && (forall hi | |s.m.blocks| * BlockSize <= hi ::
                  Report(s.m) == Take(s.m.records, MatchesIn(s.m.zeroes, digest, 0, hi))))
  {
    var m0 := Build(b).value;
    InitInv(digest, m0);
    RunPreserves(digest, Init(m0), cs);
    var s := Run(digest, Init(m0), cs).value;
    if s.stopped {
      var all := MatchesIn(s.m.zeroes, digest, 0, |s.m.blocks| * BlockSize);
      StoppedFacts(digest, s);
      MatchesInSpec(s.m.zeroes, digest, 0, |s.m.blocks| * BlockSize);
      ReportOfPermutation(s.m, all);
      forall hi | |s.m.blocks| * BlockSize <= hi
        ensures Report(s.m) == Take(s.m.records, MatchesIn(s.m.zeroes, digest, 0, hi))
      {
        FirstMatchesStable(s.m.zeroes, digest, 0, |s.m.blocks| * BlockSize, hi, s.m.records);
      }
    }
  }
}
