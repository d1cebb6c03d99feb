/**
 The auto-connect command as interleaved atomic steps: scanning, workers, retries. One
 select is one step; it takes any ready case and the default only when none is ready.
 */
module ConnectAll {
  import opened Common
  import opened PeerChannels

  const PRIORITY_FLOOR: nat := 10

  /** A worker waits in the nested select at some level, or holds a peer it got at a priority, or has stopped. */
  datatype Worker = Selecting(level: nat) | Attempting(p: PeerID, priority: nat) | Stopped

  /** A retry goroutine is about to try channel at, or has ended. */
  datatype Retry = Trying(p: PeerID, at: nat) | Ended

  /** The scan still has todo to schedule; the first of them is about to try channel at. */
  datatype Scan = Scan(todo: seq<PeerID>, at: nat)

  datatype Delivery = Delivery(p: PeerID, priority: nat, from: nat)

  datatype System = System(
    maxRetries: nat,
    q: Queues,
    workers: seq<Worker>,
    retries: seq<Retry>,
    scan: Scan,
    attempts: map<PeerID, nat>,
    deliveries: seq<Delivery>)
  {
    function Channels(): nat {
      |q.chans|
    }

    function Attempts(p: PeerID): nat {
      if p in attempts then attempts[p] else 0
    }
  }

  datatype Step =
    | Take(w: nat, from: nat)      // a worker's select receives
    | Default(w: nat)              // a worker's select falls through to the next level
    | Stop(w: nat)                 // a worker sees its context done
    | Succeed(w: nat)
    | Fail(w: nat)
    | RetrySend(r: nat)            // a retry's select sends
    | RetryDefault(r: nat)         // a retry's select falls through, or its loop ends
    | ScanPick(ps: seq<PeerID>)    // a scan decides whom to schedule
    | ScanSend
    | ScanDefault

  /** The number of priority channels: retries beyond the floor share the last one. */
  function ChannelCount(maxRetries: nat): nat {
    Min(maxRetries, PRIORITY_FLOOR)
  }

  /** What a failed attempt leaves behind, given the failure count that includes it. */
  function AfterFailure(maxRetries: nat, p: PeerID, a: nat): Retry {
    if a <= maxRetries then Trying(p, Min(a, PRIORITY_FLOOR)) else Ended
  }

  predicate Enabled(s: System, step: Step) {
    match step
    case Take(w, from) =>
      w < |s.workers| && s.workers[w].Selecting? && from <= s.workers[w].level && s.q.Ready(from)
    case Default(w) =>
      w < |s.workers| && s.workers[w].Selecting? && s.workers[w].level + 1 < s.Channels()
      && forall c :: 0 <= c <= s.workers[w].level ==> !s.q.Ready(c)
    case Stop(w) => w < |s.workers| && s.workers[w].Selecting?
    case Succeed(w) => w < |s.workers| && s.workers[w].Attempting?
    case Fail(w) => w < |s.workers| && s.workers[w].Attempting?
    case RetrySend(r) => r < |s.retries| && s.retries[r].Trying? && s.q.HasRoom(s.retries[r].at)
    case RetryDefault(r) => r < |s.retries| && s.retries[r].Trying? && !s.q.HasRoom(s.retries[r].at)
    case ScanPick(ps) => s.scan.todo == [] && forall p :: p in ps ==> s.Attempts(p) == 0
    case ScanSend => s.scan.todo != [] && s.q.HasRoom(s.scan.at)
    case ScanDefault => s.scan.todo != [] && !s.q.HasRoom(s.scan.at)
  }

  function Apply(s: System, step: Step): System
    requires |s.q.sent| == |s.q.got| == s.Channels() && Enabled(s, step)
  {
    match step
    case Take(w, from) =>
      var p, priority := s.q.chans[from][0], s.workers[w].level;
      s.(q := s.q.Receive(from), workers := s.workers[w := Attempting(p, priority)],
         deliveries := s.deliveries + [Delivery(p, priority, from)])
    case Default(w) => s.(workers := s.workers[w := Selecting(s.workers[w].level + 1)])
    case Stop(w) => s.(workers := s.workers[w := Stopped])
    case Succeed(w) => s.(workers := s.workers[w := Selecting(0)], attempts := s.attempts[s.workers[w].p := 0])
    case Fail(w) =>
      var p := s.workers[w].p;
      var a := s.Attempts(p) + 1;
      s.(workers := s.workers[w := Selecting(0)], attempts := s.attempts[p := a],
         retries := s.retries + [AfterFailure(s.maxRetries, p, a)])
    case RetrySend(r) =>
      s.(q := s.q.Send(s.retries[r].at, s.retries[r].p), retries := s.retries[r := Ended])
    case RetryDefault(r) =>
      var next := s.retries[r].at + 1;
      s.(retries := s.retries[r := if next < s.Channels() then Trying(s.retries[r].p, next) else Ended])
    case ScanPick(ps) => s.(scan := Scan(ps, 0))
    case ScanSend => s.(q := s.q.Send(s.scan.at, s.scan.todo[0]), scan := Scan(s.scan.todo[1..], 0))
    case ScanDefault =>
      if s.scan.at + 1 < s.Channels() then s.(scan := Scan(s.scan.todo, s.scan.at + 1))
      else s.(scan := Scan([], 0)) // too many peers scheduled: skip this round
  }

  /** The sequence of peers delivered from channel c, in delivery order. */
  function DeliveredFrom(ds: seq<Delivery>, c: nat): seq<PeerID> {
    if ds == [] then []
    else DeliveredFrom(ds[..|ds| - 1], c) + (if ds[|ds| - 1].from == c then [ds[|ds| - 1].p] else [])
  }

  /** What every interleaving keeps. */
  ghost predicate Inv(s: System) {
    && s.q.Conserved() && s.Channels() == ChannelCount(s.maxRetries)
    && (forall c :: 0 <= c < s.Channels() ==> s.q.got[c] == DeliveredFrom(s.deliveries, c))
    && (forall i :: 0 <= i < |s.deliveries| ==> s.deliveries[i].from <= s.deliveries[i].priority < s.Channels())
    && (forall w :: 0 <= w < |s.workers| && s.workers[w].Selecting? && s.Channels() > 0 ==> s.workers[w].level < s.Channels())
    && (s.scan.todo != [] && s.Channels() > 0 ==> s.scan.at < s.Channels())
  }

  ghost predicate Init(s: System) {
    && s.Channels() == |s.q.sent| == |s.q.got| == ChannelCount(s.maxRetries)
    && (forall c :: 0 <= c < s.Channels() ==> s.q.chans[c] == s.q.sent[c] == s.q.got[c] == [])
    && (forall w :: 0 <= w < |s.workers| ==> s.workers[w] == Selecting(0))
    && s.retries == [] && s.scan.todo == [] && s.attempts == map[] && s.deliveries == []
  }

  lemma InvStep(s: System, step: Step)
    requires Inv(s) && Enabled(s, step)
    ensures Inv(Apply(s, step))
  {
    match step
    case Take(w, from) =>
      ReceiveConserves(s.q, from);
      var s' := Apply(s, step);
      assert s'.deliveries[..|s.deliveries|] == s.deliveries;
    case RetrySend(r) => SendConserves(s.q, s.retries[r].at, s.retries[r].p);
    case ScanSend => SendConserves(s.q, s.scan.at, s.scan.todo[0]);
    case _ =>
  }

  /** A run: each step is enabled where it is taken. */
  ghost predicate IsRun(s: System, steps: seq<Step>, s': System)
    decreases |steps|
  {
    if steps == [] then s == s'
    else |s.q.sent| == |s.q.got| == s.Channels() && Enabled(s, steps[0]) && IsRun(Apply(s, steps[0]), steps[1..], s')
  }

  lemma {:induction false} RunKeepsInv(s: System, steps: seq<Step>, s': System)
    requires Inv(s) && IsRun(s, steps, s')
    ensures Inv(s')
    decreases |steps|
  {
    if steps != [] {
      InvStep(s, steps[0]);
      RunKeepsInv(Apply(s, steps[0]), steps[1..], s');
    }
  }

  /**
   Conservation and order in every run from the start: what a channel ever accepted is what
   was delivered from it followed by what it holds, in order; no channel exceeds its
   capacity; the reported priority is never below the channel taken from.
   */
  lemma EveryRunConserves(s: System, steps: seq<Step>, s': System)
    requires Init(s) && IsRun(s, steps, s')
    ensures |s'.q.sent| == s'.Channels() == ChannelCount(s'.maxRetries)
    ensures forall c :: 0 <= c < s'.Channels() ==>
              && s'.q.sent[c] == DeliveredFrom(s'.deliveries, c) + s'.q.chans[c]
              && |s'.q.chans[c]| <= CAPACITY
    ensures forall d :: d in s'.deliveries ==> d.from <= d.priority < s'.Channels()
  {
    assert Inv(s);
    RunKeepsInv(s, steps, s');
  }

  // ---------- first in, first out ----------

  /** The peer that a step sends to channel c, read off the state before it. */
  function SendsTo(s: System, step: Step, c: nat): seq<PeerID> {
    match step
    case RetrySend(r) => if r < |s.retries| && s.retries[r].Trying? && s.retries[r].at == c then [s.retries[r].p] else []
    case ScanSend => if s.scan.todo != [] && s.scan.at == c then [s.scan.todo[0]] else []
    case _ => []
  }

  /** The peers sent to channel c in a run, in the order of its steps. */
  ghost function SentTo(s: System, steps: seq<Step>, c: nat): seq<PeerID>
    decreases |steps|
  {
    if steps == [] || !(|s.q.sent| == |s.q.got| == s.Channels() && Enabled(s, steps[0])) then []
    else SendsTo(s, steps[0], c) + SentTo(Apply(s, steps[0]), steps[1..], c)
  }

  /** What was delivered from channel c, and what waits in it. */
  function Passed(s: System, c: nat): seq<PeerID>
    requires c < s.Channels()
  {
    DeliveredFrom(s.deliveries, c) + s.q.chans[c]
  }

  lemma TakeIsFifo(s: System, w: nat, from: nat, c: nat)
    requires Inv(s) && Enabled(s, Take(w, from)) && c < s.Channels()
    ensures Passed(Apply(s, Take(w, from)), c) == Passed(s, c)
  {
    var s' := Apply(s, Take(w, from));
    assert s'.deliveries[..|s.deliveries|] == s.deliveries;
    var ch := s.q.chans[from];
    assert ch == [ch[0]] + ch[1..];
  }

  lemma FifoStep(s: System, step: Step, c: nat)
    requires Inv(s) && Enabled(s, step) && c < s.Channels()
    ensures Apply(s, step).Channels() == s.Channels()
    ensures Passed(Apply(s, step), c) == Passed(s, c) + SendsTo(s, step, c)
  {
    if step.Take? {
      TakeIsFifo(s, step.w, step.from, c);
    }
  }

  lemma Assoc<T>(a: seq<T>, b: seq<T>, c: seq<T>)
    ensures a + (b + c) == (a + b) + c
  {
  }

  /** Whatever is delivered from a channel, or waits in it, is what was sent to it, in the order it was sent. */
  lemma {:induction false} RunIsFifo(s: System, steps: seq<Step>, s': System, c: nat)
    requires Inv(s) && IsRun(s, steps, s') && c < s.Channels()
    ensures s'.Channels() == s.Channels()
    ensures Passed(s', c) == Passed(s, c) + SentTo(s, steps, c)
    decreases |steps|
  {
    if steps == [] {
      assert Passed(s, c) + [] == Passed(s, c);
    } else {
      var s1 := Apply(s, steps[0]);
      FifoStep(s, steps[0], c);
      InvStep(s, steps[0]);
      RunIsFifo(s1, steps[1..], s', c);
      Assoc(Passed(s, c), SendsTo(s, steps[0], c), SentTo(s1, steps[1..], c));
    }
  }

  /** From the start: peers leave a channel in the order in which the steps of the run sent them there. */
  lemma ChannelsAreFifo(s: System, steps: seq<Step>, s': System, c: nat)
    requires Init(s) && IsRun(s, steps, s') && c < s.Channels()
    ensures s'.Channels() == s.Channels()
    ensures SentTo(s, steps, c) == DeliveredFrom(s'.deliveries, c) + s'.q.chans[c]
  {
    assert Inv(s);
    RunIsFifo(s, steps, s', c);
    assert Passed(s, c) == [];
    assert [] + SentTo(s, steps, c) == SentTo(s, steps, c);
  }

  // ---------- outstanding entries of one peer ----------

  function Sum<T>(s: seq<T>, f: T -> nat): nat {
    if s == [] then 0 else f(s[0]) + Sum(s[1..], f)
  }

  lemma {:induction false} SumUpdate<T>(s: seq<T>, f: T -> nat, i: nat, x: T)
    requires i < |s|
    ensures Sum(s[i := x], f) == Sum(s, f) - f(s[i]) + f(x)
  {
    if i == 0 {
      assert s[i := x][1..] == s[1..];
    } else {
      assert s[i := x][1..] == s[1..][i - 1 := x];
      SumUpdate(s[1..], f, i - 1, x);
    }
  }

  lemma {:induction false} SumAppend<T>(s: seq<T>, f: T -> nat, x: T)
    ensures Sum(s + [x], f) == Sum(s, f) + f(x)
  {
    if s == [] {
      assert ([] + [x])[1..] == [];
    } else {
      assert (s + [x])[1..] == s[1..] + [x];
      SumAppend(s[1..], f, x);
    }
  }

  function InChannel(p: PeerID): seq<PeerID> -> nat {
    (ch: seq<PeerID>) => multiset(ch)[p]
  }

  function AtWorker(p: PeerID): Worker -> nat {
    (w: Worker) => if w.Attempting? && w.p == p then 1 else 0
  }

  /** A retry that will still try a channel; one whose count is past the last channel is given up untried. */
  function InRetry(p: PeerID, channels: nat): Retry -> nat {
    (r: Retry) => if r.Trying? && r.p == p && r.at < channels then 1 else 0
  }

  /** How often p is queued, with a worker, in a retry that can still schedule it, or about to be scheduled by the scan. */
  function Entries(s: System, p: PeerID): nat {
    Sum(s.q.chans, InChannel(p)) + Sum(s.workers, AtWorker(p))
    + Sum(s.retries, InRetry(p, s.Channels())) + multiset(s.scan.todo)[p]
  }

  /** An upper bound on the failures p can still have without a success or a new scan entry. */
  function Potential(s: System, p: PeerID): nat {
    Max(0, s.Channels() - 1 - s.Attempts(p)) + Entries(s, p)
  }

  predicate FailsAt(s: System, step: Step, p: PeerID) {
    step.Fail? && step.w < |s.workers| && s.workers[step.w].Attempting? && s.workers[step.w].p == p
  }

  predicate SucceedsAt(s: System, step: Step, p: PeerID) {
    step.Succeed? && step.w < |s.workers| && s.workers[step.w].Attempting? && s.workers[step.w].p == p
  }

  predicate Picks(step: Step, p: PeerID) {
    step.ScanPick? && p in step.ps
  }

  /** A received peer leaves its channel for the worker. */
  lemma EntriesTake(s: System, w: nat, from: nat, p: PeerID)
    requires Inv(s) && Enabled(s, Take(w, from))
    ensures Entries(Apply(s, Take(w, from)), p) == Entries(s, p)
  {
    var ch := s.q.chans[from];
    SumUpdate(s.q.chans, InChannel(p), from, ch[1..]);
    SumUpdate(s.workers, AtWorker(p), w, Attempting(ch[0], s.workers[w].level));
    assert ch == [ch[0]] + ch[1..];
    assert multiset(ch)[p] == (if ch[0] == p then 1 else 0) + multiset(ch[1..])[p];
  }

  /** A failed peer leaves the worker for a retry, which counts only while it can reach a channel. */
  lemma EntriesFail(s: System, w: nat, p: PeerID)
    requires Inv(s) && Enabled(s, Fail(w))
    ensures var left := if s.workers[w].p == p && s.Attempts(p) + 1 >= s.Channels() then 1 else 0;
            Entries(Apply(s, Fail(w)), p) + left == Entries(s, p)
    ensures s.workers[w].p == p ==> Entries(s, p) > 0
  {
    SumUpdate(s.workers, AtWorker(p), w, Selecting(0));
    var p0 := s.workers[w].p;
    SumAppend(s.retries, InRetry(p, s.Channels()), AfterFailure(s.maxRetries, p0, s.Attempts(p0) + 1));
  }

  /** A retry moves on, ends, or leaves for a channel. */
  lemma EntriesRetry(s: System, step: Step, p: PeerID)
    requires Inv(s) && Enabled(s, step) && (step.RetrySend? || step.RetryDefault?)
    ensures Entries(Apply(s, step), p) == Entries(s, p) - (if step.RetryDefault? then LeavesQueue(s, step.r, p) else 0)
  {
    var Trying(p0, at) := s.retries[step.r];
    SumUpdate(s.retries, InRetry(p, s.Channels()), step.r, Apply(s, step).retries[step.r]);
    if step.RetrySend? {
      SumUpdate(s.q.chans, InChannel(p), at, s.q.chans[at] + [p0]);
    }
  }

  /** 1 if the retry is p's and its last channel just refused it. */
  function LeavesQueue(s: System, r: nat, p: PeerID): nat
    requires r < |s.retries| && s.retries[r].Trying?
  {
    if s.retries[r].p == p && s.retries[r].at + 1 == s.Channels() then 1 else 0
  }

  lemma EntriesScan(s: System, p: PeerID)
    requires Inv(s) && Enabled(s, ScanSend)
    ensures Entries(Apply(s, ScanSend), p) == Entries(s, p)
  {
    var p0, at := s.scan.todo[0], s.scan.at;
    SumUpdate(s.q.chans, InChannel(p), at, s.q.chans[at] + [p0]);
    assert s.scan.todo == [p0] + s.scan.todo[1..];
    assert multiset(s.scan.todo)[p] == (if p0 == p then 1 else 0) + multiset(s.scan.todo[1..])[p];
  }

  /** Moving an entry between scan, channel, worker and retry creates no second one; only a scan adds entries. */
  lemma EntriesStep(s: System, step: Step, p: PeerID)
    requires Inv(s) && Enabled(s, step) && !Picks(step, p)
    ensures Entries(Apply(s, step), p) <= Entries(s, p)
    ensures FailsAt(s, step, p) && s.Attempts(p) + 1 >= s.Channels() ==> Entries(Apply(s, step), p) + 1 <= Entries(s, p)
    ensures FailsAt(s, step, p) || SucceedsAt(s, step, p) ==> Entries(s, p) > 0
  {
    match step
    case Take(w, from) => EntriesTake(s, w, from, p);
    case Default(w) => SumUpdate(s.workers, AtWorker(p), w, Selecting(s.workers[w].level + 1));
    case Stop(w) => SumUpdate(s.workers, AtWorker(p), w, Stopped);
    case Succeed(w) => SumUpdate(s.workers, AtWorker(p), w, Selecting(0));
    case Fail(w) => EntriesFail(s, w, p);
    case RetrySend(r) => EntriesRetry(s, step, p);
    case RetryDefault(r) => EntriesRetry(s, step, p);
    case ScanPick(ps) =>
    case ScanSend => EntriesScan(s, p);
    case ScanDefault =>
  }

  /** Without a success or a new scan entry the potential of p never grows, and every failure of p uses some of it up. */
  lemma PotentialStep(s: System, step: Step, p: PeerID)
    requires Inv(s) && Enabled(s, step) && !Picks(step, p) && !SucceedsAt(s, step, p)
    ensures Potential(Apply(s, step), p) + (if FailsAt(s, step, p) then 1 else 0) <= Potential(s, p)
    ensures s.Attempts(p) <= Apply(s, step).Attempts(p)
  {
    EntriesStep(s, step, p);
  }

  /** How many attempts at p fail in a run. */
  function Failures(s: System, steps: seq<Step>, p: PeerID): nat
    decreases |steps|
  {
    if steps == [] || !(|s.q.sent| == |s.q.got| == s.Channels() && Enabled(s, steps[0])) then 0
    else (if FailsAt(s, steps[0], p) then 1 else 0) + Failures(Apply(s, steps[0]), steps[1..], p)
  }

  /** A run in which p never succeeds; and one in which no scan picks p either. */
  ghost predicate NoSuccess(s: System, steps: seq<Step>, p: PeerID)
    decreases |steps|
  {
    steps != [] && |s.q.sent| == |s.q.got| == s.Channels() && Enabled(s, steps[0]) ==>
      !SucceedsAt(s, steps[0], p) && NoSuccess(Apply(s, steps[0]), steps[1..], p)
  }

  ghost predicate NoPick(steps: seq<Step>, p: PeerID) {
    forall i :: 0 <= i < |steps| ==> !Picks(steps[i], p)
  }

  /**
   Failing peers drain: attempts made plus those under way never exceed what the attempt
   counter leaves of the channels, plus the entries there were.
   */
  lemma {:induction false} FailingPeersDrain(s: System, steps: seq<Step>, s': System, p: PeerID)
    requires Inv(s) && IsRun(s, steps, s') && NoSuccess(s, steps, p) && NoPick(steps, p)
    ensures Failures(s, steps, p) + Potential(s', p) <= Potential(s, p)
    ensures Failures(s, steps, p) + Sum(s'.workers, AtWorker(p)) <= Max(0, s.Channels() - 1 - s.Attempts(p)) + Entries(s, p)
    decreases |steps|
  {
    if steps != [] {
      var s1 := Apply(s, steps[0]);
      assert !Picks(steps[0], p);
      PotentialStep(s, steps[0], p);
      InvStep(s, steps[0]);
      FailingPeersDrain(s1, steps[1..], s', p);
    }
  }

  /**
   Once a peer has failed, scans leave it alone until it succeeds: the drain bound then
   holds with no assumption about scans at all.
   */
  lemma {:induction false} FailedPeersAreNotPicked(s: System, steps: seq<Step>, s': System, p: PeerID)
    requires Inv(s) && IsRun(s, steps, s') && NoSuccess(s, steps, p) && s.Attempts(p) > 0
    ensures NoPick(steps, p) && s'.Attempts(p) >= s.Attempts(p)
    decreases |steps|
  {
    if steps != [] {
      assert !Picks(steps[0], p);
      PotentialStep(s, steps[0], p);
      InvStep(s, steps[0]);
      FailedPeersAreNotPicked(Apply(s, steps[0]), steps[1..], s', p);
      forall i | 0 <= i < |steps|
        ensures !Picks(steps[i], p)
      {
        if i > 0 {
          assert steps[i] == steps[1..][i - 1];
        }
      }
    }
  }

  lemma FailedPeersDrain(s: System, steps: seq<Step>, s': System, p: PeerID)
    requires Inv(s) && IsRun(s, steps, s') && NoSuccess(s, steps, p) && s.Attempts(p) > 0
    ensures Failures(s, steps, p) + Sum(s'.workers, AtWorker(p)) <= Max(0, s.Channels() - 1 - s.Attempts(p)) + Entries(s, p)
  {
    FailedPeersAreNotPicked(s, steps, s', p);
    FailingPeersDrain(s, steps, s', p);
  }

  lemma {:induction false} AttemptsCountFailures(s: System, steps: seq<Step>, s': System, p: PeerID)
    requires Inv(s) && IsRun(s, steps, s') && NoSuccess(s, steps, p)
    ensures s'.Attempts(p) == s.Attempts(p) + Failures(s, steps, p)
    ensures s'.maxRetries == s.maxRetries && Inv(s')
    decreases |steps|
  {
    if steps != [] {
      InvStep(s, steps[0]);
      AttemptsCountFailures(Apply(s, steps[0]), steps[1..], s', p);
    }
  }

  /**
   The k-th failure of a peer that has had no success leaves a retry that starts at channel
   k, one lower in priority each time; there is none once the channels or the retries are used up.
   */
  lemma KthFailureStartsAtK(s: System, steps: seq<Step>, s': System, w: nat, p: PeerID)
    requires Init(s) && IsRun(s, steps, s') && NoSuccess(s, steps, p) && FailsAt(s', Fail(w), p)
    ensures |s'.q.sent| == |s'.q.got| == s'.Channels()
    ensures var k, after := Failures(s, steps, p) + 1, Apply(s', Fail(w)).retries;
            && after[..|after| - 1] == s'.retries
            && (k < 10 && k < s.maxRetries ==> after[|after| - 1] == Trying(p, k))
            && (k >= 10 || k >= s.maxRetries ==>
                  after[|after| - 1].Ended? || after[|after| - 1].at >= s'.Channels())
  {
    assert Inv(s);
    AttemptsCountFailures(s, steps, s', p);
  }

  /** A peer that failed and has no entry left is never attempted again, in any run whatsoever. */
  lemma {:induction false} DrainedPeersStayOut(s: System, steps: seq<Step>, s': System, p: PeerID)
    requires Inv(s) && IsRun(s, steps, s') && s.Attempts(p) > 0 && Entries(s, p) == 0
    ensures Failures(s, steps, p) == 0 && NoSuccess(s, steps, p)
    ensures Entries(s', p) == 0 && s'.Attempts(p) > 0
    decreases |steps|
  {
    if steps != [] {
      assert !Picks(steps[0], p);
      EntriesStep(s, steps[0], p);
      InvStep(s, steps[0]);
      PotentialStep(s, steps[0], p);
      DrainedPeersStayOut(Apply(s, steps[0]), steps[1..], s', p);
    }
  }

  // ---------- the counters the workers and the scan share ----------

  /** The stored peers a scan considers: never failed or last succeeded, wanted, and not connected. */
  function Eligible(stored: seq<PeerID>, attempts: map<PeerID, nat>, wanted: PeerID -> bool, connected: set<PeerID>): (es: seq<PeerID>)
    ensures forall p :: p in es <==> p in stored && (p !in attempts || attempts[p] == 0) && wanted(p) && p !in connected
    ensures |es| <= |stored|
  {
    if stored == [] then []
    else
      var front, p := Eligible(stored[..|stored| - 1], attempts, wanted, connected), stored[|stored| - 1];
      assert stored == stored[..|stored| - 1] + [p];
      if (p !in attempts || attempts[p] == 0) && wanted(p) && p !in connected then front + [p] else front
  }

  /** Whom a scan considers is decided peer by peer, and the stored order is kept. */
  lemma {:induction false} EligibleConcat(stored: seq<PeerID>, more: seq<PeerID>, attempts: map<PeerID, nat>, wanted: PeerID -> bool, connected: set<PeerID>)
    ensures Eligible(stored + more, attempts, wanted, connected)
            == Eligible(stored, attempts, wanted, connected) + Eligible(more, attempts, wanted, connected)
    decreases |more|
  {
    if more == [] {
      assert stored + more == stored;
    } else {
      var front := more[..|more| - 1];
      assert (stored + more)[..|stored + more| - 1] == stored + front;
      EligibleConcat(stored, front, attempts, wanted, connected);
    }
  }

  lemma EligibleOne(p: PeerID, attempts: map<PeerID, nat>, wanted: PeerID -> bool, connected: set<PeerID>)
    ensures Eligible([p], attempts, wanted, connected)
            == if (p !in attempts || attempts[p] == 0) && wanted(p) && p !in connected then [p] else []
  {
    assert [p][..0] == [];
    assert Eligible([], attempts, wanted, connected) + [p] == [p];
  }

  class AttemptBook {
    const maxRetries: nat
    var peerAttempts: map<PeerID, nat>

    constructor (maxRetries: nat)
      ensures this.maxRetries == maxRetries && peerAttempts == map[]
    {
      this.maxRetries, peerAttempts := maxRetries, map[];
    }

    /** The worker's failure branch, as the Fail step has it. */
    method OnFailure(p: PeerID) returns (retry: Retry)
      modifies this
      ensures var a := (if p in old(peerAttempts) then old(peerAttempts)[p] else 0) + 1;
              && peerAttempts == old(peerAttempts)[p := a]
              && retry == AfterFailure(maxRetries, p, a)
      ensures retry.Trying? && retry.at < ChannelCount(maxRetries) <==> peerAttempts[p] < ChannelCount(maxRetries)
      ensures peerAttempts[p] < ChannelCount(maxRetries) ==> retry == Trying(p, peerAttempts[p])
    {
      var a := (if p in peerAttempts then peerAttempts[p] else 0) + 1;
      peerAttempts := peerAttempts[p := a];
      if a > maxRetries {
        return Ended;
      }
      if a >= PRIORITY_FLOOR {
        a := PRIORITY_FLOOR;
      }
      retry := Trying(p, a);
    }

    method OnSuccess(p: PeerID)
      modifies this
      ensures peerAttempts == old(peerAttempts)[p := 0]
    {
      peerAttempts := peerAttempts[p := 0];
    }

    /** The scan's choice: eligible peers in stored order, as many as the peer limit leaves room for. */
    method PickPeers(storedPeers: seq<PeerID>, wanted: PeerID -> bool, connected: set<PeerID>, count: nat, maxPeers: nat)
      returns (schedules: seq<PeerID>)
      ensures schedules <= Eligible(storedPeers, peerAttempts, wanted, connected)
      ensures schedules != [] ==> count + |schedules| <= maxPeers
      ensures |schedules| < |Eligible(storedPeers, peerAttempts, wanted, connected)| ==> count + |schedules| >= maxPeers
      ensures forall p :: p in schedules ==> p !in peerAttempts || peerAttempts[p] == 0
    {
      schedules := [];
      for i := 0 to |storedPeers|
        invariant schedules == Eligible(storedPeers[..i], peerAttempts, wanted, connected)
      {
        var p := storedPeers[i];
        assert storedPeers[..i + 1][..i] == storedPeers[..i];
        if p !in peerAttempts || peerAttempts[p] == 0 {
          if wanted(p) && p !in connected {
            schedules := schedules + [p];
          }
        }
      }
      assert storedPeers[..|storedPeers|] == storedPeers;
      if count + |schedules| > maxPeers {
        if count >= maxPeers {
          schedules := [];
        } else {
          schedules := schedules[..maxPeers - count];
        }
      }
    }
  }
}
