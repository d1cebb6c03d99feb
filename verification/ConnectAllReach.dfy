/** Which peers the auto-connect command can still attempt, and how it loses one for good. */
module ConnectAllReach {
  import opened Common
  import opened PeerChannels
  import opened ConnectAll

  // ---------- attempting a peer ----------

  /** A worker holds p. */
  ghost predicate Held(s: System, p: PeerID) {
    exists w :: 0 <= w < |s.workers| && s.workers[w].Attempting? && s.workers[w].p == p
  }

  ghost predicate Alive(s: System, w: nat) {
    w < |s.workers| && s.workers[w] != Stopped
  }

  /** Some run from s gets to an attempt at p. */
  ghost predicate CanAttempt(s: System, p: PeerID) {
    exists steps, s' :: IsRun(s, steps, s') && Held(s', p)
  }

  lemma HeldNow(s: System, p: PeerID)
    requires Held(s, p)
    ensures CanAttempt(s, p)
  {
    assert IsRun(s, [], s);
  }

  lemma CanAttemptStep(s: System, step: Step, p: PeerID)
    requires Inv(s) && Enabled(s, step) && CanAttempt(Apply(s, step), p)
    ensures CanAttempt(s, p)
  {
    var steps, s' :| IsRun(Apply(s, step), steps, s') && Held(s', p);
    var more := [step] + steps;
    assert more[1..] == steps;
    assert IsRun(s, more, s');
  }

  // ---------- schedulers and consumers left alone ----------

  /** A retry that no other step comes between sends its peer to the first channel with room from where it stands. */
  lemma {:induction false} RetryAlone(s: System, r: nat, c: nat) returns (steps: seq<Step>, s': System)
    requires Inv(s) && r < |s.retries| && s.retries[r].Trying? && FirstWithRoom(s.q, s.retries[r].at, c)
    ensures IsRun(s, steps, s') && forall k :: 0 <= k < |steps| ==> steps[k] in {RetrySend(r), RetryDefault(r)}
    ensures s' == s.(q := s.q.Send(c, s.retries[r].p), retries := s.retries[r := Ended])
    decreases c - s.retries[r].at
  {
    if s.retries[r].at == c {
      steps, s' := [RetrySend(r)], Apply(s, RetrySend(r));
    } else {
      s' := Apply(s, RetryDefault(r));
      InvStep(s, RetryDefault(r));
      var more, s'' := RetryAlone(s', r, c);
      steps, s' := [RetryDefault(r)] + more, s'';
      assert steps[1..] == more;
    }
  }

  /** With no room in any of them it is given up. */
  lemma {:induction false} RetryGivenUp(s: System, r: nat) returns (steps: seq<Step>, s': System)
    requires Inv(s) && r < |s.retries| && s.retries[r].Trying? && FullFrom(s, s.retries[r].at)
    ensures IsRun(s, steps, s') && forall k :: 0 <= k < |steps| ==> steps[k] == RetryDefault(r)
    ensures s' == s.(retries := s.retries[r := Ended])
    decreases s.Channels() - s.retries[r].at
  {
    s' := Apply(s, RetryDefault(r));
    InvStep(s, RetryDefault(r));
    steps := [RetryDefault(r)];
    if s'.retries[r].Trying? {
      var more, s'' := RetryGivenUp(s', r);
      steps, s' := [RetryDefault(r)] + more, s'';
      assert steps[1..] == more;
    }
  }

  ghost predicate FirstWithRoom(q: Queues, at: nat, c: nat) {
    at <= c && q.HasRoom(c) && forall d :: at <= d < c ==> !q.HasRoom(d)
  }

  /** No channel from the given one on has room. */
  ghost predicate FullFrom(s: System, at: nat) {
    forall c :: at <= c < s.Channels() ==> !s.q.HasRoom(c)
  }

  /** A worker that no other step comes between takes the oldest peer of the lowest channel that has one, with that priority. */
  lemma {:induction false} WorkerAlone(s: System, w: nat, level: nat, c: nat) returns (steps: seq<Step>, s': System)
    requires Inv(s) && w < |s.workers| && s.workers[w] == Selecting(level) && level <= c && s.q.Ready(c)
    requires forall d: nat :: d < c ==> !s.q.Ready(d)
    ensures IsRun(s, steps, s') && forall k :: 0 <= k < |steps| ==> steps[k] in {Default(w), Take(w, c)}
    ensures s'.q == s.q.Receive(c) && s'.workers == s.workers[w := Attempting(s.q.chans[c][0], c)]
    decreases c - level
  {
    if level == c {
      steps, s' := [Take(w, c)], Apply(s, Take(w, c));
    } else {
      s' := Apply(s, Default(w));
      InvStep(s, Default(w));
      var more, s'' := WorkerAlone(s', w, level + 1, c);
      steps, s' := [Default(w)] + more, s'';
      assert steps[1..] == more;
    }
  }

  // ---------- entries, one by one ----------

  lemma {:induction false} SumPositive<T>(s: seq<T>, f: T -> nat)
    ensures Sum(s, f) > 0 <==> exists i :: 0 <= i < |s| && f(s[i]) > 0
  {
    if s != [] {
      SumPositive(s[1..], f);
      if f(s[0]) == 0 && Sum(s[1..], f) > 0 {
        var i :| 0 <= i < |s[1..]| && f(s[1..][i]) > 0;
        assert f(s[i + 1]) > 0;
      }
      if i :| 0 <= i < |s| && f(s[i]) > 0 {
        if i > 0 {
          assert f(s[1..][i - 1]) > 0;
        }
      }
    }
  }

  ghost predicate Queued(s: System, p: PeerID) {
    exists c :: 0 <= c < s.Channels() && p in s.q.chans[c]
  }

  ghost predicate Retrying(s: System, p: PeerID) {
    exists r :: 0 <= r < |s.retries| && s.retries[r].Trying? && s.retries[r].p == p && s.retries[r].at < s.Channels()
  }

  /** An entry of p is in a channel, with a worker, in a retry that can still reach a channel, or before the scan. */
  lemma EntryIsSomewhere(s: System, p: PeerID)
    ensures Entries(s, p) > 0 <==> Queued(s, p) || Held(s, p) || Retrying(s, p) || p in s.scan.todo
  {
    SumPositive(s.q.chans, InChannel(p));
    SumPositive(s.workers, AtWorker(p));
    SumPositive(s.retries, InRetry(p, s.Channels()));
    assert Queued(s, p) <==> exists c :: 0 <= c < |s.q.chans| && InChannel(p)(s.q.chans[c]) > 0;
    assert Held(s, p) <==> exists w :: 0 <= w < |s.workers| && AtWorker(p)(s.workers[w]) > 0;
    assert Retrying(s, p) <==> exists r :: 0 <= r < |s.retries| && InRetry(p, s.Channels())(s.retries[r]) > 0;
  }

  // ---------- one worker alone empties the channels ----------

  function Lengths(ch: seq<PeerID>): nat {
    |ch|
  }

  /** How many entries are queued in all. */
  function Backlog(s: System): nat {
    Sum(s.q.chans, Lengths)
  }

  /** How many more selects worker w may go through before it receives. */
  function Patience(s: System, w: nat): nat
    requires w < |s.workers|
  {
    match s.workers[w]
    case Attempting(_, _) => s.Channels() + 1
    case Selecting(level) => Max(0, s.Channels() - level)
    case Stopped => 0
  }

  /** What a step of a worker alone leaves as it is, and how it brings the next receive nearer. */
  ghost predicate Works(s: System, s': System, w: nat) {
    && Inv(s') && Alive(s', w) && s'.Channels() == s.Channels() && s'.retries == s.retries && s'.scan == s.scan
    && (Backlog(s') < Backlog(s) || (Backlog(s') == Backlog(s) && w < |s.workers| && Patience(s', w) < Patience(s, w)))
    && (forall p :: Queued(s, p) ==> Queued(s', p) || Held(s', p))
  }

  lemma TakeWorks(s: System, w: nat, from: nat)
    requires Inv(s) && Enabled(s, Take(w, from))
    ensures Works(s, Apply(s, Take(w, from)), w)
  {
    var s' := Apply(s, Take(w, from));
    InvStep(s, Take(w, from));
    var ch := s.q.chans[from];
    SumUpdate(s.q.chans, Lengths, from, ch[1..]);
    assert s'.workers[w].Attempting? && s'.workers[w].p == ch[0];
    forall p | Queued(s, p)
      ensures Queued(s', p) || Held(s', p)
    {
      var c :| 0 <= c < s.Channels() && p in s.q.chans[c];
      assert ch == [ch[0]] + ch[1..];
      assert p == ch[0] || p in s'.q.chans[c];
    }
  }

  lemma Waits(s: System, step: Step, w: nat)
    requires Inv(s) && Enabled(s, step) && (step == Default(w) || step == Succeed(w))
    ensures Works(s, Apply(s, step), w)
  {
    InvStep(s, step);
    var s' := Apply(s, step);
    forall p | Queued(s, p)
      ensures Queued(s', p)
    {
      var c :| 0 <= c < s.Channels() && p in s.q.chans[c];
      assert p in s'.q.chans[c];
    }
  }

  /** While anything is queued, a worker that has not stopped can get on by itself. */
  lemma WorkerStep(s: System, w: nat, c: nat) returns (step: Step)
    requires Inv(s) && Alive(s, w) && s.q.Ready(c)
    ensures Enabled(s, step) && Works(s, Apply(s, step), w)
  {
    match s.workers[w]
    case Attempting(_, _) =>
      step := Succeed(w);
      Waits(s, step, w);
    case Selecting(level) =>
      if from: nat :| from <= level && s.q.Ready(from) {
        step := Take(w, from);
        TakeWorks(s, w, from);
      } else {
        step := Default(w);
        Waits(s, step, w);
      }
  }

  lemma {:induction false} QueuedIsAttempted(s: System, w: nat, p: PeerID)
    requires Inv(s) && Alive(s, w) && (Queued(s, p) || Held(s, p))
    ensures CanAttempt(s, p)
    decreases Backlog(s), Patience(s, w)
  {
    if Held(s, p) {
      HeldNow(s, p);
    } else {
      var c :| 0 <= c < s.Channels() && p in s.q.chans[c];
      var step := WorkerStep(s, w, c);
      QueuedIsAttempted(Apply(s, step), w, p);
      CanAttemptStep(s, step, p);
    }
  }

  /** A retry gets into the channel it is about to try once workers have made room there. */
  lemma {:induction false} RetryIsAttempted(s: System, w: nat, r: nat, p: PeerID)
    requires Inv(s) && Alive(s, w)
    requires r < |s.retries| && s.retries[r].Trying? && s.retries[r].p == p && s.retries[r].at < s.Channels()
    ensures CanAttempt(s, p)
    decreases Backlog(s), Patience(s, w)
  {
    var at := s.retries[r].at;
    if s.q.HasRoom(at) {
      var s' := Apply(s, RetrySend(r));
      InvStep(s, RetrySend(r));
      assert p in s'.q.chans[at];
      QueuedIsAttempted(s', w, p);
      CanAttemptStep(s, RetrySend(r), p);
    } else {
      var step := WorkerStep(s, w, at);
      RetryIsAttempted(Apply(s, step), w, r, p);
      CanAttemptStep(s, step, p);
    }
  }

  /** So do the peers of a scan, each in its turn. */
  lemma {:induction false} ScannedIsAttempted(s: System, w: nat, p: PeerID)
    requires Inv(s) && Alive(s, w) && s.Channels() > 0 && p in s.scan.todo
    ensures CanAttempt(s, p)
    decreases |s.scan.todo|, Backlog(s), Patience(s, w)
  {
    if s.q.HasRoom(s.scan.at) {
      var s' := Apply(s, ScanSend);
      InvStep(s, ScanSend);
      if p == s.scan.todo[0] {
        assert p in s'.q.chans[s.scan.at];
        QueuedIsAttempted(s', w, p);
      } else {
        ScannedIsAttempted(s', w, p);
      }
      CanAttemptStep(s, ScanSend, p);
    } else {
      var step := WorkerStep(s, w, s.scan.at);
      ScannedIsAttempted(Apply(s, step), w, p);
      CanAttemptStep(s, step, p);
    }
  }

  lemma {:induction false} StoppedForGood(s: System, steps: seq<Step>, s': System)
    requires Inv(s) && IsRun(s, steps, s') && !exists w: nat :: Alive(s, w)
    ensures !exists w: nat :: Alive(s', w)
    decreases |steps|
  {
    if steps != [] {
      var s1 := Apply(s, steps[0]);
      InvStep(s, steps[0]);
      forall w: nat
        ensures !Alive(s1, w)
      {
        assert !Alive(s, w);
      }
      StoppedForGood(s1, steps[1..], s');
    }
  }

  /**
   Whether a peer that has failed can ever be attempted again: exactly when it still has an
   entry somewhere and not all workers have stopped.
   */
  lemma FailedPeerAttemptedIff(s: System, p: PeerID)
    requires Inv(s) && s.Channels() > 0 && s.Attempts(p) > 0
    ensures CanAttempt(s, p) <==> Entries(s, p) > 0 && exists w: nat :: Alive(s, w)
  {
    EntryIsSomewhere(s, p);
    if Entries(s, p) > 0 {
      if w: nat :| Alive(s, w) {
        if Queued(s, p) || Held(s, p) {
          QueuedIsAttempted(s, w, p);
        } else if Retrying(s, p) {
          var r :| 0 <= r < |s.retries| && s.retries[r].Trying? && s.retries[r].p == p && s.retries[r].at < s.Channels();
          RetryIsAttempted(s, w, r, p);
        } else {
          ScannedIsAttempted(s, w, p);
        }
      }
    }
    if steps, s' :| IsRun(s, steps, s') && Held(s', p) {
      EntryIsSomewhere(s', p);
      if Entries(s, p) == 0 {
        DrainedPeersStayOut(s, steps, s', p);
      }
      var w: nat :| w < |s'.workers| && s'.workers[w].Attempting? && s'.workers[w].p == p;
      assert Alive(s', w);
      if !exists w: nat :: Alive(s, w) {
        StoppedForGood(s, steps, s');
      }
    }
  }

  // ---------- losing a peer after one failure ----------

  /** p failed once, has retries left, and no entry any more. */
  ghost predicate Stranded(s: System, p: PeerID) {
    s.Attempts(p) == 1 < s.maxRetries && Entries(s, p) == 0
  }

  ghost predicate CanStrand(s: System, p: PeerID) {
    exists steps, s' :: IsRun(s, steps, s') && Stranded(s', p)
  }

  lemma CanStrandStep(s: System, step: Step, p: PeerID)
    requires Inv(s) && Enabled(s, step) && CanStrand(Apply(s, step), p)
    ensures CanStrand(s, p)
  {
    var steps, s' :| IsRun(Apply(s, step), steps, s') && Stranded(s', p);
    var more := [step] + steps;
    assert more[1..] == steps;
    assert IsRun(s, more, s');
  }

  /** p's first retry is its only entry; only another peer q may be scanned. */
  ghost predicate OnlyRetrying(s: System, p: PeerID, q: PeerID) {
    && Inv(s) && s.maxRetries >= 2 && s.Attempts(p) == 1 && p != q && s.Attempts(q) == 0
    && |s.retries| == 1 && s.retries[0].Trying? && s.retries[0].p == p
    && !Queued(s, p) && !Held(s, p) && (s.scan.todo == [] || s.scan.todo == [q])
  }

  /** With all channels full from there on, the retry falls through them and is given up. */
  lemma {:induction false} FallThrough(s: System, p: PeerID, q: PeerID)
    requires OnlyRetrying(s, p, q) && FullFrom(s, s.retries[0].at)
    ensures CanStrand(s, p)
    decreases s.Channels() - s.retries[0].at
  {
    var s' := Apply(s, RetryDefault(0));
    InvStep(s, RetryDefault(0));
    if s'.retries[0].Trying? {
      FallThrough(s', p, q);
    } else {
      EntryIsSomewhere(s', p);
      assert IsRun(s', [], s');
      assert Stranded(s', p);
    }
    CanStrandStep(s, RetryDefault(0), p);
  }

  /** A scan that finds every channel full gives up the whole round: nobody it still had to schedule is sent anywhere. */
  lemma {:induction false} FullScanGivesUp(s: System) returns (steps: seq<Step>, s': System)
    requires Inv(s) && s.scan.todo != [] && FullFrom(s, s.scan.at)
    ensures IsRun(s, steps, s') && s' == s.(scan := Scan([], 0))
    decreases s.Channels() - s.scan.at
  {
    s' := Apply(s, ScanDefault);
    InvStep(s, ScanDefault);
    steps := [ScanDefault];
    if s'.scan.todo != [] {
      var more, s'' := FullScanGivesUp(s');
      steps, s' := [ScanDefault] + more, s'';
      assert steps[1..] == more;
    }
  }

  function Room(ch: seq<PeerID>): nat {
    Max(0, CAPACITY - |ch|)
  }

  /** Scans that find q again and again fill every channel. */
  lemma {:induction false} FillUp(s: System, p: PeerID, q: PeerID)
    requires OnlyRetrying(s, p, q)
    requires s.scan.todo != [] ==> exists c :: s.scan.at <= c < s.Channels() && s.q.HasRoom(c)
    ensures CanStrand(s, p)
    decreases Sum(s.q.chans, Room), if s.scan.todo == [] then s.Channels() + 1 else s.Channels() - s.scan.at
  {
    if s.scan.todo == [] && FullFrom(s, 0) {
      FallThrough(s, p, q);
    } else {
      var step := if s.scan.todo == [] then ScanPick([q]) else if s.q.HasRoom(s.scan.at) then ScanSend else ScanDefault;
      var s' := Apply(s, step);
      InvStep(s, step);
      if step == ScanSend {
        SumUpdate(s.q.chans, Room, s.scan.at, s.q.chans[s.scan.at] + [q]);
        assert !Queued(s', p);
      }
      FillUp(s', p, q);
      CanStrandStep(s, step, p);
    }
  }

  /** Before any attempt: nobody failed, and there is no retry. */
  ghost predicate Untried(s: System) {
    && Inv(s) && s.maxRetries >= 2 && s.retries == [] && s.attempts == map[]
    && s.workers != [] && forall w :: 0 <= w < |s.workers| ==> s.workers[w] == Selecting(0)
  }

  /** The first worker fails at p, which was scanned once. */
  lemma FailOnce(s: System, p: PeerID, q: PeerID)
    requires Inv(s) && s.maxRetries >= 2 && s.retries == [] && s.attempts == map[] && s.scan.todo == [] && p != q
    requires !Queued(s, p) && s.workers != [] && s.workers[0].Attempting? && s.workers[0].p == p
    requires forall w :: 1 <= w < |s.workers| ==> s.workers[w] == Selecting(0)
    ensures CanStrand(s, p)
  {
    var s' := Apply(s, Fail(0));
    InvStep(s, Fail(0));
    assert !Held(s', p);
    FillUp(s', p, q);
    CanStrandStep(s, Fail(0), p);
  }

  lemma TakeFirst(s: System, p: PeerID, q: PeerID)
    requires Untried(s) && s.scan.todo == [] && p != q
    requires s.q.chans[0] == [p] && forall c :: 1 <= c < s.Channels() ==> s.q.chans[c] == []
    ensures CanStrand(s, p)
  {
    var s' := Apply(s, Take(0, 0));
    InvStep(s, Take(0, 0));
    assert s'.q.chans[0] == [];
    assert !Queued(s', p);
    FailOnce(s', p, q);
    CanStrandStep(s, Take(0, 0), p);
  }

  lemma SendFirst(s: System, p: PeerID, q: PeerID)
    requires Untried(s) && s.scan == Scan([p], 0) && p != q
    requires forall c :: 0 <= c < s.Channels() ==> s.q.chans[c] == []
    ensures CanStrand(s, p)
  {
    var s' := Apply(s, ScanSend);
    InvStep(s, ScanSend);
    assert s'.q.chans[0] == [p];
    TakeFirst(s', p, q);
    CanStrandStep(s, ScanSend, p);
  }

  /**
   From the start a peer can be lost after its first failed attempt exactly when it was meant
   to be retried more than once: its retry finds every channel from the second on full.
   */
  lemma StrandedIff(s: System, p: PeerID)
    requires Init(s) && s.workers != []
    ensures CanStrand(s, p) <==> s.maxRetries >= 2
  {
    if s.maxRetries >= 2 {
      var q := p + "'";
      assert |q| == |p| + 1;
      InvStep(s, ScanPick([p]));
      SendFirst(Apply(s, ScanPick([p])), p, q);
      CanStrandStep(s, ScanPick([p]), p);
    }
    if steps, s' :| IsRun(s, steps, s') && Stranded(s', p) {
      SameConfig(s, steps, s');
    }
  }

  lemma {:induction false} SameConfig(s: System, steps: seq<Step>, s': System)
    requires IsRun(s, steps, s')
    ensures s'.maxRetries == s.maxRetries
    decreases |steps|
  {
    if steps != [] {
      SameConfig(Apply(s, steps[0]), steps[1..], s');
    }
  }
}
