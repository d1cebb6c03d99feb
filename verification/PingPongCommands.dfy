/** The ping and pong commands as they are run, one after the other, and how that fits the interleaved steps. */
module PingPongCommands {
  import opened Common
  import opened MetadataBook
  import opened MetadataLaws
  import opened PingPong
  import opened PingPongRuns

  // ---------- one command is an uninterrupted run ----------

  /** A run of a single command from the book b, without another command in between. */
  ghost predicate RunsAlone(b: Book, command: Command, maxTries: nat, actions: seq<Action>, w: World) {
    && IsRun(Start(b), actions, maxTries, w) && |w.commands| == 1
    && |actions| > 0 && actions[0] == Begin(command)
    && forall k :: 1 <= k < |actions| ==> actions[k].Advance?
  }

  lemma {:induction false} IsRunSnoc(w: World, actions: seq<Action>, maxTries: nat, w1: World, a: Action)
    requires IsRun(w, actions, maxTries, w1) && CanAct(w1, a)
    ensures IsRun(w, actions + [a], maxTries, Act(w1, a, maxTries))
    decreases |actions|
  {
    if actions == [] {
      assert ([] + [a])[1..] == [];
    } else {
      assert (actions + [a])[1..] == actions[1..] + [a];
      IsRunSnoc(Act(w, actions[0], maxTries), actions[1..], maxTries, w1, a);
    }
  }

  lemma OneMoreStep(b: Book, command: Command, maxTries: nat, actions: seq<Action>, w: World, env: Env, outcome: Fetched)
    requires RunsAlone(b, command, maxTries, actions, w) && w.commands[0] != Finished
    ensures var a := Advance(0, env, outcome); RunsAlone(b, command, maxTries, actions + [a], Act(w, a, maxTries))
  {
    IsRunSnoc(Start(b), actions, maxTries, w, Advance(0, env, outcome));
  }

  lemma Begun(b: Book, command: Command, maxTries: nat)
    requires CanAct(Start(b), Begin(command))
    ensures RunsAlone(b, command, maxTries, [Begin(command)], World(b, [command], [], [], []))
  {
    var w := Act(Start(b), Begin(command), maxTries);
    assert [Begin(command)][1..] == [];
    assert w.commands == [command];
  }

  /** A request is made by a command that updates, is not forced, is behind and has a try left. */
  predicate Asks(b: Book, p: PeerID, num: Uint64, maxTries: nat, env: Env) {
    Behind(b, p, num, env) && b.Fetches(p) < maxTries
  }

  predicate NoMeta(ops: seq<Op>) {
    forall op :: op in ops ==> !op.Meta?
  }

  predicate OnlyMetaOf(ops: seq<Op>, p: PeerID) {
    forall op :: op in ops && op.Meta? ==> op.p == p
  }

  /** From its lookup on, a command alone does what the decision does. */
  lemma DecisionRuns(b: Book, command: Command, maxTries: nat, actions: seq<Action>, w: World, env: Env, p: PeerID, num: Uint64)
    returns (actions': seq<Action>, w': World)
    requires RunsAlone(b, command, maxTries, actions, w) && w.commands[0] == Looking(p, num) && w.requests == []
    ensures RunsAlone(b, command, maxTries, actions', w')
    ensures w'.book == Run(w.book, DecisionOps(w.book, p, num, Config(true, false, maxTries), env))
    ensures NoMeta(w.log) ==> NoMeta(w'.log)
    ensures w'.commands[0] == if Asks(w.book, p, num, maxTries, env) then Requesting(p) else Finished
    ensures |w'.requests| == if Asks(w.book, p, num, maxTries, env) then 1 else 0
    ensures forall q :: q in w'.requests ==> q.p == p
  {
    RunTwo(w.book, GetMeta(p, env), Fetch(p));
    OneMoreStep(b, command, maxTries, actions, w, env, Nothing);
    actions', w' := actions + [Advance(0, env, Nothing)], Act(w, Advance(0, env, Nothing), maxTries);
    if Behind(w.book, p, num, env) {
      OneMoreStep(b, command, maxTries, actions', w', env, Nothing);
      actions', w' := actions' + [Advance(0, env, Nothing)], Act(w', Advance(0, env, Nothing), maxTries);
    }
  }

  /** The first steps of a command, up to its lookup. */
  lemma ClaimRuns(b: Book, p: PeerID, reply: Reply, env: Env, maxTries: nat)
    returns (command: Command, actions: seq<Action>, w: World)
    requires !reply.Error?
    ensures command == if reply.Number? then Claiming(p, reply.num) else Looking(p, 0)
    ensures RunsAlone(b, command, maxTries, actions, w)
    ensures w.book == AfterReply(b, p, reply, env) && w.requests == [] && NoMeta(w.log)
    ensures w.commands[0] == Looking(p, if reply.Number? then reply.num else 0)
  {
    command := if reply.Number? then Claiming(p, reply.num) else Looking(p, 0);
    Begun(b, command, maxTries);
    actions, w := [Begin(command)], World(b, [command], [], [], []);
    if reply.Number? {
      OneMoreStep(b, command, maxTries, actions, w, env, Nothing);
      actions, w := actions + [Advance(0, env, Nothing)], Act(w, Advance(0, env, Nothing), maxTries);
    }
  }

  /** A non-forced, updating ping leaves the book, and makes the requests, of its own command run without interruption. */
  method PingIsRun(book: DsMetadataBook, p: PeerID, reply: Reply, outcome: Fetched, maxTries: nat, envs: Envs)
    returns (requested: bool, ghost command: Command, ghost actions: seq<Action>, ghost w: World)
    requires book.Valid() && !reply.Error?
    modifies book, book.ds
    ensures book.Valid()
    ensures command == if reply.Number? then Claiming(p, reply.num) else Looking(p, 0)
    ensures RunsAlone(old(book.State()), command, maxTries, actions, w) && w.commands[0] == Finished
    ensures book.State() == w.book
    ensures |w.requests| == (if requested then 1 else 0) && forall q :: q in w.requests ==> q.p == p
    ensures NoMeta(w.log) || (outcome.Got? && OnlyMetaOf(w.log, p))
  {
    ghost var b := book.State();
    command, actions, w := ClaimRuns(b, p, reply, envs.claim, maxTries);
    actions, w := DecisionRuns(b, command, maxTries, actions, w, envs.lookup, p, if reply.Number? then reply.num else 0);
    requested := Ping(book, p, reply, outcome, Config(true, false, maxTries), envs);
    if requested {
      OneMoreStep(b, command, maxTries, actions, w, envs.register, outcome);
      actions, w := actions + [Advance(0, envs.register, outcome)], Act(w, Advance(0, envs.register, outcome), maxTries);
    }
  }

  /** Serving a ping does too, up to the request, which it leaves to a goroutine of its own. */
  method ListenIsRun(book: DsMetadataBook, p: PeerID, num: Uint64, localSeq: Uint64, maxTries: nat, envs: Envs)
    returns (answer: Answer, spawned: bool, ghost actions: seq<Action>, ghost w: World)
    requires book.Valid()
    modifies book, book.ds
    ensures book.Valid() && answer == Pong(localSeq)
    ensures RunsAlone(old(book.State()), Claiming(p, num), maxTries, actions, w)
    ensures w.commands[0] == if spawned then Requesting(p) else Finished
    ensures book.State() == w.book
    ensures |w.requests| == (if spawned then 1 else 0) && forall q :: q in w.requests ==> q.p == p
    ensures NoMeta(w.log)
  {
    ghost var b, command := book.State(), Claiming(p, num);
    command, actions, w := ClaimRuns(b, p, Number(num), envs.claim, maxTries);
    actions, w := DecisionRuns(b, command, maxTries, actions, w, envs.lookup, p, num);
    answer, spawned := ListenReq(book, p, Number(num), localSeq, Config(true, false, maxTries), envs);
  }

  // ---------- any series of commands ----------

  /** A ping answered, a ping served, or metadata that a request of a served ping brought. */
  datatype Call =
    | Pinged(p: PeerID, reply: Reply, outcome: Fetched, envs: Envs)
    | ServedPing(p: PeerID, ping: Reply, localSeq: Uint64, envs: Envs)
    | Arrived(p: PeerID, md: MetaData, env: Env)

  /** Metadata of p may be registered by the call. */
  predicate Brings(call: Call, p: PeerID) {
    call.p == p && (call.Arrived? || (call.Pinged? && call.outcome.Got?))
  }

  lemma {:induction false} RunAppend(b: Book, x: seq<Op>, y: seq<Op>, p: PeerID, maxTries: nat)
    ensures Run(b, x + y) == Run(Run(b, x), y)
    ensures TotalGrants(b, x + y, p, maxTries) == TotalGrants(b, x, p, maxTries) + TotalGrants(Run(b, x), y, p, maxTries)
  {
    if y == [] {
      assert x + y == x;
    } else {
      var front := y[..|y| - 1];
      assert (x + y)[..|x + y| - 1] == x + front;
      RunAppend(b, x, front, p, maxTries);
    }
  }

  lemma {:induction false} NoMetaNoReset(b: Book, ops: seq<Op>, p: PeerID)
    requires forall op :: op in ops && op.Meta? ==> op.p != p
    ensures ResetCount(b, ops, p) == 0
  {
    if ops != [] {
      NoMetaNoReset(b, ops[..|ops| - 1], p);
    }
  }

  /** The requests to p made by a command alone are those its book calls grant. */
  lemma GrantedAlone(b: Book, command: Command, maxTries: nat, actions: seq<Action>, w: World, p: PeerID)
    requires RunsAlone(b, command, maxTries, actions, w)
    ensures w.book == Run(b, w.log)
    ensures RequestsTo(w.requests, p) == TotalGrants(b, w.log, p, maxTries)
  {
    RunAccounted(b, Start(b), actions, maxTries, w, p);
  }

  lemma RequestsOfOne(requests: seq<Request>, p: PeerID, q: PeerID)
    requires |requests| <= 1 && forall r :: r in requests ==> r.p == p
    ensures RequestsTo(requests, q) == if p == q then |requests| else 0
  {
    if |requests| == 1 {
      assert requests[0].p == p;
      assert requests[..0] == [];
    }
  }

  /** One call of a series: who was asked for metadata, and the book calls it made. */
  method Perform(book: DsMetadataBook, call: Call, maxTries: nat, ghost p: PeerID) returns (asked: bool, ghost log: seq<Op>)
    requires book.Valid()
    modifies book, book.ds
    ensures book.Valid() && book.State() == Run(old(book.State()), log)
    ensures (if asked && call.p == p then 1 else 0) == TotalGrants(old(book.State()), log, p, maxTries)
    ensures Brings(call, p) || forall op :: op in log && op.Meta? ==> op.p != p
  {
    ghost var b, command, actions, w := book.State(), Finished, [], Start(book.State());
    asked, log := false, [];
    match call
    case Pinged(id, reply, outcome, envs) =>
      if reply.Error? {
        asked := Ping(book, id, reply, outcome, Config(true, false, maxTries), envs);
      } else {
        asked, command, actions, w := PingIsRun(book, id, reply, outcome, maxTries, envs);
        GrantedAlone(b, command, maxTries, actions, w, p);
        RequestsOfOne(w.requests, id, p);
        log := w.log;
      }
    case ServedPing(id, ping, localSeq, envs) =>
      var answer;
      if ping.Number? {
        answer, asked, actions, w := ListenIsRun(book, id, ping.num, localSeq, maxTries, envs);
        GrantedAlone(b, Claiming(id, ping.num), maxTries, actions, w, p);
        RequestsOfOne(w.requests, id, p);
        log := w.log;
      } else {
        answer, asked := ListenReq(book, id, ping, localSeq, Config(true, false, maxTries), envs);
      }
    case Arrived(id, md, env) =>
      FetchMetadata(book, id, Got(md), env);
      log := [Meta(id, md, env)];
      assert log[..0] == [];
  }

  /** The commands run one after the other; asked counts the metadata requests to p. */
  method RunCommands(book: DsMetadataBook, calls: seq<Call>, maxTries: nat, p: PeerID) returns (asked: nat, ghost log: seq<Op>)
    requires book.Valid()
    modifies book, book.ds
    ensures book.Valid() && book.State() == Run(old(book.State()), log)
    ensures asked <= maxTries * (ResetCount(old(book.State()), log, p) + 1)
    ensures (forall call :: call in calls ==> !Brings(call, p)) ==> asked <= maxTries
  {
    ghost var b := book.State();
    asked, log := 0, [];
    for i := 0 to |calls|
      invariant book.Valid() && book.State() == Run(b, log)
      invariant asked == TotalGrants(b, log, p, maxTries)
      invariant (forall call :: call in calls ==> !Brings(call, p)) ==> forall op :: op in log && op.Meta? ==> op.p != p
    {
      var more: bool;
      ghost var ops;
      more, ops := Perform(book, calls[i], maxTries, p);
      RunAppend(b, log, ops, p, maxTries);
      asked := asked + if more && calls[i].p == p then 1 else 0;
      log := log + ops;
    }
    TotalBudget(b, log, p, maxTries);
    if forall call :: call in calls ==> !Brings(call, p) {
      NoMetaNoReset(b, log, p);
    }
  }
}
