/** Ping and pong commands interleaved at their book calls: which metadata requests any run makes. */
module PingPongRuns {
  import opened Common
  import opened MetadataBook
  import opened PingPong
  import opened MetadataLaws

  /** One running command towards one peer, between two book calls; at is the log position of its own lookup. */
  datatype Command =
    | Claiming(p: PeerID, num: Uint64)
    | Looking(p: PeerID, num: Uint64)
    | Counting(p: PeerID, num: Uint64, at: nat)
    | Requesting(p: PeerID)
    | Finished

  /** A metadata request that was made: by which command, after which lookup, on which fetch registration. */
  datatype Request = Request(p: PeerID, num: Uint64, command: nat, lookup: nat, grant: nat)

  /** Commands under way on one book; log is every book call made and by whom. */
  datatype World = World(book: Book, commands: seq<Command>, log: seq<Op>, who: seq<nat>, requests: seq<Request>)

  function Start(b0: Book): World {
    World(b0, [], [], [], [])
  }

  datatype Action =
    | Begin(command: Command)                       // a ping answered, or a ping received
    | Advance(i: nat, env: Env, outcome: Fetched)   // command i makes its next book call

  predicate CanAct(w: World, a: Action) {
    match a
    case Begin(command) => command.Claiming? || (command.Looking? && command.num == 0) // a non-success answer skips the claim
    case Advance(i, _, _) => i < |w.commands| && w.commands[i] != Finished
  }

  /** Command i makes a book call and becomes next. */
  function Called(w: World, i: nat, op: Op, next: Command): World
    requires i < |w.commands|
  {
    w.(book := Apply(w.book, op), log := w.log + [op], who := w.who + [i], commands := w.commands[i := next])
  }

  function ActLooking(w: World, i: nat, p: PeerID, num: Uint64, env: Env): World
    requires i < |w.commands|
  {
    Called(w, i, GetMeta(p, env), if Behind(w.book, p, num, env) then Counting(p, num, |w.log|) else Finished)
  }

  function ActCounting(w: World, i: nat, p: PeerID, num: Uint64, at: nat, maxTries: nat): World
    requires i < |w.commands|
  {
    if Granted(w.book, Fetch(p), p, maxTries) then
      Called(w, i, Fetch(p), Requesting(p)).(requests := w.requests + [Request(p, num, i, at, |w.log|)])
    else
      Called(w, i, Fetch(p), Finished)
  }

  function ActRequesting(w: World, i: nat, p: PeerID, env: Env, outcome: Fetched): World
    requires i < |w.commands|
  {
    if outcome.Got? then Called(w, i, Meta(p, outcome.md, env), Finished)
    else w.(commands := w.commands[i := Finished])
  }

  /** A non-forced command's next step, as the sequential methods take it. */
  function Act(w: World, a: Action, maxTries: nat): World
    requires CanAct(w, a)
  {
    match a
    case Begin(command) => w.(commands := w.commands + [command])
    case Advance(i, env, outcome) =>
      match w.commands[i]
      case Claiming(p, num) => Called(w, i, Claim(p, num, env), Looking(p, num))
      case Looking(p, num) => ActLooking(w, i, p, num, env)
      case Counting(p, num, at) => ActCounting(w, i, p, num, at, maxTries)
      case Requesting(p) => ActRequesting(w, i, p, env, outcome)
  }

  ghost predicate IsRun(w: World, actions: seq<Action>, maxTries: nat, w': World)
    decreases |actions|
  {
    if actions == [] then w == w'
    else CanAct(w, actions[0]) && IsRun(Act(w, actions[0], maxTries), actions[1..], maxTries, w')
  }

  // ---------- every request has its own lookup ----------

  /** The book before the k-th call. */
  function BookAt(b0: Book, log: seq<Op>, k: nat): Book
    requires k <= |log|
  {
    Run(b0, log[..k])
  }

  /** Call number at is command i's own lookup of p, and it found the metadata missing or older than num. */
  ghost predicate OwnLookup(b0: Book, log: seq<Op>, who: seq<nat>, i: nat, p: PeerID, num: Uint64, at: nat) {
    && |who| == |log| && at < |log| && who[at] == i
    && log[at].GetMeta? && log[at].p == p
    && Behind(BookAt(b0, log, at), p, num, log[at].env)
  }

  /** No call of command i lies strictly between two positions. */
  ghost predicate Silent(who: seq<nat>, i: nat, from: nat, to: nat) {
    forall r :: from < r < to && r < |who| ==> who[r] != i
  }

  /** A request follows its command's own lookup, with no call of that command in between, and was granted by the counter. */
  ghost predicate Justified(b0: Book, log: seq<Op>, who: seq<nat>, maxTries: nat, q: Request) {
    && OwnLookup(b0, log, who, q.command, q.p, q.num, q.lookup)
    && q.lookup < q.grant < |log| && who[q.grant] == q.command && log[q.grant] == Fetch(q.p)
    && Granted(BookAt(b0, log, q.grant), Fetch(q.p), q.p, maxTries)
    && Silent(who, q.command, q.lookup, q.grant)
  }

  ghost predicate Pending(b0: Book, w: World, i: nat) {
    i < |w.commands| && w.commands[i].Counting? ==>
      var c := w.commands[i];
      OwnLookup(b0, w.log, w.who, i, c.p, c.num, c.at) && Silent(w.who, i, c.at, |w.who|)
  }

  ghost predicate Inv(b0: Book, w: World, maxTries: nat) {
    && w.book == Run(b0, w.log) && |w.who| == |w.log|
    && (forall i: nat :: Pending(b0, w, i))
    && (forall q :: q in w.requests ==> Justified(b0, w.log, w.who, maxTries, q))
  }

  lemma OwnLookupKept(b0: Book, log: seq<Op>, who: seq<nat>, op: Op, j: nat, i: nat, p: PeerID, num: Uint64, at: nat)
    requires OwnLookup(b0, log, who, i, p, num, at)
    ensures OwnLookup(b0, log + [op], who + [j], i, p, num, at)
  {
    assert (log + [op])[..at] == log[..at];
  }

  lemma JustifiedKept(b0: Book, log: seq<Op>, who: seq<nat>, op: Op, j: nat, maxTries: nat, q: Request)
    requires Justified(b0, log, who, maxTries, q)
    ensures Justified(b0, log + [op], who + [j], maxTries, q)
  {
    OwnLookupKept(b0, log, who, op, j, q.command, q.p, q.num, q.lookup);
    assert (log + [op])[..q.grant] == log[..q.grant];
  }

  lemma RunSnoc(b0: Book, log: seq<Op>, op: Op)
    ensures Run(b0, log + [op]) == Apply(Run(b0, log), op)
  {
    assert (log + [op])[..|log|] == log;
  }

  /** A call by command i leaves every other command and every request made as justified as it was. */
  lemma OthersKept(b0: Book, w: World, i: nat, op: Op, next: Command, maxTries: nat)
    requires Inv(b0, w, maxTries) && i < |w.commands|
    ensures var w' := Called(w, i, op, next);
            && w'.book == Run(b0, w'.log) && |w'.who| == |w'.log|
            && (forall j: nat :: j != i ==> Pending(b0, w', j))
            && (forall q :: q in w'.requests ==> Justified(b0, w'.log, w'.who, maxTries, q))
  {
    var w' := Called(w, i, op, next);
    RunSnoc(b0, w.log, op);
    forall j: nat | j != i
      ensures Pending(b0, w', j)
    {
      if j < |w.commands| && w.commands[j].Counting? {
        assert Pending(b0, w, j);
        var c := w.commands[j];
        OwnLookupKept(b0, w.log, w.who, op, i, j, c.p, c.num, c.at);
      }
    }
    forall q | q in w'.requests
      ensures Justified(b0, w'.log, w'.who, maxTries, q)
    {
      JustifiedKept(b0, w.log, w.who, op, i, maxTries, q);
    }
  }

  lemma PlainCallKeeps(b0: Book, w: World, i: nat, op: Op, next: Command, maxTries: nat)
    requires Inv(b0, w, maxTries) && i < |w.commands| && !next.Counting?
    ensures Inv(b0, Called(w, i, op, next), maxTries)
  {
    OthersKept(b0, w, i, op, next, maxTries);
    assert Pending(b0, Called(w, i, op, next), i);
  }

  lemma LookingKeeps(b0: Book, w: World, i: nat, p: PeerID, num: Uint64, env: Env, maxTries: nat)
    requires Inv(b0, w, maxTries) && i < |w.commands|
    ensures Inv(b0, ActLooking(w, i, p, num, env), maxTries)
  {
    var w' := ActLooking(w, i, p, num, env);
    OthersKept(b0, w, i, GetMeta(p, env), w'.commands[i], maxTries);
    assert w'.log[..|w.log|] == w.log;
    assert Pending(b0, w', i);
  }

  lemma CountingKeeps(b0: Book, w: World, i: nat, maxTries: nat)
    requires Inv(b0, w, maxTries) && i < |w.commands| && w.commands[i].Counting?
    ensures var c := w.commands[i]; Inv(b0, ActCounting(w, i, c.p, c.num, c.at, maxTries), maxTries)
  {
    var c := w.commands[i];
    assert Pending(b0, w, i);
    var w' := ActCounting(w, i, c.p, c.num, c.at, maxTries);
    OthersKept(b0, w, i, Fetch(c.p), w'.commands[i], maxTries);
    forall j: nat
      ensures Pending(b0, w', j)
    {
      assert Pending(b0, Called(w, i, Fetch(c.p), w'.commands[i]), j);
    }
    OwnLookupKept(b0, w.log, w.who, Fetch(c.p), i, i, c.p, c.num, c.at);
    assert w'.log[..|w.log|] == w.log;
    if Granted(w.book, Fetch(c.p), c.p, maxTries) {
      assert Justified(b0, w'.log, w'.who, maxTries, Request(c.p, c.num, i, c.at, |w.log|));
    }
  }

  lemma InvStep(b0: Book, w: World, a: Action, maxTries: nat)
    requires Inv(b0, w, maxTries) && CanAct(w, a)
    ensures Inv(b0, Act(w, a, maxTries), maxTries)
  {
    match a
    case Begin(command) => QuietStepKeeps(b0, w, Act(w, a, maxTries), maxTries);
    case Advance(i, env, outcome) =>
      match w.commands[i]
      case Claiming(p, num) => PlainCallKeeps(b0, w, i, Claim(p, num, env), Looking(p, num), maxTries);
      case Looking(p, num) => LookingKeeps(b0, w, i, p, num, env, maxTries);
      case Counting(p, num, at) => CountingKeeps(b0, w, i, maxTries);
      case Requesting(p) =>
        if outcome.Got? {
          PlainCallKeeps(b0, w, i, Meta(p, outcome.md, env), Finished, maxTries);
        } else {
          QuietStepKeeps(b0, w, Act(w, a, maxTries), maxTries);
        }
  }

  /** A step without a book call. */
  lemma QuietStepKeeps(b0: Book, w: World, w': World, maxTries: nat)
    requires Inv(b0, w, maxTries) && w'.(commands := w.commands) == w
    requires forall i: nat :: i < |w'.commands| && w'.commands[i].Counting? ==> i < |w.commands| && w'.commands[i] == w.commands[i]
    ensures Inv(b0, w', maxTries)
  {
    forall i: nat
      ensures Pending(b0, w', i)
    {
      assert Pending(b0, w, i);
    }
  }

  lemma {:induction false} RunKeepsInv(b0: Book, w: World, actions: seq<Action>, maxTries: nat, w': World)
    requires Inv(b0, w, maxTries) && IsRun(w, actions, maxTries, w')
    ensures Inv(b0, w', maxTries)
    decreases |actions|
  {
    if actions != [] {
      InvStep(b0, w, actions[0], maxTries);
      RunKeepsInv(b0, Act(w, actions[0], maxTries), actions[1..], maxTries, w');
    }
  }

  /**
   In any interleaving, on any book, every request follows a lookup made by its own command
   that found the metadata missing or older than the number, and was granted by the counter.
   */
  lemma RequestsOnlyWhenBehind(b0: Book, actions: seq<Action>, maxTries: nat, w': World)
    requires IsRun(Start(b0), actions, maxTries, w')
    ensures forall q :: q in w'.requests ==> Justified(b0, w'.log, w'.who, maxTries, q)
  {
    RunKeepsInv(b0, Start(b0), actions, maxTries, w');
  }

  // ---------- requests overtaken by newer metadata ----------

  /** Metadata at least as new as num is cached for p. */
  predicate Reached(b: Book, p: PeerID, num: Uint64) {
    p in b.metadatas && b.metadatas[p].seqNumber >= num
  }

  ghost predicate RegistersAtLeast(ops: seq<Op>, r: nat, p: PeerID, num: Uint64) {
    Registers(ops, r, p) && ops[r].md.seqNumber >= num
  }

  lemma ReachedIff(ops: seq<Op>, p: PeerID, num: Uint64)
    ensures Reached(Run(EMPTY, ops), p, num) <==> exists r: nat :: RegistersAtLeast(ops, r, p, num)
  {
    BookRefinesHistory(ops, p, ALL_OK);
    var b := Run(EMPTY, ops);
    if p in b.metadatas {
      var i: nat :| FirstGreatest(ops, i, p) && b.metadatas[p] == ops[i].md;
      if b.metadatas[p].seqNumber >= num {
        assert RegistersAtLeast(ops, i, p, num);
      }
    }
  }

  lemma BehindIff(ops: seq<Op>, p: PeerID, num: Uint64, env: Env)
    ensures Behind(Run(EMPTY, ops), p, num, env) <==> !Reached(Run(EMPTY, ops), p, num)
  {
    BookRefinesHistory(ops, p, env);
  }

  /**
   Exactly which requests are made although the metadata already is as new as the number:
   those overtaken between their own lookup and their own count by another command's
   registration. With no such registration none is sent.
   */
  lemma OvertakenIff(log: seq<Op>, who: seq<nat>, maxTries: nat, q: Request)
    requires Justified(EMPTY, log, who, maxTries, q)
    ensures Reached(BookAt(EMPTY, log, q.grant), q.p, q.num) <==>
            exists r: nat :: q.lookup < r < q.grant && who[r] != q.command && RegistersAtLeast(log, r, q.p, q.num)
  {
    var before, upTo := log[..q.lookup], log[..q.grant];
    BehindIff(before, q.p, q.num, log[q.lookup].env);
    ReachedIff(before, q.p, q.num);
    ReachedIff(upTo, q.p, q.num);
    if r: nat :| RegistersAtLeast(upTo, r, q.p, q.num) {
      assert RegistersAtLeast(log, r, q.p, q.num);
      if r < q.lookup {
        assert RegistersAtLeast(before, r, q.p, q.num);
      }
      assert q.lookup < r < q.grant && who[r] != q.command;
    }
    if r: nat :| q.lookup < r < q.grant && who[r] != q.command && RegistersAtLeast(log, r, q.p, q.num) {
      assert RegistersAtLeast(upTo, r, q.p, q.num);
    }
  }

  /** Over any interleaving on a book that started empty, a request finds newer metadata in place only if overtaken. */
  lemma RequestsOvertakenIff(actions: seq<Action>, maxTries: nat, w': World, q: Request)
    requires IsRun(Start(EMPTY), actions, maxTries, w') && q in w'.requests
    ensures Justified(EMPTY, w'.log, w'.who, maxTries, q)
    ensures Reached(BookAt(EMPTY, w'.log, q.grant), q.p, q.num) <==>
            exists r: nat :: q.lookup < r < q.grant && w'.who[r] != q.command && RegistersAtLeast(w'.log, r, q.p, q.num)
  {
    RequestsOnlyWhenBehind(EMPTY, actions, maxTries, w');
    OvertakenIff(w'.log, w'.who, maxTries, q);
  }

  /** Some run from w ends with a request for metadata that is already there. */
  ghost predicate CanOvertake(w: World, maxTries: nat, p: PeerID, num: Uint64) {
    exists actions, w' :: IsRun(w, actions, maxTries, w') && HasOvertaken(w', p, num)
  }

  ghost predicate HasOvertaken(w: World, p: PeerID, num: Uint64) {
    exists q :: q in w.requests && q.p == p && q.num == num && q.grant <= |w.log| && Reached(BookAt(EMPTY, w.log, q.grant), p, num)
  }

  lemma CanOvertakeStep(w: World, a: Action, maxTries: nat, p: PeerID, num: Uint64)
    requires CanAct(w, a) && CanOvertake(Act(w, a, maxTries), maxTries, p, num)
    ensures CanOvertake(w, maxTries, p, num)
  {
    var actions, w' :| IsRun(Act(w, a, maxTries), actions, maxTries, w') && HasOvertaken(w', p, num);
    var more := [a] + actions;
    assert more[1..] == actions;
    assert IsRun(w, more, maxTries, w');
  }

  /** The last step: the second command counts once the metadata is there. */
  lemma SecondCounts(w: World, maxTries: nat, p: PeerID, num: Uint64, at: nat)
    requires Inv(EMPTY, w, maxTries) && |w.commands| == 2 && w.commands[1] == Counting(p, num, at)
    requires Reached(w.book, p, num) && w.book.Fetches(p) == 0 && maxTries >= 1
    ensures CanOvertake(w, maxTries, p, num)
  {
    var a := Advance(1, ALL_OK, Nothing);
    var w' := Act(w, a, maxTries);
    var q := Request(p, num, 1, at, |w.log|);
    assert w'.log[..|w.log|] == w.log;
    assert q in w'.requests;
    assert HasOvertaken(w', p, num);
    assert IsRun(w', [], maxTries, w');
    CanOvertakeStep(w, a, maxTries, p, num);
  }

  /** The first command counts, fetches and registers while the second has only looked. */
  lemma FirstRegisters(w: World, maxTries: nat, p: PeerID, num: Uint64, at: nat)
    requires Inv(EMPTY, w, maxTries) && |w.commands| == 2 && maxTries >= 1
    requires w.commands[0].Counting? && w.commands[0].p == p && w.commands[1] == Counting(p, num, at)
    requires p !in w.book.metadatas && p !in w.book.storedMetas && w.book.CachedClaim(p) <= num && w.book.Fetches(p) == 0
    ensures CanOvertake(w, maxTries, p, num)
  {
    var a1, a2 := Advance(0, ALL_OK, Nothing), Advance(0, ALL_OK, Got(MetaData(num, [])));
    var w1 := Act(w, a1, maxTries);
    InvStep(EMPTY, w, a1, maxTries);
    var w2 := Act(w1, a2, maxTries);
    InvStep(EMPTY, w1, a2, maxTries);
    SecondCounts(w2, maxTries, p, num, at);
    CanOvertakeStep(w1, a2, maxTries, p, num);
    CanOvertakeStep(w, a1, maxTries, p, num);
  }

  /** Both commands look before either counts. */
  lemma BothLook(w: World, maxTries: nat, p: PeerID, num: Uint64)
    requires Inv(EMPTY, w, maxTries) && w.commands == [Looking(p, num), Looking(p, num)] && maxTries >= 1
    requires p !in w.book.metadatas && p !in w.book.storedMetas && w.book.CachedClaim(p) <= num && w.book.Fetches(p) == 0
    ensures CanOvertake(w, maxTries, p, num)
  {
    var a1, a2 := Advance(0, ALL_OK, Nothing), Advance(1, ALL_OK, Nothing);
    var w1 := Act(w, a1, maxTries);
    InvStep(EMPTY, w, a1, maxTries);
    var w2 := Act(w1, a2, maxTries);
    InvStep(EMPTY, w1, a2, maxTries);
    FirstRegisters(w2, maxTries, p, num, |w1.log|);
    CanOvertakeStep(w1, a2, maxTries, p, num);
    CanOvertakeStep(w, a1, maxTries, p, num);
  }

  /** Two pings that announce the same number to an empty book. */
  lemma BothClaim(maxTries: nat, p: PeerID, num: Uint64)
    requires maxTries >= 1
    ensures CanOvertake(World(EMPTY, [Claiming(p, num), Claiming(p, num)], [], [], []), maxTries, p, num)
  {
    var w := World(EMPTY, [Claiming(p, num), Claiming(p, num)], [], [], []);
    var a1, a2 := Advance(0, ALL_OK, Nothing), Advance(1, ALL_OK, Nothing);
    var w1 := Act(w, a1, maxTries);
    InvStep(EMPTY, w, a1, maxTries);
    var w2 := Act(w1, a2, maxTries);
    InvStep(EMPTY, w1, a2, maxTries);
    BothLook(w2, maxTries, p, num);
    CanOvertakeStep(w1, a2, maxTries, p, num);
    CanOvertakeStep(w, a1, maxTries, p, num);
  }

  /**
   That it happens: on an empty book, for every peer and number, some run requests metadata
   that is already there exactly when any try is allowed at all.
   */
  lemma OvertakingHappensIff(p: PeerID, num: Uint64, maxTries: nat)
    ensures CanOvertake(Start(EMPTY), maxTries, p, num) <==> maxTries >= 1
  {
    var w := Start(EMPTY);
    if maxTries >= 1 {
      var a := Begin(Claiming(p, num));
      var w1 := Act(w, a, maxTries);
      BothClaim(maxTries, p, num);
      assert Act(w1, a, maxTries) == World(EMPTY, [Claiming(p, num), Claiming(p, num)], [], [], []);
      CanOvertakeStep(w1, a, maxTries, p, num);
      CanOvertakeStep(w, a, maxTries, p, num);
    }
    if actions, w' :| IsRun(w, actions, maxTries, w') && HasOvertaken(w', p, num) {
      RequestsOnlyWhenBehind(EMPTY, actions, maxTries, w');
    }
  }

  // ---------- the budget ----------

  /** How many requests were made to p. */
  function RequestsTo(requests: seq<Request>, p: PeerID): nat {
    if requests == [] then 0
    else RequestsTo(requests[..|requests| - 1], p) + if requests[|requests| - 1].p == p then 1 else 0
  }

  /** The book is the result of the calls made, and requests were made exactly as the calls grant them. */
  ghost predicate Accounted(b0: Book, w: World, maxTries: nat, p: PeerID) {
    && w.book == Run(b0, w.log)
    && RequestsTo(w.requests, p) == TotalGrants(b0, w.log, p, maxTries)
  }

  lemma GrantsSnoc(b0: Book, log: seq<Op>, op: Op, maxTries: nat, p: PeerID)
    ensures TotalGrants(b0, log + [op], p, maxTries)
            == TotalGrants(b0, log, p, maxTries) + if Granted(Run(b0, log), op, p, maxTries) then 1 else 0
  {
    assert (log + [op])[..|log|] == log;
  }

  /** A call that is not a granted fetch of p makes no request to p. */
  lemma AccountedCall(b0: Book, w: World, i: nat, op: Op, next: Command, maxTries: nat, p: PeerID)
    requires Accounted(b0, w, maxTries, p) && i < |w.commands| && !Granted(w.book, op, p, maxTries)
    ensures Accounted(b0, Called(w, i, op, next), maxTries, p)
  {
    RunSnoc(b0, w.log, op);
    GrantsSnoc(b0, w.log, op, maxTries, p);
  }

  lemma AccountedCounting(b0: Book, w: World, i: nat, q: PeerID, num: Uint64, at: nat, maxTries: nat, p: PeerID)
    requires Accounted(b0, w, maxTries, p) && i < |w.commands|
    ensures Accounted(b0, ActCounting(w, i, q, num, at, maxTries), maxTries, p)
  {
    RunSnoc(b0, w.log, Fetch(q));
    GrantsSnoc(b0, w.log, Fetch(q), maxTries, p);
    var made := Request(q, num, i, at, |w.log|);
    assert (w.requests + [made])[..|w.requests|] == w.requests;
  }

  lemma AccountedStep(b0: Book, w: World, a: Action, maxTries: nat, p: PeerID)
    requires Accounted(b0, w, maxTries, p) && CanAct(w, a)
    ensures Accounted(b0, Act(w, a, maxTries), maxTries, p)
  {
    match a
    case Begin(_) =>
    case Advance(i, env, outcome) =>
      match w.commands[i]
      case Claiming(q, num) => AccountedCall(b0, w, i, Claim(q, num, env), Looking(q, num), maxTries, p);
      case Looking(q, num) =>
        AccountedCall(b0, w, i, GetMeta(q, env), ActLooking(w, i, q, num, env).commands[i], maxTries, p);
      case Counting(q, num, at) => AccountedCounting(b0, w, i, q, num, at, maxTries, p);
      case Requesting(q) =>
        if outcome.Got? {
          AccountedCall(b0, w, i, Meta(q, outcome.md, env), Finished, maxTries, p);
        }
  }

  lemma {:induction false} RunAccounted(b0: Book, w: World, actions: seq<Action>, maxTries: nat, w': World, p: PeerID)
    requires Accounted(b0, w, maxTries, p) && IsRun(w, actions, maxTries, w')
    ensures Accounted(b0, w', maxTries, p)
    decreases |actions|
  {
    if actions != [] {
      AccountedStep(b0, w, actions[0], maxTries, p);
      RunAccounted(b0, Act(w, actions[0], maxTries), actions[1..], maxTries, w', p);
    }
  }

  /** Over any interleaving of pings and pongs, a peer is asked at most maxTries times for each reset of its counter, and once more. */
  lemma RequestsWithinBudget(b0: Book, actions: seq<Action>, maxTries: nat, w': World, p: PeerID)
    requires IsRun(Start(b0), actions, maxTries, w')
    ensures RequestsTo(w'.requests, p) <= maxTries * (ResetCount(b0, w'.log, p) + 1)
  {
    RunAccounted(b0, Start(b0), actions, maxTries, w', p);
    TotalBudget(b0, w'.log, p, maxTries);
  }
}
