/** The ping and pong commands, run alone: when a number learnt about a peer is followed by a metadata request. */
module PingPong {
  import opened Common
  import opened MetadataBook
  import MetadataLaws

  /** What came of a ping, or of reading one: an error, a non-success answer, or a sequence number. */
  datatype Reply = Error | NonSuccess | Number(num: Uint64)

  /** What came of a metadata request. */
  datatype Fetched = Nothing | Got(md: MetaData)

  datatype Config = Config(update: bool, force: bool, maxTries: nat)

  /** Datastore outcomes for the successive book calls of one command. */
  datatype Envs = Envs(claim: Env, lookup: Env, register: Env)

  /** The metadata is missing or older than the number just received. */
  predicate Behind(b: Book, p: PeerID, num: Uint64, env: Env) {
    var current := FoundMeta(b, p, env);
    current.None? || current.value.seqNumber < num
  }

  /** The book operations of the decision, in order. */
  function DecisionOps(b: Book, p: PeerID, num: Uint64, config: Config, env: Env): seq<Op> {
    if config.force || !config.update then []
    else [GetMeta(p, env)] + if Behind(b, p, num, env) then [Fetch(p)] else []
  }

  lemma RunTwo(b: Book, x: Op, y: Op)
    ensures Run(b, [x]) == Apply(b, x) && Run(b, [x] + [y]) == Apply(Apply(b, x), y)
  {
    assert [x][..0] == [] && ([x] + [y])[..1] == [x];
  }

  /** The fetch counter of p went up by one if a try was counted, and no other counter moved. */
  ghost predicate CountsTry(b: Book, b': Book, p: PeerID, counted: bool) {
    && b'.Fetches(p) == b.Fetches(p) + (if counted then 1 else 0)
    && forall q :: q != p ==> b'.Fetches(q) == b.Fetches(q)
  }

  /** The claim, budget and fetch decision shared by both commands. */
  method Decide(book: DsMetadataBook, p: PeerID, num: Uint64, config: Config, env: Env) returns (updating: bool)
    requires book.Valid()
    modifies book
    ensures book.Valid()
    ensures book.State() == Run(old(book.State()), DecisionOps(old(book.State()), p, num, config, env))
    ensures updating ==
              (config.force
               || (config.update && Behind(old(book.State()), p, num, env)
                   && old(book.State()).Fetches(p) < config.maxTries))
    ensures CountsTry(old(book.State()), book.State(), p,
                      !config.force && config.update && Behind(old(book.State()), p, num, env))
  {
    ghost var b := book.State();
    RunTwo(b, GetMeta(p, env), Fetch(p));
    updating := config.force;
    if !updating && config.update {
      var current := book.Metadata(p, env);
      if current.None? || current.value.seqNumber < num {
        var fetches := book.RegisterMetaFetch(p);
        updating := fetches <= config.maxTries;
      }
    }
  }

  /** fetch: metadata that arrives is registered. */
  method FetchMetadata(book: DsMetadataBook, p: PeerID, outcome: Fetched, env: Env)
    requires book.Valid()
    modifies book, book.ds
    ensures book.Valid()
    ensures book.State() == match outcome
                            case Nothing => old(book.State())
                            case Got(md) => Apply(old(book.State()), Meta(p, md, env))
  {
    if outcome.Got? {
      var _ := book.RegisterMetadata(p, outcome.md, env);
    }
  }

  /** The book after the number in a reply was taken note of. */
  function AfterReply(b: Book, p: PeerID, reply: Reply, env: Env): Book {
    if reply.Number? then Apply(b, Claim(p, reply.num, env)) else b
  }

  /** The ping command: a non-success answer leaves the pong number at 0 but still reaches the decision. */
  method Ping(book: DsMetadataBook, p: PeerID, reply: Reply, outcome: Fetched, config: Config, envs: Envs)
    returns (requested: bool)
    requires book.Valid()
    modifies book, book.ds
    ensures book.Valid()
    ensures reply.Error? ==> !requested && book.State() == old(book.State())
    ensures !reply.Error? ==>
              var b1, num := AfterReply(old(book.State()), p, reply, envs.claim), if reply.Number? then reply.num else 0;
              var b2 := Run(b1, DecisionOps(b1, p, num, config, envs.lookup));
              && (requested <==> config.force || (config.update && Behind(b1, p, num, envs.lookup)
                                                  && b1.Fetches(p) < config.maxTries))
              && book.State() == if requested && outcome.Got? then Apply(b2, Meta(p, outcome.md, envs.register)) else b2
  {
    if reply.Error? {
      return false;
    }
    var num := 0;
    if reply.Number? {
      num := reply.num;
      var _ := book.RegisterSeqClaim(p, num, envs.claim);
    }
    requested := Decide(book, p, num, config, envs.lookup);
    if requested {
      FetchMetadata(book, p, outcome, envs.register);
    }
  }

  /** What the serving side answers a ping with. */
  datatype Answer = ErrorChunk | Pong(num: Uint64)

  /** The pong command's listener: a request that cannot be read is answered with an error and leaves no trace in the book. */
  method ListenReq(book: DsMetadataBook, p: PeerID, ping: Reply, localSeq: Uint64, config: Config, envs: Envs)
    returns (answer: Answer, spawned: bool)
    requires book.Valid()
    modifies book, book.ds
    ensures book.Valid()
    ensures !ping.Number? ==> answer == ErrorChunk && !spawned && book.State() == old(book.State())
    ensures ping.Number? ==>
              var b1 := Apply(old(book.State()), Claim(p, ping.num, envs.claim));
              && answer == Pong(localSeq)
              && (spawned <==> config.force || (config.update && Behind(b1, p, ping.num, envs.lookup)
                                                && b1.Fetches(p) < config.maxTries))
              && book.State() == Run(b1, DecisionOps(b1, p, ping.num, config, envs.lookup))
  {
    if !ping.Number? {
      return ErrorChunk, false;
    }
    answer := Pong(localSeq);
    var _ := book.RegisterSeqClaim(p, ping.num, envs.claim);
    spawned := Decide(book, p, ping.num, config, envs.lookup);
  }
}
