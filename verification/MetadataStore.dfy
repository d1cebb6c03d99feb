/** What the datastore under the metadata book holds at any moment, without a flush: the state a crash leaves behind. */
module MetadataStore {
  import opened Common
  import opened MetadataBook
  import opened MetadataLaws

  // ---------- when a registration is news ----------

  /** The i-th operation claims a number for p, or registers metadata with a positive one. */
  ghost predicate Numbers(ops: seq<Op>, i: nat, p: PeerID) {
    i < |ops| && (ops[i].Claim? || ops[i].Meta?) && ops[i].p == p && (ops[i].Meta? ==> ops[i].md.seqNumber > 0)
  }

  ghost predicate Known(ops: seq<Op>, p: PeerID) {
    exists i: nat :: Numbers(ops, i, p)
  }

  lemma KnownSnoc(ops: seq<Op>, op: Op, p: PeerID)
    ensures Known(ops + [op], p) <==>
            Known(ops, p) || ((op.Claim? || op.Meta?) && op.p == p && (op.Meta? ==> op.md.seqNumber > 0))
  {
    var more := ops + [op];
    assert forall i: nat :: i < |ops| ==> more[i] == ops[i];
    assert more[|ops|] == op;
    if Known(ops, p) {
      var i: nat :| Numbers(ops, i, p);
      assert Numbers(more, i, p);
    }
    if (op.Claim? || op.Meta?) && op.p == p && (op.Meta? ==> op.md.seqNumber > 0) {
      assert Numbers(more, |ops|, p);
    }
    if i: nat :| Numbers(more, i, p) {
      assert i < |ops| ==> Numbers(ops, i, p);
    }
  }

  lemma ClaimStaysKnown(b: Book, op: Op, p: PeerID)
    requires Covered(b, p)
    ensures p in Apply(b, op).claims <==>
            p in b.claims || (op.Claim? && op.p == p) || (op.Meta? && op.p == p && Newer(b, op) && op.md.seqNumber > b.CachedClaim(p))
  {
  }

  lemma {:induction false} CachedIffKnown(ops: seq<Op>, p: PeerID)
    ensures p in Run(EMPTY, ops).claims <==> Known(ops, p)
  {
    if ops != [] {
      var front, op := ops[..|ops| - 1], ops[|ops| - 1];
      var b := Run(EMPTY, front);
      CachedIffKnown(front, p);
      RunRefinesHistory(front, p);
      ClaimStaysKnown(b, op, p);
      KnownSnoc(front, op, p);
      assert ops == front + [op];
    }
  }

  /** What the registering calls answer, from the history alone. */
  lemma NewsIff(ops: seq<Op>, op: Op)
    ensures op.Claim? ==> (Newer(Run(EMPTY, ops), op) <==> op.num > MaxSeen(ops, op.p) || !Known(ops, op.p))
    ensures op.Meta? ==> (Newer(Run(EMPTY, ops), op) <==>
                            forall i: nat :: Registers(ops, i, op.p) ==> ops[i].md.seqNumber < op.md.seqNumber)
  {
    var b := Run(EMPTY, ops);
    if op.Claim? || op.Meta? {
      RunRefinesHistory(ops, op.p);
      CachedIffKnown(ops, op.p);
    }
    if op.Meta? && op.p in b.metadatas {
      var i: nat :| FirstGreatest(ops, i, op.p) && b.metadatas[op.p] == ops[i].md;
    }
  }

  // ---------- puts that succeed ----------

  predicate PutsOk(op: Op) {
    !op.Fetch? ==> op.env.putMeta && op.env.putClaim
  }

  lemma WrittenThrough(b: Book, op: Op)
    requires b.storedMetas == b.metadatas && b.storedClaims == b.claims && PutsOk(op)
    ensures Apply(b, op).storedMetas == Apply(b, op).metadatas
    ensures Apply(b, op).storedClaims == Apply(b, op).claims
  {
  }

  lemma {:induction false} RunWrittenThrough(ops: seq<Op>)
    requires forall op :: op in ops ==> PutsOk(op)
    ensures Run(EMPTY, ops).storedMetas == Run(EMPTY, ops).metadatas
    ensures Run(EMPTY, ops).storedClaims == Run(EMPTY, ops).claims
  {
    if ops != [] {
      var front := ops[..|ops| - 1];
      RunWrittenThrough(front);
      WrittenThrough(Run(EMPTY, front), ops[|ops| - 1]);
    }
  }

  /**
   Persistence without a flush: as long as the puts succeed, a new book on the same datastore
   answers everything the old one answered, at any moment, if the datastore can be read.
   */
  lemma UnflushedPersistence(ops: seq<Op>, p: PeerID, env: Env)
    requires forall op :: op in ops ==> PutsOk(op)
    ensures var b, r := Run(EMPTY, ops), Reopened(Run(EMPTY, ops));
            && FoundMeta(r, p, env) == (if env.getMeta then FoundMeta(b, p, ALL_OK) else None)
            && FoundClaim(r, p, env) == (if env.getClaim then FoundClaim(b, p, ALL_OK) else None)
  {
    RunWrittenThrough(ops);
  }

  // ---------- puts that may fail ----------

  /** The i-th operation registers metadata newer than any before for p, and gets it stored. */
  ghost predicate StoresMeta(ops: seq<Op>, i: nat, p: PeerID) {
    && Registers(ops, i, p) && ops[i].env.putMeta
    && forall j: nat :: j < i && Registers(ops, j, p) ==> ops[j].md.seqNumber < ops[i].md.seqNumber
  }

  lemma StoresMetaSnoc(ops: seq<Op>, op: Op, p: PeerID, i: nat)
    ensures StoresMeta(ops + [op], i, p) <==>
            StoresMeta(ops, i, p)
            || (i == |ops| && op.Meta? && op.p == p && op.env.putMeta
                && forall j: nat :: Registers(ops, j, p) ==> ops[j].md.seqNumber < op.md.seqNumber)
  {
    RegistersSnoc(ops, op, p);
  }

  ghost predicate LastStoredMeta(ops: seq<Op>, i: nat, p: PeerID) {
    StoresMeta(ops, i, p) && forall j: nat :: j > i ==> !StoresMeta(ops, j, p)
  }

  /** The datastore's entry of p is that of the last operation that stored metadata. */
  ghost predicate MetaStored(b: Book, ops: seq<Op>, p: PeerID) {
    if p in b.storedMetas then exists i: nat :: LastStoredMeta(ops, i, p) && b.storedMetas[p] == ops[i].md
    else forall i: nat :: !StoresMeta(ops, i, p)
  }

  lemma StoredMetaStep(b: Book, op: Op, p: PeerID)
    ensures var b' := Apply(b, op);
            if op.Meta? && op.p == p && Newer(b, op) && op.env.putMeta
            then p in b'.storedMetas && b'.storedMetas[p] == op.md
            else (p in b'.storedMetas <==> p in b.storedMetas) && (p in b.storedMetas ==> b'.storedMetas[p] == b.storedMetas[p])
  {
  }

  /**
   Whatever puts fail: the datastore holds for p the metadata of the last call that
   registered newer metadata and whose put succeeded; a put that fails leaves it alone.
   */
  lemma {:induction false} StoredMetaRefinesHistory(ops: seq<Op>, p: PeerID)
    ensures MetaStored(Run(EMPTY, ops), ops, p)
  {
    if ops == [] {
      assert forall i: nat :: !StoresMeta(ops, i, p);
    } else {
      var front, op := ops[..|ops| - 1], ops[|ops| - 1];
      StoredMetaRefinesHistory(front, p);
      MetaStoredSnoc(Run(EMPTY, front), front, op, p);
      assert ops == front + [op];
    }
  }

  lemma MetaStoredSnoc(b: Book, front: seq<Op>, op: Op, p: PeerID)
    requires MetaStored(b, front, p) && b == Run(EMPTY, front)
    ensures MetaStored(Apply(b, op), front + [op], p)
  {
    var ops := front + [op];
    NewsIff(front, op);
    StoredMetaStep(b, op, p);
    forall i: nat
      ensures StoresMeta(ops, i, p) <==>
              StoresMeta(front, i, p) || (i == |front| && op.Meta? && op.p == p && op.env.putMeta && Newer(b, op))
    {
      StoresMetaSnoc(front, op, p, i);
    }
    if op.Meta? && op.p == p && Newer(b, op) && op.env.putMeta {
      assert LastStoredMeta(ops, |front|, p);
    } else if p in b.storedMetas {
      var i: nat :| LastStoredMeta(front, i, p) && b.storedMetas[p] == front[i].md;
      assert LastStoredMeta(ops, i, p);
    }
  }

  /** The i-th operation brings p's number above all before it, or claims the first one, and gets it stored. */
  ghost predicate StoresClaim(ops: seq<Op>, i: nat, p: PeerID) {
    && i < |ops| && (ops[i].Claim? || ops[i].Meta?) && ops[i].p == p && ops[i].env.putClaim
    && (NumberFor(ops[i], p) > MaxSeen(ops[..i], p) || (ops[i].Claim? && !Known(ops[..i], p)))
  }

  ghost predicate LastStoredClaim(ops: seq<Op>, i: nat, p: PeerID) {
    StoresClaim(ops, i, p) && forall j: nat :: j > i ==> !StoresClaim(ops, j, p)
  }

  ghost predicate ClaimStored(b: Book, ops: seq<Op>, p: PeerID) {
    if p in b.storedClaims then exists i: nat :: LastStoredClaim(ops, i, p) && b.storedClaims[p] == NumberFor(ops[i], p)
    else forall i: nat :: !StoresClaim(ops, i, p)
  }

  /** Whether an operation on a book with this history stores a claim for p. */
  ghost predicate Lifts(ops: seq<Op>, op: Op, p: PeerID) {
    && (op.Claim? || op.Meta?) && op.p == p && op.env.putClaim
    && (NumberFor(op, p) > MaxSeen(ops, p) || (op.Claim? && !Known(ops, p)))
  }

  lemma StoresClaimSnoc(ops: seq<Op>, op: Op, p: PeerID, i: nat)
    ensures StoresClaim(ops + [op], i, p) <==> StoresClaim(ops, i, p) || (i == |ops| && Lifts(ops, op, p))
  {
    var more := ops + [op];
    if i < |ops| {
      assert more[i] == ops[i] && more[..i] == ops[..i];
    } else if i == |ops| {
      assert more[i] == op && more[..i] == ops;
    }
  }

  lemma StoredClaimStep(ops: seq<Op>, op: Op, p: PeerID)
    ensures var b, b' := Run(EMPTY, ops), Apply(Run(EMPTY, ops), op);
            if Lifts(ops, op, p) then p in b'.storedClaims && b'.storedClaims[p] == NumberFor(op, p)
            else (p in b'.storedClaims <==> p in b.storedClaims) && (p in b.storedClaims ==> b'.storedClaims[p] == b.storedClaims[p])
  {
    RunRefinesHistory(ops, p);
    NewsIff(ops, op);
    if op.Meta? && op.p == p && op.md.seqNumber > MaxSeen(ops, p) {
      forall i: nat | Registers(ops, i, p)
        ensures ops[i].md.seqNumber < op.md.seqNumber
      {
        MaxSeenBounds(ops, i, p);
      }
    }
  }

  lemma {:induction false} MaxSeenBounds(ops: seq<Op>, i: nat, p: PeerID)
    requires i < |ops|
    ensures NumberFor(ops[i], p) <= MaxSeen(ops, p)
  {
    if i < |ops| - 1 {
      MaxSeenBounds(ops[..|ops| - 1], i, p);
    }
  }

  /** The same for claims: the last number that was news to the book and whose put succeeded. */
  lemma {:induction false} StoredClaimRefinesHistory(ops: seq<Op>, p: PeerID)
    ensures ClaimStored(Run(EMPTY, ops), ops, p)
  {
    if ops == [] {
      assert forall i: nat :: !StoresClaim(ops, i, p);
    } else {
      var front, op := ops[..|ops| - 1], ops[|ops| - 1];
      assert ops == front + [op];
      StoredClaimRefinesHistory(front, p);
      ClaimStoredSnoc(front, op, p);
    }
  }

  lemma ClaimStoredSnoc(front: seq<Op>, op: Op, p: PeerID)
    requires ClaimStored(Run(EMPTY, front), front, p)
    ensures ClaimStored(Run(EMPTY, front + [op]), front + [op], p)
  {
    var b, ops := Run(EMPTY, front), front + [op];
    assert ops[..|front|] == front;
    StoredClaimStep(front, op, p);
    forall i: nat
      ensures StoresClaim(ops, i, p) <==> StoresClaim(front, i, p) || (i == |front| && Lifts(front, op, p))
    {
      StoresClaimSnoc(front, op, p, i);
    }
    if Lifts(front, op, p) {
      assert LastStoredClaim(ops, |front|, p);
    } else if p in b.storedClaims {
      var i: nat :| LastStoredClaim(front, i, p) && b.storedClaims[p] == NumberFor(front[i], p);
      assert LastStoredClaim(ops, i, p);
    }
  }
}
