/** What the metadata book promises over whole runs: refinement, persistence and the fetch budget. */
module MetadataLaws {
  import opened Common
  import opened MetadataBook

  // ---------- the history alone ----------

  /** The number an operation registers for p, 0 if none. */
  function NumberFor(op: Op, p: PeerID): Uint64 {
    match op
    case Claim(id, num, _) => if id == p then num else 0
    case Meta(id, md, _) => if id == p then md.seqNumber else 0
    case _ => 0
  }

  /** The greatest number registered for p, as a claim or with metadata; 0 if none was. */
  function MaxSeen(ops: seq<Op>, p: PeerID): Uint64 {
    if ops == [] then 0 else Max(MaxSeen(ops[..|ops| - 1], p), NumberFor(ops[|ops| - 1], p))
  }

  ghost predicate Registers(ops: seq<Op>, i: nat, p: PeerID) {
    i < |ops| && ops[i].Meta? && ops[i].p == p
  }

  /** The i-th operation is the first to register metadata with the greatest sequence number p has. */
  ghost predicate FirstGreatest(ops: seq<Op>, i: nat, p: PeerID) {
    && Registers(ops, i, p)
    && forall j: nat :: Registers(ops, j, p) ==>
         ops[j].md.seqNumber <= ops[i].md.seqNumber && (j < i ==> ops[j].md.seqNumber < ops[i].md.seqNumber)
  }

  // ---------- refinement of a plain map ----------

  /** The datastore holds nothing for p that is not cached, as in a book that started empty. */
  ghost predicate Covered(b: Book, p: PeerID) {
    (p in b.storedMetas ==> p in b.metadatas) && (p in b.storedClaims ==> p in b.claims)
  }

  ghost predicate ClaimsRefine(b: Book, ops: seq<Op>, p: PeerID) {
    && b.KnownClaim(p) == b.CachedClaim(p) == MaxSeen(ops, p)
    && (p in b.metadatas ==> b.metadatas[p].seqNumber <= MaxSeen(ops, p))
  }

  ghost predicate MetadataRefines(b: Book, ops: seq<Op>, p: PeerID) {
    if p in b.metadatas then exists i: nat :: FirstGreatest(ops, i, p) && b.metadatas[p] == ops[i].md
    else forall i: nat :: !Registers(ops, i, p)
  }

  /** Registrations in a history with one more operation. */
  lemma RegistersSnoc(ops: seq<Op>, op: Op, p: PeerID)
    ensures forall j: nat :: Registers(ops + [op], j, p) <==> Registers(ops, j, p) || (j == |ops| && op.Meta? && op.p == p)
  {
  }

  lemma CoveredStep(b: Book, op: Op, p: PeerID)
    requires Covered(b, p)
    ensures Covered(Apply(b, op), p)
  {
  }

  /** On a covered book whose claim does not trail its metadata, the claim becomes the greater of itself and what is registered. */
  lemma ClaimsStep(b: Book, op: Op, p: PeerID)
    requires Covered(b, p) && (p in b.metadatas ==> b.metadatas[p].seqNumber <= b.CachedClaim(p))
    ensures var b' := Apply(b, op);
            && b'.CachedClaim(p) == Max(b.CachedClaim(p), NumberFor(op, p))
            && (p in b'.metadatas ==> b'.metadatas[p].seqNumber <= b'.CachedClaim(p))
  {
  }

  lemma MetadataAccepted(ops: seq<Op>, op: Op, p: PeerID)
    requires op.Meta? && op.p == p
    requires forall j: nat :: Registers(ops, j, p) ==> ops[j].md.seqNumber < op.md.seqNumber
    ensures FirstGreatest(ops + [op], |ops|, p)
  {
    RegistersSnoc(ops, op, p);
  }

  lemma MetadataKept(ops: seq<Op>, op: Op, i: nat, p: PeerID)
    requires FirstGreatest(ops, i, p)
    requires op.Meta? && op.p == p ==> op.md.seqNumber <= ops[i].md.seqNumber
    ensures FirstGreatest(ops + [op], i, p)
  {
    RegistersSnoc(ops, op, p);
  }

  lemma MetadataStep(b: Book, ops: seq<Op>, op: Op, p: PeerID)
    requires Covered(b, p) && MetadataRefines(b, ops, p)
    ensures MetadataRefines(Apply(b, op), ops + [op], p)
  {
    if p in b.metadatas {
      var i: nat :| FirstGreatest(ops, i, p) && b.metadatas[p] == ops[i].md;
      if op.Meta? && op.p == p && Newer(b, op) {
        MetadataAccepted(ops, op, p);
      } else {
        MetadataKept(ops, op, i, p);
      }
    } else if op.Meta? && op.p == p {
      MetadataAccepted(ops, op, p);
    } else {
      RegistersSnoc(ops, op, p);
    }
  }

  /** One more operation on a covered book that refines its history. */
  lemma HistoryStep(b: Book, ops: seq<Op>, op: Op, p: PeerID)
    requires Covered(b, p) && ClaimsRefine(b, ops, p) && MetadataRefines(b, ops, p)
    ensures var b' := Apply(b, op);
            Covered(b', p) && ClaimsRefine(b', ops + [op], p) && MetadataRefines(b', ops + [op], p)
  {
    assert (ops + [op])[..|ops|] == ops;
    CoveredStep(b, op, p);
    ClaimsStep(b, op, p);
    MetadataStep(b, ops, op, p);
  }

  lemma {:induction false} RunRefinesHistory(ops: seq<Op>, p: PeerID)
    ensures var b := Run(EMPTY, ops); Covered(b, p) && ClaimsRefine(b, ops, p) && MetadataRefines(b, ops, p)
  {
    if ops == [] {
      assert forall i: nat :: !Registers(ops, i, p);
    } else {
      var front, op := ops[..|ops| - 1], ops[|ops| - 1];
      RunRefinesHistory(front, p);
      HistoryStep(Run(EMPTY, front), front, op, p);
      assert ops == front + [op];
    }
  }

  /**
   From an empty datastore, over any calls and whichever datastore calls fail: Metadata
   answers the first-registered metadata with the greatest number, and the claim is the
   greatest number ever registered.
   */
  lemma {:induction false} BookRefinesHistory(ops: seq<Op>, p: PeerID, env: Env)
    ensures var b := Run(EMPTY, ops);
            && Covered(b, p) && ClaimsRefine(b, ops, p) && MetadataRefines(b, ops, p)
            && FoundMeta(b, p, env) == (if p in b.metadatas then Some(b.metadatas[p]) else None)
            && (match FoundClaim(b, p, env) case Some(n) => n case None => 0) == MaxSeen(ops, p)
  {
    RunRefinesHistory(ops, p);
  }

  /** Neither answer ever goes back, and the claim never trails the metadata. */
  lemma NeverBack(ops: seq<Op>, op: Op, p: PeerID)
    ensures var b, b' := Run(EMPTY, ops), Run(EMPTY, ops + [op]);
            && b.KnownClaim(p) <= b'.KnownClaim(p)
            && (p in b.metadatas ==> p in b'.metadatas && b.metadatas[p].seqNumber <= b'.metadatas[p].seqNumber)
            && (p in b'.metadatas ==> b'.metadatas[p].seqNumber <= b'.KnownClaim(p))
  {
    assert (ops + [op])[..|ops|] == ops;
    BookRefinesHistory(ops, p, ALL_OK);
    BookRefinesHistory(ops + [op], p, ALL_OK);
  }

  // ---------- persistence ----------

  /** After a flush whose puts all succeed, a new book on the same datastore gives every answer the old one gave. */
  lemma PersistenceRoundTrip(b: Book, p: PeerID)
    ensures var r := Reopened(FlushedOnly(b, b.claims.Keys, b.metadatas.Keys));
            && FoundMeta(r, p, ALL_OK) == FoundMeta(b, p, ALL_OK)
            && FoundClaim(r, p, ALL_OK) == FoundClaim(b, p, ALL_OK)
  {
    var f := FlushedOnly(b, b.claims.Keys, b.metadatas.Keys);
    assert p in b.metadatas ==> p in f.storedMetas && f.storedMetas[p] == b.metadatas[p];
    assert p in b.claims ==> p in f.storedClaims && f.storedClaims[p] == b.claims[p];
  }

  /** The book after a successful flush, a reopening, and one look at p's claim and metadata. */
  function LookedUpAgain(b: Book, p: PeerID): Book {
    var r := Reopened(FlushedOnly(b, b.claims.Keys, b.metadatas.Keys));
    Apply(Apply(r, GetClaim(p, ALL_OK)), GetMeta(p, ALL_OK))
  }

  /**
   Persistence over whole runs: flushed, reopened and looked up once, a book goes on as if it
   had never been closed, so its answers are those of the two histories joined.
   */
  lemma {:induction false} ReopenedBookRefinesBoth(before: seq<Op>, after: seq<Op>, p: PeerID)
    ensures var b := Run(LookedUpAgain(Run(EMPTY, before), p), after);
            Covered(b, p) && ClaimsRefine(b, before + after, p) && MetadataRefines(b, before + after, p)
    decreases |after|
  {
    if after == [] {
      assert before + after == before;
      BookRefinesHistory(before, p, ALL_OK);
      PersistenceRoundTrip(Run(EMPTY, before), p);
    } else {
      var front, op := after[..|after| - 1], after[|after| - 1];
      ReopenedBookRefinesBoth(before, front, p);
      HistoryStep(Run(LookedUpAgain(Run(EMPTY, before), p), front), before + front, op, p);
      assert before + after == (before + front) + [op];
    }
  }

  /**
   Exactly when one operation makes a peer's claim fall: the claim sits in the datastore but
   was never looked up, and either new metadata with a lower positive number arrives or a
   lower claim arrives while the datastore cannot be read.
   */
  lemma ClaimFallsIff(b: Book, op: Op, p: PeerID)
    ensures Apply(b, op).KnownClaim(p) < b.KnownClaim(p) <==>
            && p !in b.claims && p in b.storedClaims && op.p == p
            && match op
               case Meta(_, md, env) => Newer(b, op) && 0 < md.seqNumber < b.storedClaims[p]
               case Claim(_, num, env) => !env.getClaim && num < b.storedClaims[p]
               case _ => false
  {
  }

  lemma CachedClaimStep(b: Book, op: Op, p: PeerID)
    requires p in b.claims
    ensures p in Apply(b, op).claims && b.claims[p] <= Apply(b, op).claims[p]
  {
  }

  /** Looking a claim up once is enough: from then on it never falls in any run. */
  lemma {:induction false} LookedUpClaimsNeverFall(b: Book, ops: seq<Op>, p: PeerID)
    requires p in b.claims
    ensures p in Run(b, ops).claims && b.claims[p] <= Run(b, ops).claims[p]
  {
    if ops != [] {
      var front := ops[..|ops| - 1];
      LookedUpClaimsNeverFall(b, front, p);
      CachedClaimStep(Run(b, front), ops[|ops| - 1], p);
    }
  }

  /** A reopened book that is handed metadata before its claim was looked up forgets a higher claim. */
  lemma ReopenedBookForgets(p: PeerID)
    ensures var before := Run(EMPTY, [Claim(p, 10, ALL_OK)]);
            var b := Run(Reopened(before), [Meta(p, MetaData(5, []), ALL_OK)]);
            before.KnownClaim(p) == 10 && b.KnownClaim(p) == 5 && p in b.storedClaims && b.storedClaims[p] == 5
  {
    var c, m := Claim(p, 10, ALL_OK), Meta(p, MetaData(5, []), ALL_OK);
    assert [c][..0] == [] && [m][..0] == [];
    assert Run(EMPTY, [c]) == Apply(EMPTY, c);
    var r := Reopened(Apply(EMPTY, c));
    assert Run(r, [m]) == Apply(r, m);
  }

  // ---------- the fetch budget ----------

  /** A fetch registration answered with a count that still permits a request under maxTries. */
  predicate Granted(b: Book, op: Op, p: PeerID, maxTries: nat) {
    op == Fetch(p) && b.Fetches(p) + 1 <= maxTries
  }

  predicate ResetsPeer(b: Book, op: Op, p: PeerID) {
    Resets(b, op) && op.p == p
  }

  /** Requests granted to p since its counter was last reset, or since the start. */
  function GrantsSinceReset(b: Book, ops: seq<Op>, p: PeerID, maxTries: nat): nat {
    if ops == [] then 0
    else
      var front, op := ops[..|ops| - 1], ops[|ops| - 1];
      var before := GrantsSinceReset(b, front, p, maxTries);
      if ResetsPeer(Run(b, front), op, p) then 0
      else if Granted(Run(b, front), op, p, maxTries) then before + 1
      else before
  }

  function ResetCount(b: Book, ops: seq<Op>, p: PeerID): nat {
    if ops == [] then 0
    else
      var front, op := ops[..|ops| - 1], ops[|ops| - 1];
      ResetCount(b, front, p) + if ResetsPeer(Run(b, front), op, p) then 1 else 0
  }

  function TotalGrants(b: Book, ops: seq<Op>, p: PeerID, maxTries: nat): nat {
    if ops == [] then 0
    else
      var front, op := ops[..|ops| - 1], ops[|ops| - 1];
      TotalGrants(b, front, p, maxTries) + if Granted(Run(b, front), op, p, maxTries) then 1 else 0
  }

  /** How one operation moves the counter of a peer. */
  lemma FetchesStep(b: Book, op: Op, p: PeerID)
    ensures Apply(b, op).Fetches(p)
            == if ResetsPeer(b, op, p) then 0 else if op == Fetch(p) then b.Fetches(p) + 1 else b.Fetches(p)
  {
  }

  /**
   The retry budget over every interleaving: between two resets of a peer's counter exactly
   as many requests are granted as the counter has moved within maxTries, so never more
   than maxTries; and over the whole run at most maxTries for each reset and one more.
   */
  lemma {:induction false} RetryBudget(b: Book, ops: seq<Op>, p: PeerID, maxTries: nat)
    ensures var spent := if ResetCount(b, ops, p) == 0 then Min(b.Fetches(p), maxTries) else 0;
            GrantsSinceReset(b, ops, p, maxTries) + spent == Min(Run(b, ops).Fetches(p), maxTries)
    ensures GrantsSinceReset(b, ops, p, maxTries) <= maxTries
    ensures TotalGrants(b, ops, p, maxTries)
            <= maxTries * ResetCount(b, ops, p) + GrantsSinceReset(b, ops, p, maxTries)
  {
    if ops != [] {
      var front, op := ops[..|ops| - 1], ops[|ops| - 1];
      RetryBudget(b, front, p, maxTries);
      FetchesStep(Run(b, front), op, p);
      OneMore(maxTries, ResetCount(b, front, p));
    }
  }

  lemma OneMore(m: nat, k: nat)
    ensures m * (k + 1) == m * k + m
  {
  }

  lemma TotalBudget(b: Book, ops: seq<Op>, p: PeerID, maxTries: nat)
    ensures TotalGrants(b, ops, p, maxTries) <= maxTries * (ResetCount(b, ops, p) + 1)
  {
    RetryBudget(b, ops, p, maxTries);
    OneMore(maxTries, ResetCount(b, ops, p));
  }

  /** In a book that started empty the counter is reset only by metadata new to the book and at least as new as everything seen. */
  lemma ResetOnlyByNewest(ops: seq<Op>, op: Op)
    requires op.Meta?
    ensures Resets(Run(EMPTY, ops), op) <==>
            && op.md.seqNumber >= MaxSeen(ops, op.p)
            && forall i: nat :: Registers(ops, i, op.p) ==> ops[i].md.seqNumber < op.md.seqNumber
  {
    BookRefinesHistory(ops, op.p, op.env);
    var b := Run(EMPTY, ops);
    if op.p in b.metadatas {
      var i: nat :| FirstGreatest(ops, i, op.p) && b.metadatas[op.p] == ops[i].md;
    }
  }
}
