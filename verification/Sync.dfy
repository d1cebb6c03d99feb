/** Syncing blocks by root: a request for a list of roots, its response, and the consumer that processes and stores. */
module Sync {
  import opened Common
  import opened Streams
  import opened Encode
  import opened HandleResponse
  import opened RpcMethod

  // ---------- what a response handler accepted ----------

  /** The chunks the callback did not turn down. */
  function AcceptedChunks(p: Parsed): seq<Chunk> {
    if p.outcome.Failed? && p.outcome.err.Rejected? && p.chunks != [] then p.chunks[..|p.chunks| - 1] else p.chunks
  }

  lemma AcceptedChunksCons(c: Chunk, tail: Parsed)
    requires tail.outcome.Failed? && tail.outcome.err.Rejected? ==> tail.chunks != []
    ensures AcceptedChunks(Prepend([c], tail)) == [c] + AcceptedChunks(tail)
  {
  }

  ghost predicate InOrder(p: Parsed, i: nat, accept: Verdict) {
    && (p.outcome.Failed? && p.outcome.err.Rejected? ==> p.chunks != [])
    && forall j :: 0 <= j < |AcceptedChunks(p)| ==> accept(i + j, AcceptedChunks(p)[j])
  }

  lemma InOrderCons(c: Chunk, tail: Parsed, i: nat, accept: Verdict)
    requires InOrder(tail, i + 1, accept) && accept(i, c)
    ensures InOrder(Prepend([c], tail), i, accept)
  {
    AcceptedChunksCons(c, tail);
    var p := Prepend([c], tail);
    forall j | 0 <= j < |AcceptedChunks(p)|
      ensures accept(i + j, AcceptedChunks(p)[j])
    {
      if j > 0 {
        assert accept(i + 1 + (j - 1), AcceptedChunks(tail)[j - 1]);
      }
    }
  }

  /** Every accepted chunk was accepted at its own index, in order and below the cap. */
  lemma {:induction false} AcceptedInOrder(s: seq<Byte>, end: ReadErr, i: nat, maxCount: nat, maxSize: Uint64, accept: Verdict)
    requires i <= maxCount
    ensures var p := Parse(s, end, i, maxCount, maxSize, accept);
            |p.chunks| <= maxCount - i && InOrder(p, i, accept)
    decreases maxCount - i
  {
    if i < maxCount {
      ParseUnrolled([], s, end, i, maxCount, maxSize, accept);
      match ParseTurn(s, end, i, maxSize, accept)
      case Stop(chunks, outcome) =>
      case Next(chunk, rest) =>
        AcceptedInOrder(rest, end, i + 1, maxCount, maxSize, accept);
        InOrderCons(chunk, Parse(rest, end, i + 1, maxCount, maxSize, accept), i, accept);
    }
  }

  lemma TurnAgrees(s: seq<Byte>, end: ReadErr, i: nat, maxSize: Uint64, f: Verdict, g: Verdict)
    requires forall c: Chunk :: f(i, c) == g(i, c)
    ensures ParseTurn(s, end, i, maxSize, f) == ParseTurn(s, end, i, maxSize, g)
  {
  }

  /** The loop never consults its callback at or beyond the chunk limit. */
  lemma {:induction false} IndexStaysBelowCap(s: seq<Byte>, end: ReadErr, i: nat, maxCount: nat, maxSize: Uint64, f: Verdict, g: Verdict)
    requires forall k: nat, c :: k < maxCount ==> f(k, c) == g(k, c)
    ensures Parse(s, end, i, maxCount, maxSize, f) == Parse(s, end, i, maxCount, maxSize, g)
    decreases maxCount - i
  {
    if i < maxCount {
      TurnAgrees(s, end, i, maxSize, f, g);
      ParseUnrolled([], s, end, i, maxCount, maxSize, f);
      ParseUnrolled([], s, end, i, maxCount, maxSize, g);
      match ParseTurn(s, end, i, maxSize, f)
      case Stop(_, _) =>
      case Next(_, rest) => IndexStaysBelowCap(rest, end, i + 1, maxCount, maxSize, f, g);
    }
  }

  // ---------- by root ----------

  type Root = seq<Byte>

  const SUCCESS_CODE: Byte := 0

  /** Decoding a block and hashing it: the block's root, or nothing for bytes that are no block. */
  type RootOf = seq<Byte> -> Option<Root>

  /** The response callback of the by-root command: only a block with the root requested at its index passes. */
  function ByRootVerdict(req: seq<Root>, rootOf: RootOf): Verdict {
    (i: nat, c: Chunk) => c.code == SUCCESS_CODE && i < |req| && rootOf(c.payload) == Some(req[i])
  }

  /** Payloads whose blocks have the first requested roots, in the requested order. */
  ghost predicate MatchRequest(blocks: seq<seq<Byte>>, req: seq<Root>, rootOf: RootOf) {
    |blocks| <= |req| && forall j :: 0 <= j < |blocks| ==> rootOf(blocks[j]) == Some(req[j])
  }

  function Payloads(cs: seq<Chunk>): (bs: seq<seq<Byte>>)
    ensures |bs| == |cs| && forall j :: 0 <= j < |cs| ==> bs[j] == cs[j].payload
  {
    seq(|cs|, j requires 0 <= j < |cs| => cs[j].payload)
  }

  /** Whatever the peer answers, the blocks pushed are those of a prefix of the requested roots. */
  lemma PushedBlocksMatchRequest(s: seq<Byte>, end: ReadErr, req: seq<Root>, maxSize: Uint64, rootOf: RootOf)
    ensures var p := Parse(s, end, 0, |req|, maxSize, ByRootVerdict(req, rootOf));
            MatchRequest(Payloads(AcceptedChunks(p)), req, rootOf)
  {
    var f := ByRootVerdict(req, rootOf);
    AcceptedInOrder(s, end, 0, |req|, maxSize, f);
    var blocks := AcceptedChunks(Parse(s, end, 0, |req|, maxSize, f));
    forall j | 0 <= j < |blocks|
      ensures rootOf(blocks[j].payload) == Some(req[j])
    {
      assert f(0 + j, blocks[j]);
    }
  }

  /** The bounds test on the index is never what turns a chunk down: the chunk limit is the number of roots. */
  lemma IndexInRange(s: seq<Byte>, end: ReadErr, req: seq<Root>, maxSize: Uint64, rootOf: RootOf, outOfRange: bool)
    ensures var lax: Verdict := (i: nat, c: Chunk) =>
              if i < |req| then c.code == SUCCESS_CODE && rootOf(c.payload) == Some(req[i]) else outOfRange;
            Parse(s, end, 0, |req|, maxSize, lax) == Parse(s, end, 0, |req|, maxSize, ByRootVerdict(req, rootOf))
  {
    var lax: Verdict := (i: nat, c: Chunk) =>
      if i < |req| then c.code == SUCCESS_CODE && rootOf(c.payload) == Some(req[i]) else outOfRange;
    IndexStaysBelowCap(s, end, 0, |req|, maxSize, lax, ByRootVerdict(req, rootOf));
  }

  datatype SyncResult = Synced | SyncFailed | ProcessFailed | StoreFailed | Cancelled

  /** Which work is done on a block, and what the chain and the store accept. */
  datatype Work<!Block> = Work(process: bool, store: bool, addBlock: Block -> bool, storeBlock: Block -> bool)
  {
    predicate Passes(b: Block) {
      (process ==> addBlock(b)) && (store ==> storeBlock(b))
    }

    ghost predicate AllPass(bs: seq<Block>) {
      forall k :: 0 <= k < |bs| ==> Passes(bs[k])
    }

    function Processed(bs: seq<Block>): seq<Block> {
      if process then bs else []
    }

    function Stored(bs: seq<Block>): seq<Block> {
      if store then bs else []
    }
  }

  /**
   How handling a sync ends when the context is seen done at the given turn, if it gets that
   far: cancelled after that many blocks, at the first block that does not pass, or at the
   end of the channel with the request's own result.
   */
  ghost predicate Handled<Block>(pushed: seq<Block>, syncOk: bool, work: Work<Block>, stopAt: nat,
                                 processed: seq<Block>, stored: seq<Block>, res: SyncResult) {
    match res
    case Cancelled =>
      && stopAt <= |pushed| && work.AllPass(pushed[..stopAt])
      && processed == work.Processed(pushed[..stopAt]) && stored == work.Stored(pushed[..stopAt])
    case ProcessFailed =>
      exists j: nat :: j < |pushed| && j < stopAt && FailsToProcess(pushed, work, j, processed, stored)
    case StoreFailed =>
      exists j: nat :: j < |pushed| && j < stopAt && FailsToStore(pushed, work, j, processed, stored)
    case _ =>
      && stopAt > |pushed| && work.AllPass(pushed) && res == (if syncOk then Synced else SyncFailed)
      && processed == work.Processed(pushed) && stored == work.Stored(pushed)
  }

  ghost predicate FailsToProcess<Block>(pushed: seq<Block>, work: Work<Block>, j: nat, processed: seq<Block>, stored: seq<Block>) {
    && j < |pushed| && work.AllPass(pushed[..j]) && work.process && !work.addBlock(pushed[j])
    && processed == pushed[..j] && stored == work.Stored(pushed[..j])
  }

  ghost predicate FailsToStore<Block>(pushed: seq<Block>, work: Work<Block>, j: nat, processed: seq<Block>, stored: seq<Block>) {
    && j < |pushed| && work.AllPass(pushed[..j]) && work.store && !work.storeBlock(pushed[j])
    && (work.process ==> work.addBlock(pushed[j]))
    && processed == work.Processed(pushed[..j + 1]) && stored == pushed[..j]
  }

  /** The outcome is determined by the blocks, the work and the turn of the cancellation. */
  lemma HandledOnce<Block>(pushed: seq<Block>, syncOk: bool, work: Work<Block>, stopAt: nat,
                           p: seq<Block>, q: seq<Block>, res: SyncResult, p': seq<Block>, q': seq<Block>, res': SyncResult)
    requires Handled(pushed, syncOk, work, stopAt, p, q, res) && Handled(pushed, syncOk, work, stopAt, p', q', res')
    ensures p == p' && q == q' && res == res'
  {
    var j, j' := StopsAt(pushed, syncOk, work, stopAt, p, q, res), StopsAt(pushed, syncOk, work, stopAt, p', q', res');
    PassesBefore(pushed, work, j, j');
    PassesBefore(pushed, work, j', j);
  }

  lemma PassesBefore<Block>(bs: seq<Block>, work: Work<Block>, j: nat, k: nat)
    ensures k < j <= |bs| && work.AllPass(bs[..j]) ==> work.Passes(bs[k])
  {
    if k < j <= |bs| {
      assert bs[..j][k] == bs[k];
    }
  }

  /** The block at which handling stops, or the number of blocks handled. */
  ghost function StopsAt<Block>(pushed: seq<Block>, syncOk: bool, work: Work<Block>, stopAt: nat,
                                p: seq<Block>, q: seq<Block>, res: SyncResult): (j: nat)
    requires Handled(pushed, syncOk, work, stopAt, p, q, res)
    ensures j <= |pushed| && j <= stopAt && work.AllPass(pushed[..j])
    ensures res.Cancelled? ==> j == stopAt && p == work.Processed(pushed[..j]) && q == work.Stored(pushed[..j])
    ensures res.ProcessFailed? ==> j < stopAt && FailsToProcess(pushed, work, j, p, q)
    ensures res.StoreFailed? ==> j < stopAt && FailsToStore(pushed, work, j, p, q)
    ensures res.Synced? || res.SyncFailed? ==> j == |pushed| < stopAt
  {
    match res
    case Cancelled => stopAt
    case ProcessFailed => var j: nat :| j < |pushed| && j < stopAt && FailsToProcess(pushed, work, j, p, q); j
    case StoreFailed => var j: nat :| j < |pushed| && j < stopAt && FailsToStore(pushed, work, j, p, q); j
    case _ => assert pushed[..|pushed|] == pushed; |pushed|
  }

  /**
   handleSync.handle: takes blocks off the channel in the order they were pushed. pushed is
   everything the producer gets to push; at turn stopAt, if it comes, the context is seen done.
   */
  method HandleSync<Block>(pushed: seq<Block>, syncOk: bool, work: Work<Block>, stopAt: nat)
    returns (processed: seq<Block>, stored: seq<Block>, res: SyncResult)
    ensures Handled(pushed, syncOk, work, stopAt, processed, stored, res)
    ensures res.Cancelled? <==> stopAt <= |pushed| && forall k :: 0 <= k < stopAt ==> work.Passes(pushed[k])
    ensures res.Synced? || res.SyncFailed? <==> stopAt > |pushed| && forall k :: 0 <= k < |pushed| ==> work.Passes(pushed[k])
    ensures processed <= pushed && stored <= pushed
    ensures work.process && work.store ==> stored <= processed && |processed| <= |stored| + 1
  {
    processed, stored := [], [];
    var i := 0;
    while true
      invariant 0 <= i <= |pushed| && i <= stopAt
      invariant work.AllPass(pushed[..i])
      invariant processed == work.Processed(pushed[..i]) && stored == work.Stored(pushed[..i])
      decreases |pushed| - i
    {
      assert forall k :: 0 <= k < i ==> pushed[..i][k] == pushed[k];
      if i == stopAt {
        return processed, stored, Cancelled;
      }
      if i == |pushed| { // channel closed
        break;
      }
      var block := pushed[i];
      assert pushed[..i + 1] == pushed[..i] + [block];
      if work.process {
        if !work.addBlock(block) {
          assert FailsToProcess(pushed, work, i, processed, stored);
          return processed, stored, ProcessFailed;
        }
        processed := processed + [block];
      }
      if work.store {
        if !work.storeBlock(block) {
          assert FailsToStore(pushed, work, i, processed, stored);
          return processed, stored, StoreFailed;
        }
        stored := stored + [block];
      }
      i := i + 1;
    }
    assert pushed[..|pushed|] == pushed;
    res := if syncOk then Synced else SyncFailed;
  }

  /** By-root sync over any stream: blocks processed and stored have a prefix of the requested roots, in order. */
  method SyncByRoot(r: Stream, req: seq<Root>, maxSize: Uint64, rootOf: RootOf, work: Work<seq<Byte>>, stopAt: nat)
    returns (processed: seq<seq<Byte>>, stored: seq<seq<Byte>>, res: SyncResult)
    requires r.Valid() && r.taken == [] && !r.eager && |req| < TWO_64
    modifies r
    ensures MatchRequest(processed, req, rootOf) && MatchRequest(stored, req, rootOf)
    ensures var p := Parse(old(r.rest), r.end, 0, |req|, maxSize, ByRootVerdict(req, rootOf));
            Handled(Payloads(AcceptedChunks(p)), p.outcome.Done?, work, stopAt, processed, stored, res)
  {
    PushedBlocksMatchRequest(r.rest, r.end, req, maxSize, rootOf);
    var seen, outcome := HandleChunks(r, |req|, maxSize, ByRootVerdict(req, rootOf));
    var pushed := Payloads(AcceptedChunks(Parsed(seen, outcome)));
    processed, stored, res := HandleSync(pushed, outcome.Done?, work, stopAt);
  }

  /** A server that answers a request with the blocks asked for, in order: a success chunk for each root. */
  ghost predicate Answers(cs: seq<Chunk>, req: seq<Root>, maxSize: Uint64, rootOf: RootOf) {
    && |cs| <= |req|
    && forall j :: 0 <= j < |cs| ==> cs[j].code == SUCCESS_CODE && Fits(cs[j], maxSize) && rootOf(cs[j].payload) == Some(req[j])
  }

  /** Such an answer is pushed whole, and without an error if the stream ends in order or all roots were answered. */
  lemma AnswersArePushed(cs: seq<Chunk>, end: ReadErr, req: seq<Root>, maxSize: Uint64, rootOf: RootOf)
    requires Answers(cs, req, maxSize, rootOf) && maxSize < TWO_63
    ensures var p := Parse(Frames(cs), end, 0, |req|, maxSize, ByRootVerdict(req, rootOf));
            && Payloads(AcceptedChunks(p)) == Payloads(cs)
            && (p.outcome.Done? <==> end == EOF || |cs| == |req|)
  {
    AllChunksArrive(cs, end, |req|, maxSize, ByRootVerdict(req, rootOf));
    assert cs[..|cs|] == cs;
  }
}
