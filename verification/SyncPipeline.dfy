/** The producer and the consumer of a sync as interleaved steps over the channel between them. */
module SyncPipeline {
  import opened Common
  import opened Sync

  /** The work on each block, whether the request succeeded, and how much the channel buffers. */
  datatype Config<!Block> = Config(work: Work<Block>, syncOk: bool, capacity: nat)

  datatype Consumer = Waiting | Returned(res: SyncResult)

  /** The producer still has todo to push; taken is every block the consumer received. */
  datatype Pipe<Block> = Pipe(
    todo: seq<Block>,
    chan: seq<Block>,
    closed: bool,
    consumer: Consumer,
    taken: seq<Block>,
    processed: seq<Block>,
    stored: seq<Block>)

  datatype Step =
    | Push      // into the buffer
    | Hand      // straight to the waiting consumer
    | Take      // out of the buffer
    | Close     // the request is over
    | Finish    // the consumer sees the closed channel
    | Cancel    // the consumer sees its context done

  function Start<Block>(blocks: seq<Block>): Pipe<Block> {
    Pipe(blocks, [], false, Waiting, [], [], [])
  }

  predicate Enabled<Block(==)>(c: Config<Block>, s: Pipe<Block>, step: Step) {
    match step
    case Push => s.todo != [] && |s.chan| < c.capacity
    case Hand => s.todo != [] && s.chan == [] && s.consumer.Waiting?
    case Take => s.chan != [] && s.consumer.Waiting?
    case Close => s.todo == [] && !s.closed
    case Finish => s.closed && s.chan == [] && s.consumer.Waiting?
    case Cancel => s.consumer.Waiting?
  }

  /** The consumer's work on a block it received. */
  function Receive<Block>(c: Config<Block>, s: Pipe<Block>, b: Block): Pipe<Block> {
    var s1 := s.(taken := s.taken + [b]);
    if c.work.process && !c.work.addBlock(b) then s1.(consumer := Returned(ProcessFailed))
    else
      var s2 := if c.work.process then s1.(processed := s1.processed + [b]) else s1;
      if c.work.store && !c.work.storeBlock(b) then s2.(consumer := Returned(StoreFailed))
      else if c.work.store then s2.(stored := s2.stored + [b])
      else s2
  }

  function Apply<Block(==)>(c: Config<Block>, s: Pipe<Block>, step: Step): Pipe<Block>
    requires Enabled(c, s, step)
  {
    match step
    case Push => s.(todo := s.todo[1..], chan := s.chan + s.todo[..1])
    case Hand => Receive(c, s.(todo := s.todo[1..]), s.todo[0])
    case Take => Receive(c, s.(chan := s.chan[1..]), s.chan[0])
    case Close => s.(closed := true)
    case Finish => s.(consumer := Returned(if c.syncOk then Synced else SyncFailed))
    case Cancel => s.(consumer := Returned(Cancelled))
  }

  ghost predicate IsRun<Block>(c: Config<Block>, s: Pipe<Block>, steps: seq<Step>, s': Pipe<Block>)
    decreases |steps|
  {
    if steps == [] then s == s'
    else Enabled(c, s, steps[0]) && IsRun(c, Apply(c, s, steps[0]), steps[1..], s')
  }

  /** Blocks keep the order they were pushed in, and the consumer has done its work on all it took but perhaps the last. */
  ghost predicate Inv<Block>(c: Config<Block>, s: Pipe<Block>, blocks: seq<Block>) {
    && blocks == s.taken + s.chan + s.todo
    && (s.closed ==> s.todo == [])
    && s.processed <= s.taken && s.stored <= s.taken
    && (c.work.process && c.work.store ==> s.stored <= s.processed && |s.processed| <= |s.stored| + 1)
    && (!c.work.process ==> s.processed == []) && (!c.work.store ==> s.stored == [])
    && (s.consumer.Waiting? || s.consumer.res.Synced? || s.consumer.res.SyncFailed? || s.consumer.res.Cancelled? ==>
          (c.work.process ==> s.processed == s.taken) && (c.work.store ==> s.stored == s.taken))
    && (s.consumer.Returned? && (s.consumer.res.Synced? || s.consumer.res.SyncFailed?) ==> s.taken == blocks)
  }

  /** Receiving the next block and working on it. */
  lemma ReceiveKeeps<Block>(c: Config<Block>, s: Pipe<Block>, s1: Pipe<Block>, b: Block, blocks: seq<Block>)
    requires Inv(c, s, blocks) && s.consumer.Waiting?
    requires s1.(chan := s.chan, todo := s.todo) == s && (s1.closed ==> s1.todo == [])
    requires [b] + s1.chan + s1.todo == s.chan + s.todo
    ensures Inv(c, Receive(c, s1, b), blocks)
  {
    assert s.taken + s.chan + s.todo == s.taken + (s.chan + s.todo);
    assert s.taken + ([b] + s1.chan + s1.todo) == (s.taken + [b]) + s1.chan + s1.todo;
  }

  /** Moving the first block to do into the buffer keeps the order. */
  lemma PushInOrder<Block>(taken: seq<Block>, chan: seq<Block>, todo: seq<Block>)
    requires todo != []
    ensures taken + (chan + todo[..1]) + todo[1..] == taken + chan + todo
  {
    assert todo == todo[..1] + todo[1..];
  }

  lemma InvStep<Block>(c: Config<Block>, s: Pipe<Block>, step: Step, blocks: seq<Block>)
    requires Inv(c, s, blocks) && Enabled(c, s, step)
    ensures Inv(c, Apply(c, s, step), blocks)
  {
    match step
    case Push => PushInOrder(s.taken, s.chan, s.todo);
    case Hand => HandKeeps(c, s, blocks);
    case Take => TakeKeeps(c, s, blocks);
    case Finish => assert s.taken + [] + [] == s.taken;
    case _ =>
  }

  lemma HandKeeps<Block>(c: Config<Block>, s: Pipe<Block>, blocks: seq<Block>)
    requires Inv(c, s, blocks) && Enabled(c, s, Hand)
    ensures Inv(c, Apply(c, s, Hand), blocks)
  {
    assert s.todo == [s.todo[0]] + s.todo[1..];
    ReceiveKeeps(c, s, s.(todo := s.todo[1..]), s.todo[0], blocks);
  }

  lemma TakeKeeps<Block>(c: Config<Block>, s: Pipe<Block>, blocks: seq<Block>)
    requires Inv(c, s, blocks) && Enabled(c, s, Take)
    ensures Inv(c, Apply(c, s, Take), blocks)
  {
    assert s.chan == [s.chan[0]] + s.chan[1..];
    ReceiveKeeps(c, s, s.(chan := s.chan[1..]), s.chan[0], blocks);
  }

  lemma {:induction false} RunKeepsInv<Block>(c: Config<Block>, s: Pipe<Block>, steps: seq<Step>, s': Pipe<Block>, blocks: seq<Block>)
    requires Inv(c, s, blocks) && IsRun(c, s, steps, s')
    ensures Inv(c, s', blocks)
    decreases |steps|
  {
    if steps != [] {
      InvStep(c, s, steps[0], blocks);
      RunKeepsInv(c, Apply(c, s, steps[0]), steps[1..], s', blocks);
    }
  }

  /**
   In every interleaving and with any buffering, blocks processed and stored are prefixes of
   the blocks pushed, and a consumer that returns the request's own result did all the work.
   */
  lemma PipelineKeepsOrder<Block>(c: Config<Block>, blocks: seq<Block>, steps: seq<Step>, s': Pipe<Block>)
    requires IsRun(c, Start(blocks), steps, s')
    ensures s'.processed <= blocks && s'.stored <= blocks
    ensures c.work.process && c.work.store ==> s'.stored <= s'.processed && |s'.processed| <= |s'.stored| + 1
    ensures s'.consumer.Returned? && (s'.consumer.res.Synced? || s'.consumer.res.SyncFailed?) ==>
              (c.work.process ==> s'.processed == blocks) && (c.work.store ==> s'.stored == blocks)
  {
    assert [] + [] + blocks == blocks;
    RunKeepsInv(c, Start(blocks), steps, s', blocks);
    assert s'.taken <= blocks;
  }

  // ---------- the outcome of the sequential consumer ----------

  /** At which turn the consumer saw its context done, if it did. */
  function CancelledAt<Block>(s: Pipe<Block>, blocks: seq<Block>): nat {
    if s.consumer.Returned? && s.consumer.res.Cancelled? then |s.taken| else |blocks| + 1
  }

  ghost predicate Sequential<Block>(c: Config<Block>, s: Pipe<Block>, blocks: seq<Block>) {
    && blocks == s.taken + s.chan + s.todo && (s.closed ==> s.todo == [])
    && match s.consumer
       case Waiting =>
         c.work.AllPass(s.taken) && s.processed == c.work.Processed(s.taken) && s.stored == c.work.Stored(s.taken)
       case Returned(res) =>
         Handled(blocks, c.syncOk, c.work, CancelledAt(s, blocks), s.processed, s.stored, res)
  }

  /** Working on the block behind those handled so far. */
  lemma HandledNext<Block>(work: Work<Block>, blocks: seq<Block>, j: nat)
    requires j < |blocks| && work.AllPass(blocks[..j])
    ensures blocks[..j + 1] == blocks[..j] + [blocks[j]]
    ensures work.Passes(blocks[j]) ==> work.AllPass(blocks[..j + 1])
    ensures work.process && !work.addBlock(blocks[j]) ==>
              FailsToProcess(blocks, work, j, work.Processed(blocks[..j]), work.Stored(blocks[..j]))
    ensures (work.process ==> work.addBlock(blocks[j])) && work.store && !work.storeBlock(blocks[j]) ==>
              FailsToStore(blocks, work, j, work.Processed(blocks[..j + 1]), work.Stored(blocks[..j]))
  {
  }

  lemma SequentialReceive<Block>(c: Config<Block>, s: Pipe<Block>, s1: Pipe<Block>, b: Block, blocks: seq<Block>)
    requires Sequential(c, s, blocks) && s.consumer.Waiting?
    requires s1.(chan := s.chan, todo := s.todo) == s && (s1.closed ==> s1.todo == [])
    requires [b] + s1.chan + s1.todo == s.chan + s.todo
    ensures Sequential(c, Receive(c, s1, b), blocks)
  {
    var j := |s.taken|;
    InOrder(s.taken, s.chan, s.todo, b, s1.chan, s1.todo);
    assert blocks[..j] == s.taken && blocks[j] == b;
    HandledNext(c.work, blocks, j);
  }

  lemma InOrder<Block>(taken: seq<Block>, chan: seq<Block>, todo: seq<Block>, b: Block, chan': seq<Block>, todo': seq<Block>)
    requires [b] + chan' + todo' == chan + todo
    ensures taken + chan + todo == (taken + [b]) + chan' + todo'
  {
    assert taken + chan + todo == taken + (chan + todo);
  }

  lemma SequentialStep<Block>(c: Config<Block>, s: Pipe<Block>, step: Step, blocks: seq<Block>)
    requires Sequential(c, s, blocks) && Enabled(c, s, step)
    ensures Sequential(c, Apply(c, s, step), blocks)
  {
    match step
    case Push => PushInOrder(s.taken, s.chan, s.todo);
    case Hand =>
      assert s.todo == [s.todo[0]] + s.todo[1..];
      SequentialReceive(c, s, s.(todo := s.todo[1..]), s.todo[0], blocks);
    case Take =>
      assert s.chan == [s.chan[0]] + s.chan[1..];
      SequentialReceive(c, s, s.(chan := s.chan[1..]), s.chan[0], blocks);
    case Finish => assert s.taken + [] + [] == s.taken;
    case Cancel => assert blocks[..|s.taken|] == s.taken;
    case Close =>
  }

  lemma {:induction false} RunIsSequential<Block>(c: Config<Block>, s: Pipe<Block>, steps: seq<Step>, s': Pipe<Block>, blocks: seq<Block>)
    requires Sequential(c, s, blocks) && IsRun(c, s, steps, s')
    ensures Sequential(c, s', blocks)
    decreases |steps|
  {
    if steps != [] {
      SequentialStep(c, s, steps[0], blocks);
      RunIsSequential(c, Apply(c, s, steps[0]), steps[1..], s', blocks);
    }
  }

  /**
   The sequential consumer is what every interleaving comes to: whatever the schedule and the
   buffer, a consumer that returned did what handling the blocks in order does, cancelled at
   the same turn or not at all.
   */
  lemma PipelineRefinesHandling<Block>(c: Config<Block>, blocks: seq<Block>, steps: seq<Step>, s': Pipe<Block>)
    requires IsRun(c, Start(blocks), steps, s') && s'.consumer.Returned?
    ensures Handled(blocks, c.syncOk, c.work, CancelledAt(s', blocks), s'.processed, s'.stored, s'.consumer.res)
  {
    assert [] + [] + blocks == blocks;
    RunIsSequential(c, Start(blocks), steps, s', blocks);
  }

  // ---------- when the producer is left behind ----------

  /** Nothing can happen any more exactly when the consumer has returned and the producer has either ended or is blocked on a full channel. */
  lemma StuckIff<Block>(c: Config<Block>, s: Pipe<Block>)
    ensures Stuck(c, s) <==> s.consumer.Returned? && if s.todo == [] then s.closed else |s.chan| >= c.capacity
  {
    assert Enabled(c, s, Cancel) <==> s.consumer.Waiting?;
    assert Enabled(c, s, Push) <==> s.todo != [] && |s.chan| < c.capacity;
    assert Enabled(c, s, Close) <==> s.todo == [] && !s.closed;
  }

  ghost predicate Stuck<Block>(c: Config<Block>, s: Pipe<Block>) {
    forall step :: !Enabled(c, s, step)
  }

  /** Once the consumer has returned, the producer gets rid of no more blocks than the channel has room for. */
  lemma {:induction false} ProducerLeftBehind<Block>(c: Config<Block>, s: Pipe<Block>, steps: seq<Step>, s': Pipe<Block>)
    requires IsRun(c, s, steps, s') && s.consumer.Returned? && |s.chan| <= c.capacity
    ensures s'.taken == s.taken && s'.consumer == s.consumer
    ensures |s'.todo| + c.capacity >= |s.todo| + |s.chan|
    decreases |steps|
  {
    if steps != [] {
      ProducerLeftBehind(c, Apply(c, s, steps[0]), steps[1..], s');
    }
  }

  /** Every run ends: two steps at most for a block, the closing of the channel and the return of the consumer. */
  lemma {:induction false} RunsEnd<Block>(c: Config<Block>, s: Pipe<Block>, steps: seq<Step>, s': Pipe<Block>)
    requires IsRun(c, s, steps, s')
    ensures |steps| + StepsLeft(s') <= StepsLeft(s)
    decreases |steps|
  {
    if steps != [] {
      RunsEnd(c, Apply(c, s, steps[0]), steps[1..], s');
    }
  }

  function StepsLeft<Block>(s: Pipe<Block>): nat {
    2 * |s.todo| + |s.chan| + (if s.closed then 0 else 1) + (if s.consumer.Waiting? then 1 else 0)
  }

  /** Some run leaves the producer blocked for ever with a block in hand. */
  ghost predicate CanBlock<Block(!new)>(c: Config<Block>, s: Pipe<Block>) {
    exists steps, s' :: IsRun(c, s, steps, s') && s'.todo != [] && Stuck(c, s')
  }

  lemma CanBlockStep<Block(!new)>(c: Config<Block>, s: Pipe<Block>, step: Step)
    requires Enabled(c, s, step) && CanBlock(c, Apply(c, s, step))
    ensures CanBlock(c, s)
  {
    var steps, s' :| IsRun(c, Apply(c, s, step), steps, s') && s'.todo != [] && Stuck(c, s');
    var more := [step] + steps;
    assert more[1..] == steps;
    assert IsRun(c, s, more, s');
  }

  /** The producer fills the channel and the consumer is cancelled. */
  lemma {:induction false} FillAndCancel<Block(!new)>(c: Config<Block>, s: Pipe<Block>)
    requires s.consumer.Waiting? && |s.chan| <= c.capacity < |s.chan| + |s.todo|
    ensures CanBlock(c, s)
    decreases |s.todo|
  {
    if |s.chan| < c.capacity {
      FillAndCancel(c, Apply(c, s, Push));
      CanBlockStep(c, s, Push);
    } else {
      var s' := Apply(c, s, Cancel);
      StuckIff(c, s');
      assert IsRun(c, s', [], s');
      CanBlockStep(c, s, Cancel);
    }
  }

  lemma {:induction false} ChannelBounded<Block>(c: Config<Block>, s: Pipe<Block>, steps: seq<Step>, s': Pipe<Block>)
    requires IsRun(c, s, steps, s') && |s.chan| <= c.capacity
    ensures |s'.chan| <= c.capacity
    decreases |steps|
  {
    if steps != [] {
      ChannelBounded(c, Apply(c, s, steps[0]), steps[1..], s');
    }
  }

  /**
   When a request can be left hanging: exactly when it has more blocks than the channel has
   room for. No command asks for a buffer, so a single block is enough.
   */
  lemma BlocksIff<Block(!new)>(c: Config<Block>, blocks: seq<Block>)
    ensures CanBlock(c, Start(blocks)) <==> |blocks| > c.capacity
  {
    if |blocks| > c.capacity {
      FillAndCancel(c, Start(blocks));
    }
    if steps, s' :| IsRun(c, Start(blocks), steps, s') && s'.todo != [] && Stuck(c, s') {
      StuckIff(c, s');
      assert [] + [] + blocks == blocks;
      RunKeepsInv(c, Start(blocks), steps, s', blocks);
    }
  }

  /** A block that the chain or the store turns down. */
  predicate Refused<Block>(c: Config<Block>, b: Block) {
    !c.work.Passes(b)
  }

  ghost predicate FirstRefused<Block>(c: Config<Block>, blocks: seq<Block>, j: nat) {
    j < |blocks| && Refused(c, blocks[j]) && forall i :: 0 <= i < j ==> !Refused(c, blocks[i])
  }

  /** Without cancellation the consumer goes on until a block is refused or all are taken. */
  ghost predicate Persistent<Block>(c: Config<Block>, s: Pipe<Block>, blocks: seq<Block>) {
    && blocks == s.taken + s.chan + s.todo && (s.closed ==> s.todo == [])
    && match s.consumer
       case Waiting => AllAccepted(c, s.taken)
       case Returned(res) =>
         if res.Synced? || res.SyncFailed? then s.taken == blocks && AllAccepted(c, blocks)
         else s.taken != [] && FirstRefused(c, blocks, |s.taken| - 1)
  }

  ghost predicate AllAccepted<Block>(c: Config<Block>, bs: seq<Block>) {
    forall i :: 0 <= i < |bs| ==> !Refused(c, bs[i])
  }

  lemma PersistentReceive<Block>(c: Config<Block>, s: Pipe<Block>, s1: Pipe<Block>, b: Block, blocks: seq<Block>)
    requires Persistent(c, s, blocks) && s.consumer.Waiting?
    requires s1.(chan := s.chan, todo := s.todo) == s && (s1.closed ==> s1.todo == [])
    requires [b] + s1.chan + s1.todo == s.chan + s.todo
    ensures Persistent(c, Receive(c, s1, b), blocks)
  {
    assert s.taken + s.chan + s.todo == s.taken + (s.chan + s.todo);
    assert blocks == (s.taken + [b]) + s1.chan + s1.todo;
    assert blocks[|s.taken|] == b;
    assert forall i :: 0 <= i < |s.taken| ==> blocks[i] == s.taken[i];
  }

  lemma PersistentStep<Block>(c: Config<Block>, s: Pipe<Block>, step: Step, blocks: seq<Block>)
    requires Persistent(c, s, blocks) && Enabled(c, s, step) && step != Cancel
    ensures Persistent(c, Apply(c, s, step), blocks)
  {
    match step
    case Push => PushInOrder(s.taken, s.chan, s.todo);
    case Hand =>
      assert s.todo == [s.todo[0]] + s.todo[1..];
      PersistentReceive(c, s, s.(todo := s.todo[1..]), s.todo[0], blocks);
    case Take =>
      assert s.chan == [s.chan[0]] + s.chan[1..];
      PersistentReceive(c, s, s.(chan := s.chan[1..]), s.chan[0], blocks);
    case Finish => assert s.taken + [] + [] == s.taken;
    case Close =>
  }

  lemma {:induction false} RunPersists<Block>(c: Config<Block>, s: Pipe<Block>, steps: seq<Step>, s': Pipe<Block>, blocks: seq<Block>)
    requires Persistent(c, s, blocks) && IsRun(c, s, steps, s') && Cancel !in steps
    ensures Persistent(c, s', blocks)
    decreases |steps|
  {
    if steps != [] {
      PersistentStep(c, s, steps[0], blocks);
      RunPersists(c, Apply(c, s, steps[0]), steps[1..], s', blocks);
    }
  }

  /**
   Without a cancellation the schedule makes no difference: however the run goes, it leaves
   the producer blocked exactly when more blocks follow the first refused one than the
   channel has room for.
   */
  lemma UncancelledBlocksIff<Block>(c: Config<Block>, blocks: seq<Block>, steps: seq<Step>, s': Pipe<Block>)
    requires IsRun(c, Start(blocks), steps, s') && Cancel !in steps && Stuck(c, s')
    ensures s'.todo != [] <==> exists j: nat :: FirstRefused(c, blocks, j) && |blocks| - j - 1 > c.capacity
  {
    assert [] + [] + blocks == blocks;
    RunPersists(c, Start(blocks), steps, s', blocks);
    ChannelBounded(c, Start(blocks), steps, s');
    LeftOver(c, s', blocks);
    if i: nat :| FirstRefused(c, blocks, i) && |blocks| - i - 1 > c.capacity {
      LeftOverAfter(c, s', blocks, i);
    }
  }

  /** A producer that is left over was stopped by a refused block. */
  lemma LeftOver<Block>(c: Config<Block>, s: Pipe<Block>, blocks: seq<Block>)
    requires Persistent(c, s, blocks) && Stuck(c, s)
    ensures s.todo != [] ==> exists j: nat :: FirstRefused(c, blocks, j) && |blocks| - j - 1 > c.capacity
  {
    StuckIff(c, s);
    if s.todo != [] {
      assert |blocks| == |s.taken| + |s.chan| + |s.todo|;
      assert FirstRefused(c, blocks, |s.taken| - 1);
    }
  }

  lemma LeftOverAfter<Block>(c: Config<Block>, s: Pipe<Block>, blocks: seq<Block>, j: nat)
    requires Persistent(c, s, blocks) && Stuck(c, s) && |s.chan| <= c.capacity
    requires FirstRefused(c, blocks, j) && |blocks| - j - 1 > c.capacity
    ensures s.todo != []
  {
    StuckIff(c, s);
    assert !AllAccepted(c, blocks);
    FirstIsOne(c, blocks, j, |s.taken| - 1);
    assert |blocks| == |s.taken| + |s.chan| + |s.todo|;
  }

  lemma FirstIsOne<Block>(c: Config<Block>, blocks: seq<Block>, i: nat, j: nat)
    requires FirstRefused(c, blocks, i) && FirstRefused(c, blocks, j)
    ensures i == j
  {
  }
}
