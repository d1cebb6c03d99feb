/**
 The array of bounded channels behind the auto-connect command: a scheduler that cascades to
 lower priorities and a consumer built from nested selects.
 */
module PeerChannels {
  import opened Common

  const CAPACITY: nat := 100

  /** The channels, and for each one everything ever sent to it and received from it. */
  datatype Queues = Queues(chans: seq<seq<PeerID>>, sent: seq<seq<PeerID>>, got: seq<seq<PeerID>>)
  {
    /** Nothing is lost, duplicated or reordered: a channel holds what was sent to it and not yet received. */
    ghost predicate Conserved() {
      && |sent| == |got| == |chans|
      && forall c :: 0 <= c < |chans| ==> |chans[c]| <= CAPACITY && sent[c] == got[c] + chans[c]
    }

    predicate HasRoom(c: nat) {
      c < |chans| && |chans[c]| < CAPACITY
    }

    predicate Ready(c: nat) {
      c < |chans| && chans[c] != []
    }

    ghost predicate IdleUpTo(level: nat) {
      forall c: nat :: c <= level ==> !Ready(c)
    }

    function Send(c: nat, p: PeerID): Queues
      requires c < |chans| == |sent|
    {
      this.(chans := chans[c := chans[c] + [p]], sent := sent[c := sent[c] + [p]])
    }

    function Receive(c: nat): Queues
      requires Ready(c) && |chans| == |got|
    {
      this.(chans := chans[c := chans[c][1..]], got := got[c := got[c] + chans[c][..1]])
    }
  }

  lemma SendConserves(q: Queues, c: nat, p: PeerID)
    requires q.Conserved() && q.HasRoom(c)
    ensures q.Send(c, p).Conserved()
  {
    var q' := q.Send(c, p);
    assert q'.sent[c] == q'.got[c] + q'.chans[c];
  }

  lemma ReceiveConserves(q: Queues, c: nat)
    requires q.Conserved() && q.Ready(c)
    ensures q.Receive(c).Conserved()
  {
    var q' := q.Receive(c);
    assert q.chans[c] == q.chans[c][..1] + q.chans[c][1..];
    assert q'.sent[c] == q'.got[c] + q'.chans[c];
  }

  /** What one select of the consumer came to. */
  datatype Selected = Received(p: PeerID, from: nat) | Fallback | CtxDone | Blocks

  class PriorityChannels {
    var chans: seq<seq<PeerID>>
    ghost var sent: seq<seq<PeerID>>
    ghost var got: seq<seq<PeerID>>

    ghost function State(): Queues
      reads this
    {
      Queues(chans, sent, got)
    }

    constructor (max: nat)
      ensures State().Conserved() && |chans| == max
      ensures forall c :: 0 <= c < max ==> chans[c] == sent[c] == []
    {
      chans := seq(max, _ => []);
      sent := seq(max, _ => []);
      got := seq(max, _ => []);
    }

    /** One select: send to a channel, or take the default when it is full. */
    method TrySend(c: nat, p: PeerID) returns (ok: bool)
      requires State().Conserved() && c < |chans|
      modifies this
      ensures State().Conserved()
      ensures ok == old(State()).HasRoom(c)
      ensures State() == if ok then old(State()).Send(c, p) else old(State())
      ensures ok ==> chans == old(chans)[c := old(chans)[c] + [p]] && sent == old(sent)[c := old(sent)[c] + [p]]
    {
      ok := |chans[c]| < CAPACITY;
      if ok {
        SendConserves(State(), c, p);
        chans := chans[c := chans[c] + [p]];
        sent := sent[c := sent[c] + [p]];
      }
    }

    /**
     One select over the context and the channels 0..level: any ready case may be picked; with
     none ready it takes the default if it has one, and otherwise blocks.
     */
    method TryReceive(level: nat, ctxDone: bool, hasDefault: bool) returns (res: Selected)
      requires State().Conserved() && level < |chans|
      modifies this
      ensures State().Conserved()
      ensures res.Fallback? || res.Blocks? <==> !ctxDone && old(State()).IdleUpTo(level)
      ensures res.Fallback? ==> hasDefault
      ensures res.Blocks? ==> !hasDefault
      ensures res.CtxDone? ==> ctxDone
      ensures !res.Received? ==> State() == old(State())
      ensures res.Received? ==> res.from <= level && old(State()).Ready(res.from)
                                && res.p == old(chans)[res.from][0] && State() == old(State()).Receive(res.from)
                                && chans == old(chans)[res.from := old(chans)[res.from][1..]] && sent == old(sent)
    {
      if forall c :: 0 <= c <= level ==> chans[c] == [] {
        return if ctxDone then CtxDone else if hasDefault then Fallback else Blocks;
      }
      var first: bool := *; // with several cases ready, either may be picked
      if ctxDone && first {
        return CtxDone;
      }
      var c :| 0 <= c <= level && chans[c] != [];
      assert State().Ready(c);
      ReceiveConserves(State(), c);
      res := Received(chans[c][0], c);
      got := got[c := got[c] + chans[c][..1]];
      chans := chans[c := chans[c][1..]];
    }

    /** priorityPeerScheduler, undisturbed: the first channel with room at or below the wanted priority. */
    method Schedule(p: PeerID, priority: nat) returns (givenPriority: nat, ok: bool)
      requires State().Conserved()
      modifies this
      ensures State().Conserved()
      ensures ok <==> exists c :: priority <= c < |old(chans)| && old(State()).HasRoom(c)
      ensures ok ==> priority <= givenPriority && old(State()).HasRoom(givenPriority)
                     && (forall c :: priority <= c < givenPriority ==> !old(State()).HasRoom(c))
                     && State() == old(State()).Send(givenPriority, p)
                     && chans == old(chans)[givenPriority := old(chans)[givenPriority] + [p]]
      ensures !ok ==> givenPriority == 0 && State() == old(State())
    {
      var i := priority;
      while i < |chans|
        invariant State() == old(State())
        invariant forall c :: priority <= c < i ==> !old(State()).HasRoom(c)
        invariant priority <= i
      {
        ok := TrySend(i, p);
        if ok {
          return i, true;
        }
        i := i + 1;
      }
      return 0, false;
    }

    /**
     priorityPeerConsumer, undisturbed: serves the oldest peer of the lowest non-empty channel
     and reports that channel's index; blocks when all are empty. Once the context is done a
     default is never taken, so only the first channel can still win.
     */
    method Next(ctxDone: bool) returns (res: Selected, priority: nat)
      requires State().Conserved()
      modifies this
      ensures State().Conserved()
      ensures !ctxDone && |old(chans)| > 0 ==> if exists c: nat :: old(State()).Ready(c) then res.Received? else res.Blocks?
      ensures ctxDone || |old(chans)| == 0 ==> res.CtxDone? || (res.Received? && priority == 0)
      ensures res.Received? ==>
                && priority == res.from && old(State()).Ready(priority)
                && (forall c: nat :: c < priority ==> !old(State()).Ready(c))
                && res.p == old(chans)[priority][0] && State() == old(State()).Receive(priority)
      ensures !res.Received? ==> State() == old(State())
    {
      res, priority := CtxDone, 0;
      if |chans| == 0 {
        return; // the consumer of no channels answers at once that there is nothing
      }
      for level := 0 to |chans|
        invariant State() == old(State())
        invariant forall c: nat :: c < level ==> !State().Ready(c)
        invariant level > 0 ==> res == Fallback && !ctxDone && level < |chans|
      {
        res := TryReceive(level, ctxDone, level + 1 < |chans|);
        priority := level;
        if !res.Fallback? {
          return;
        }
      }
    }
  }
}
