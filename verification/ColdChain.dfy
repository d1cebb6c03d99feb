/** The finalized chain: an append-only log of roots with an index by block root and one by state root. */
module ColdChain {
  import opened Common

  type Root = seq<Byte>
  type Slot = nat

  const ZERO_ROOT: Root := seq(32, _ => 0)

  /** A finalized entry as it is handed over; stateRoot is the hash of its post state. */
  datatype Entry = Entry(slot: Slot, blockRoot: Root, parentRoot: Root, stateRoot: Root)
  {
    /** A slot without a block repeats its parent's block root. */
    predicate Empty() {
      parentRoot == blockRoot
    }
  }

  // ---------- the log alone ----------

  /** The position of the last entry with a state root. */
  function LastState(es: seq<Entry>, root: Root): (k: Option<nat>)
    ensures k.Some? ==> k.value < |es| && es[k.value].stateRoot == root
    ensures k.None? ==> forall i :: 0 <= i < |es| ==> es[i].stateRoot != root
  {
    if es == [] then None
    else if es[|es| - 1].stateRoot == root then Some(|es| - 1)
    else LastState(es[..|es| - 1], root)
  }

  /** The position of the last non-empty entry with a block root. */
  function LastBlock(es: seq<Entry>, root: Root): (k: Option<nat>)
    ensures k.Some? ==> k.value < |es| && es[k.value].blockRoot == root && !es[k.value].Empty()
    ensures k.None? ==> forall i :: 0 <= i < |es| && es[i].blockRoot == root ==> es[i].Empty()
  {
    if es == [] then None
    else if es[|es| - 1].blockRoot == root && !es[|es| - 1].Empty() then Some(|es| - 1)
    else LastBlock(es[..|es| - 1], root)
  }

  /** Each entry names the one before it as its parent, and the first one has a block. */
  ghost predicate Linked(es: seq<Entry>) {
    && (es != [] ==> !es[0].Empty())
    && forall i :: 0 < i < |es| ==> es[i].parentRoot == es[i - 1].blockRoot
  }

  /** A slot with a block brings a block root not seen before. */
  ghost predicate FreshBlocks(es: seq<Entry>) {
    forall i, j :: 0 <= j < i < |es| && !es[i].Empty() ==> es[j].blockRoot != es[i].blockRoot
  }

  /** In a linked log an entry is empty exactly when its block root stood there before, and then right before it. */
  lemma EmptyIffRepeated(es: seq<Entry>, i: nat)
    requires Linked(es) && FreshBlocks(es) && i < |es|
    ensures es[i].Empty() <==> exists j :: 0 <= j < i && es[j].blockRoot == es[i].blockRoot
    ensures i > 0 ==> (es[i].Empty() <==> es[i - 1].blockRoot == es[i].blockRoot)
  {
    if es[i].Empty() {
      assert es[i - 1].blockRoot == es[i].blockRoot;
    }
  }

  /** The index by block root points at the slot where the root first appears. */
  lemma {:induction false} LastBlockIsFirst(es: seq<Entry>, i: nat)
    requires Linked(es) && FreshBlocks(es) && i < |es|
    ensures var k := LastBlock(es, es[i].blockRoot);
            && k.Some? && k.value <= i
            && forall j :: 0 <= j < |es| && es[j].blockRoot == es[i].blockRoot ==> k.value <= j
    decreases i
  {
    if es[i].Empty() {
      LastBlockIsFirst(es, i - 1);
    }
  }

  /** An index by state root that agrees with the log. */
  ghost predicate StateIndex(index: map<Root, Slot>, anchor: Slot, es: seq<Entry>) {
    forall root ::
      && (root in index <==> LastState(es, root).Some?)
      && (root in index ==> index[root] == anchor + LastState(es, root).value)
  }

  /** An index by block root that agrees with the log. */
  ghost predicate BlockIndex(index: map<Root, Slot>, anchor: Slot, es: seq<Entry>) {
    forall root ::
      && (root in index <==> LastBlock(es, root).Some?)
      && (root in index ==> index[root] == anchor + LastBlock(es, root).value)
  }

  lemma IndexesAppend(byState: map<Root, Slot>, byBlock: map<Root, Slot>, anchor: Slot, es: seq<Entry>, e: Entry)
    requires StateIndex(byState, anchor, es) && BlockIndex(byBlock, anchor, es) && e.slot == anchor + |es|
    ensures StateIndex(byState[e.stateRoot := e.slot], anchor, es + [e])
    ensures BlockIndex(if e.Empty() then byBlock else byBlock[e.blockRoot := e.slot], anchor, es + [e])
  {
    assert (es + [e])[..|es|] == es;
  }

  // ---------- the chain object ----------

  datatype Lookup = Found(slot: Slot) | UnknownRoot | TooEarly | TooLate

  class FinalizedChain {
    const AnchorSlot: Slot
    var BlockRoots: seq<Root>
    var StateRoots: seq<Root>
    var SlotsByBlockRoot: map<Root, Slot>
    var SlotsByStateRoot: map<Root, Slot>
    ghost var log: seq<Entry>

    /** Arrays and indexes agree with the log of accepted entries. */
    ghost predicate Valid()
      reads this
    {
      && |log| == |BlockRoots| == |StateRoots|
      && (forall i :: 0 <= i < |log| ==>
            log[i].slot == AnchorSlot + i && log[i].blockRoot == BlockRoots[i] && log[i].stateRoot == StateRoots[i])
      && StateIndex(SlotsByStateRoot, AnchorSlot, log) && BlockIndex(SlotsByBlockRoot, AnchorSlot, log)
    }

    constructor (anchorSlot: Slot)
      ensures Valid() && AnchorSlot == anchorSlot && log == []
    {
      AnchorSlot := anchorSlot;
      BlockRoots, StateRoots, SlotsByBlockRoot, SlotsByStateRoot, log := [], [], map[], map[], [];
    }

    function Start(): Slot {
      AnchorSlot
    }

    function End(): Slot
      reads this
    {
      AnchorSlot + |StateRoots|
    }

    /** Accepts exactly the entry of the next slot; anything else leaves the chain as it was. */
    method OnFinalizedEntry(entry: Entry) returns (ok: bool)
      requires Valid()
      modifies this
      ensures Valid()
      ensures ok <==> entry.slot == old(End())
      ensures log == if ok then old(log) + [entry] else old(log)
    {
      if entry.slot != End() {
        return false;
      }
      IndexesAppend(SlotsByStateRoot, SlotsByBlockRoot, AnchorSlot, log, entry);
      BlockRoots := BlockRoots + [entry.blockRoot];
      StateRoots := StateRoots + [entry.stateRoot];
      SlotsByStateRoot := SlotsByStateRoot[entry.stateRoot := entry.slot];
      if entry.parentRoot != entry.blockRoot {
        SlotsByBlockRoot := SlotsByBlockRoot[entry.blockRoot := entry.slot];
      }
      log := log + [entry];
      ok := true;
    }

    /** Answers exactly the slots Start..End-1. */
    function BySlot(slot: Slot): (l: Lookup)
      requires Valid()
      reads this
      ensures l.Found? <==> Start() <= slot < Start() + |log|
      ensures l.Found? ==> l.slot == slot && log[slot - AnchorSlot].slot == slot
      ensures l.TooEarly? <==> slot < Start()
      ensures l.TooLate? <==> slot >= Start() + |log|
    {
      if slot < Start() then TooEarly else if slot >= End() then TooLate else Found(slot)
    }

    /** Succeeds iff an entry with that state root was appended, and finds one. */
    function ByStateRoot(root: Root): (l: Lookup)
      requires Valid()
      reads this
      ensures l.Found? || l.UnknownRoot?
      ensures l.Found? <==> exists i :: 0 <= i < |log| && log[i].stateRoot == root
      ensures l.Found? ==> Start() <= l.slot < End() && StateRoot(l.slot) == root
                           && forall i :: l.slot - AnchorSlot < i < |log| ==> log[i].stateRoot != root
    {
      if root !in SlotsByStateRoot then UnknownRoot
      else
        LastStateIsLast(log, root);
        BySlot(SlotsByStateRoot[root])
    }

    /** Succeeds iff a non-empty entry with that block root was appended, and finds one. */
    function ByBlockRoot(root: Root): (l: Lookup)
      requires Valid()
      reads this
      ensures l.Found? || l.UnknownRoot?
      ensures l.Found? <==> exists i :: 0 <= i < |log| && log[i].blockRoot == root && !log[i].Empty()
      ensures l.Found? ==> Start() <= l.slot < End() && BlockRoot(l.slot) == root && !log[l.slot - AnchorSlot].Empty()
                           && forall i :: l.slot - AnchorSlot < i < |log| && log[i].blockRoot == root ==> log[i].Empty()
    {
      if root !in SlotsByBlockRoot then UnknownRoot
      else
        LastBlockIsLast(log, root);
        BySlot(SlotsByBlockRoot[root])
    }

    function ParentRoot(slot: Slot): Root
      requires Valid() && slot <= End()
      reads this
    {
      if slot <= AnchorSlot then ZERO_ROOT else BlockRoots[slot - 1 - AnchorSlot]
    }

    function BlockRoot(slot: Slot): Root
      requires Valid() && slot < End()
      reads this
    {
      if slot < AnchorSlot then ZERO_ROOT else BlockRoots[slot - AnchorSlot]
    }

    function StateRoot(slot: Slot): Root
      requires Valid() && slot < End()
      reads this
    {
      if slot < AnchorSlot then ZERO_ROOT else StateRoots[slot - AnchorSlot]
    }

    /** FinalizedEntryView.IsEmpty. */
    predicate IsEmpty(slot: Slot)
      requires Valid() && slot < End()
      reads this
    {
      ParentRoot(slot) == BlockRoot(slot)
    }

    /** Every block root of a linked chain with fresh blocks is found where it first appears, and later slots with it are the empty ones. */
    lemma BlockRootsFoundAtFirst(slot: Slot)
      requires Valid() && Linked(log) && FreshBlocks(log) && Start() <= slot < End()
      ensures var found := ByBlockRoot(BlockRoot(slot));
              && found.Found? && found.slot <= slot
              && (forall s :: Start() <= s < End() && BlockRoot(s) == BlockRoot(slot) ==> found.slot <= s)
              && (slot > Start() ==> (IsEmpty(slot) <==> found.slot < slot))
    {
      var i := slot - AnchorSlot;
      LastBlockIsFirst(log, i);
      EmptyIffRepeated(log, i);
      var k := LastBlock(log, log[i].blockRoot).value;
      forall s | Start() <= s < End() && BlockRoot(s) == BlockRoot(slot)
        ensures AnchorSlot + k <= s
      {
        assert log[s - AnchorSlot].blockRoot == log[i].blockRoot;
      }
    }

    /** The view of the anchor is empty only for a zero block root. */
    lemma AnchorEmptyIff()
      requires Valid() && log != []
      ensures IsEmpty(Start()) <==> log[0].blockRoot == ZERO_ROOT
    {
      assert BlockRoots[0] == log[0].blockRoot;
    }
  }

  lemma {:induction false} LastStateIsLast(es: seq<Entry>, root: Root)
    ensures LastState(es, root).Some? ==>
              forall i :: LastState(es, root).value < i < |es| ==> es[i].stateRoot != root
  {
    if es != [] && es[|es| - 1].stateRoot != root {
      LastStateIsLast(es[..|es| - 1], root);
    }
  }

  lemma {:induction false} LastBlockIsLast(es: seq<Entry>, root: Root)
    ensures LastBlock(es, root).Some? ==>
              forall i :: LastBlock(es, root).value < i < |es| && es[i].blockRoot == root ==> es[i].Empty()
  {
    if es != [] && !(es[|es| - 1].blockRoot == root && !es[|es| - 1].Empty()) {
      LastBlockIsLast(es[..|es| - 1], root);
    }
  }

  /** An iterator fixes its range when made and answers it whole, however far the chain has grown since. */
  class ColdChainIter {
    const chain: FinalizedChain
    const StartSlot: Slot
    const EndSlot: Slot

    constructor (chain: FinalizedChain)
      requires chain.Valid()
      ensures this.chain == chain && StartSlot == chain.Start() && EndSlot == chain.End()
    {
      this.chain, StartSlot, EndSlot := chain, chain.Start(), chain.End();
    }

    function Entry(slot: Slot): (l: Lookup)
      requires chain.Valid() && StartSlot == chain.Start() && EndSlot <= chain.End()
      reads chain
      ensures l.Found? <==> StartSlot <= slot < EndSlot
      ensures l.Found? ==> l.slot == slot
      ensures l.TooEarly? <==> slot < StartSlot
      ensures l.TooLate? ==> slot >= EndSlot
    {
      if slot < StartSlot then TooEarly else if slot >= EndSlot then TooLate else chain.BySlot(slot)
    }
  }
}
