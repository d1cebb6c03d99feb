/** Blocks by slot range: the slots a server walks and the slots a client accepts, in 64-bit arithmetic. */
module Range {
  import opened Common

  // ---------- arithmetic ----------

  lemma MulMonotone(a: nat, b: nat, m: nat)
    requires a <= b
    ensures a * m <= b * m
  {
  }

  lemma ModOfMultiple(i: nat, m: nat)
    requires m > 0
    ensures i * m % m == 0
  {
    var x := i * m;
    var q, r := x / m, x % m;
    assert x == q * m + r;
    if q < i {
      MulMonotone(q + 1, i, m);
    } else {
      MulMonotone(i, q, m);
    }
  }

  /** Wrapping a product before it is added makes no difference to the wrapped sum. */
  lemma WrapSum(a: nat, p: nat)
    ensures Wrap64(a + Wrap64(p)) == Wrap64(a + p)
  {
    assert p == p / TWO_64 * TWO_64 + Wrap64(p);
  }

  // ---------- the requested slots ----------

  /** The slots a range request means: start, start + step, ... */
  function RangeSlots(start: int, count: nat, step: int): (slots: seq<int>)
    ensures |slots| == count && forall i :: 0 <= i < count ==> slots[i] == start + i * step
  {
    seq(count, i => start + i * step)
  }

  /** The first slot past the range. */
  function RangeEnd(start: nat, count: nat, step: nat): nat {
    start + step * count
  }

  function ImpliedEnd(start: Uint64, count: Uint64, step: Uint64): Uint64 {
    Wrap64(start + Wrap64(step * count))
  }

  lemma ImpliedEndWraps(start: Uint64, count: Uint64, step: Uint64)
    ensures step * count >= 0
    ensures ImpliedEnd(start, count, step) == Wrap64(RangeEnd(start, count, step))
    ensures RangeEnd(start, count, step) < TWO_64 ==> ImpliedEnd(start, count, step) == RangeEnd(start, count, step)
  {
    MulMonotone(0, step, count);
    WrapSum(start, step * count);
    WrapBelow(RangeEnd(start, count, step));
  }

  /** The last requested slot lies one step before the end. */
  lemma LastSlot(start: nat, count: nat, step: nat)
    requires count > 0
    ensures RangeSlots(start, count, step)[count - 1] + step == RangeEnd(start, count, step)
  {
    assert (count - 1) * step + step == count * step;
  }

  /**
   Why a range that leaves 64 bits cannot be walked or accepted whole: were its last slot
   still below the implied end, that end would have wrapped to below that slot.
   */
  lemma OverflowCutsRange(start: Uint64, count: Uint64, step: Uint64)
    requires RangeEnd(start, count, step) >= TWO_64
    ensures count > 0
    ensures var last := RangeSlots(start, count, step)[count - 1];
            !(last < TWO_64 && last < ImpliedEnd(start, count, step))
  {
    ImpliedEndWraps(start, count, step);
    LastSlot(start, count, step);
    WrapBelow(RangeEnd(start, count, step));
  }

  // ---------- the requesting side ----------

  /** The check of a received block's slot; a step of zero was refused before. */
  predicate ClientAccepts(slot: Uint64, start: Uint64, count: Uint64, step: Uint64)
    requires step > 0
  {
    !(slot < start || (slot - start) % step != 0 || slot >= ImpliedEnd(start, count, step))
  }

  lemma RequestedAccepted(slot: int, start: nat, count: nat, step: nat)
    requires step > 0 && slot in RangeSlots(start, count, step)
    ensures start <= slot < RangeEnd(start, count, step) && (slot - start) % step == 0
  {
    var slots := RangeSlots(start, count, step);
    var i :| 0 <= i < |slots| && slots[i] == slot;
    MulMonotone(0, i, step);
    MulMonotone(i + 1, count, step);
    ModOfMultiple(i, step);
  }

  lemma AcceptedRequested(slot: int, start: nat, count: nat, step: nat)
    requires step > 0 && start <= slot < RangeEnd(start, count, step) && (slot - start) % step == 0
    ensures slot in RangeSlots(start, count, step)
  {
    var i := (slot - start) / step;
    assert slot - start == i * step;
    if i >= count {
      MulMonotone(count, i, step);
    }
    assert RangeSlots(start, count, step)[i] == slot;
  }

  ghost predicate AcceptsExactlyRange(start: Uint64, count: Uint64, step: Uint64)
    requires step > 0
  {
    forall slot: int :: (0 <= slot < TWO_64 && ClientAccepts(slot, start, count, step)) <==> slot in RangeSlots(start, count, step)
  }

  /** For every request: the client accepts exactly the requested slots iff the range does not leave 64 bits. */
  lemma ClientAcceptsRange(start: Uint64, count: Uint64, step: Uint64)
    requires step > 0
    ensures AcceptsExactlyRange(start, count, step) <==> RangeEnd(start, count, step) < TWO_64
  {
    ImpliedEndWraps(start, count, step);
    if RangeEnd(start, count, step) < TWO_64 {
      forall slot: int
        ensures (0 <= slot < TWO_64 && ClientAccepts(slot, start, count, step)) <==> slot in RangeSlots(start, count, step)
      {
        if slot in RangeSlots(start, count, step) {
          RequestedAccepted(slot, start, count, step);
        } else if 0 <= slot < TWO_64 && ClientAccepts(slot, start, count, step) {
          AcceptedRequested(slot, start, count, step);
        }
      }
    } else {
      OverflowCutsRange(start, count, step);
      var slots := RangeSlots(start, count, step);
      assert slots[count - 1] in slots;
    }
  }

  /** A range can also wrap past its own start and be cut instead of refused: of 0, 2^63 and 2^64 only 0 is accepted. */
  lemma CutRangeExample()
    ensures ImpliedEnd(0, 3, TWO_63) == TWO_63
    ensures ClientAccepts(0, 0, 3, TWO_63) && !ClientAccepts(TWO_63, 0, 3, TWO_63)
    ensures TWO_63 in RangeSlots(0, 3, TWO_63)
  {
    assert RangeSlots(0, 3, TWO_63)[1] == TWO_63;
  }

  // ---------- the serving side ----------

  /** How the serving loop ends: past its end, at a slot without an entry or block, or at a failing write. */
  datatype WalkEnd = Complete | NotFound | WriteFailed

  datatype Served = BadRequest | Walked(slots: seq<int>, end: WalkEnd)

  /** The k-th value of the loop's slot counter. */
  function Counter(start: Uint64, step: Uint64, k: nat): Uint64
    requires start + k * step >= 0
  {
    Wrap64(start + k * step)
  }

  /** One more turn of the counter. */
  lemma CounterNext(start: Uint64, step: Uint64, k: nat)
    ensures k * step >= 0 && (k + 1) * step >= 0
    ensures Wrap64(Counter(start, step, k) + step) == Counter(start, step, k + 1)
  {
    MulMonotone(0, k, step);
    assert (k + 1) * step == k * step + step;
    WrapSum(step, start + k * step);
  }

  /** Slots as the loop visits them: the counter's values, all below the end. */
  ghost predicate Walk(slots: seq<int>, start: Uint64, step: Uint64, end: Uint64) {
    forall k :: 0 <= k < |slots| ==> start + k * step >= 0 && slots[k] == Counter(start, step, k) < end
  }

  /**
   The serving loop. known tells which slots the chain and the block store can answer,
   writes how many chunk writes succeed before one fails. Nothing else bounds the loop:
   its counter wraps at 64 bits.
   */
  method WalkSlots(start: Uint64, end: Uint64, step: Uint64, known: Uint64 -> bool, writes: nat)
    returns (visited: seq<int>, how: WalkEnd)
    ensures Walk(visited, start, step, end) && |visited| <= writes
    ensures |visited| * step >= 0
    ensures var next := Counter(start, step, |visited|);
            && (how == Complete <==> next >= end)
            && (how == NotFound <==> next < end && !known(next))
            && (how == WriteFailed <==> next < end && known(next) && |visited| == writes)
    ensures forall k :: 0 <= k < |visited| ==> 0 <= visited[k] < TWO_64 && known(visited[k])
  {
    visited := [];
    var slot := start;
    assert Counter(start, step, 0) == start;
    while slot < end
      invariant |visited| <= writes && |visited| * step >= 0
      invariant slot == Counter(start, step, |visited|)
      invariant Walk(visited, start, step, end)
      invariant forall k :: 0 <= k < |visited| ==> 0 <= visited[k] < TWO_64 && known(visited[k])
      decreases writes - |visited|
    {
      if !known(slot) {
        return visited, NotFound;
      }
      if |visited| == writes {
        return visited, WriteFailed;
      }
      CounterNext(start, step, |visited|);
      visited := visited + [slot];
      slot := Wrap64(slot + step);
    }
    how := Complete;
  }

  /** A walk of a range within 64 bits visits its slots in order, and is complete exactly when it visited all of them. */
  lemma WalkOfRange(visited: seq<int>, start: Uint64, count: Uint64, step: Uint64)
    requires step > 0 && RangeEnd(start, count, step) < TWO_64
    requires Walk(visited, start, step, ImpliedEnd(start, count, step)) && |visited| * step >= 0
    ensures visited <= RangeSlots(start, count, step)
    ensures Counter(start, step, |visited|) >= ImpliedEnd(start, count, step) <==> |visited| == count
  {
    ImpliedEndWraps(start, count, step);
    WalkPrefix(visited, start, count, step, |visited|);
    assert visited[..|visited|] == visited;
    CounterAtEnd(start, count, step, |visited|);
  }

  /** Within 64 bits the counter reaches the end of the range after exactly its number of turns. */
  lemma CounterAtEnd(start: Uint64, count: Uint64, step: Uint64, k: nat)
    requires step > 0 && RangeEnd(start, count, step) < TWO_64 && k <= count
    ensures k * step >= 0
    ensures Counter(start, step, k) >= RangeEnd(start, count, step) <==> k == count
  {
    MulMonotone(0, k, step);
    MulMonotone(k, count, step);
    WrapBelow(start + k * step);
    if k < count {
      MulMonotone(k + 1, count, step);
      assert (k + 1) * step == k * step + step;
    }
  }

  lemma {:induction false} WalkPrefix(visited: seq<int>, start: Uint64, count: Uint64, step: Uint64, k: nat)
    requires step > 0 && RangeEnd(start, count, step) < TWO_64 && k <= |visited|
    requires Walk(visited, start, step, RangeEnd(start, count, step))
    ensures k <= count && visited[..k] == RangeSlots(start, count, step)[..k]
  {
    if k > 0 {
      WalkPrefix(visited, start, count, step, k - 1);
      MulMonotone(k - 1, count, step);
      WrapBelow(start + (k - 1) * step);
      assert visited[k - 1] == start + (k - 1) * step;
      if k - 1 >= count {
        MulMonotone(count, k - 1, step);
      }
      assert visited[..k] == visited[..k - 1] + [visited[k - 1]];
    }
  }

  /** A walk visits slots that can be answered, and ends past its end, at the first slot that cannot, or at the first failing write. */
  ghost predicate StopsWhere(res: Served, start: Uint64, step: Uint64, end: Uint64, writes: nat, known: Uint64 -> bool)
    requires res.Walked?
  {
    var n := |res.slots|;
    && n * step >= 0 && n <= writes && Walk(res.slots, start, step, end)
    && (forall k :: 0 <= k < n ==> 0 <= res.slots[k] < TWO_64 && known(res.slots[k]))
    && var next := Counter(start, step, n);
       && (res.end == Complete <==> next >= end)
       && (res.end == NotFound <==> next < end && !known(next))
       && (res.end == WriteFailed <==> next < end && known(next) && n == writes)
  }

  /** The walk reached its end having visited exactly the requested slots. */
  ghost predicate ServesRange(res: Served, start: Uint64, count: Uint64, step: Uint64) {
    res == Walked(RangeSlots(start, count, step), Complete)
  }

  /**
   The serving side, for every request: refused iff a check fails; otherwise, if lookups and
   writes succeed, exactly the requested slots are visited iff the range does not leave 64 bits.
   */
  method ServeRange(start: Uint64, count: Uint64, step: Uint64, maxCount: Uint64, maxStep: Uint64,
                    iterStart: Uint64, iterEnd: Uint64, known: Uint64 -> bool, writes: nat)
    returns (res: Served)
    ensures res.BadRequest? <==>
              step == 0 || count > maxCount || step > maxStep || start < iterStart || ImpliedEnd(start, count, step) > iterEnd
    ensures res.Walked? ==> StopsWhere(res, start, step, ImpliedEnd(start, count, step), writes,
                                       slot => iterStart <= slot < iterEnd && known(slot))
    ensures res.Walked? && RangeEnd(start, count, step) < TWO_64 ==>
              res.slots <= RangeSlots(start, count, step) && (res.end == Complete <==> |res.slots| == count)
    ensures res.Walked? && RangeEnd(start, count, step) >= TWO_64 ==> !ServesRange(res, start, count, step)
    ensures res.Walked? && writes >= count
            && (forall slot: Uint64 :: iterStart <= slot < iterEnd ==> known(slot)) ==>
              (ServesRange(res, start, count, step) <==> RangeEnd(start, count, step) < TWO_64)
  {
    if step == 0 || count > maxCount || step > maxStep {
      return BadRequest;
    }
    var end := ImpliedEnd(start, count, step);
    if start < iterStart || end > iterEnd {
      return BadRequest;
    }
    var visited, how := WalkSlots(start, end, step, slot => iterStart <= slot < iterEnd && known(slot), writes);
    res := Walked(visited, how);
    if RangeEnd(start, count, step) < TWO_64 {
      WalkOfRange(visited, start, count, step);
      if how != Complete {
        NextInRange(start, |visited|, count, step);
      }
    } else {
      OverflowCutsRange(start, count, step);
    }
  }

  /** The counter of an unfinished walk stands at a requested slot. */
  lemma NextInRange(start: Uint64, k: nat, count: Uint64, step: Uint64)
    requires k < count && RangeEnd(start, count, step) < TWO_64
    ensures k * step >= 0 && start <= Counter(start, step, k) == start + k * step
  {
    MulMonotone(0, k, step);
    MulMonotone(k, count, step);
    WrapBelow(start + k * step);
  }

  /** Serving and requesting side agree slot by slot on every completed request that stays within 64 bits. */
  method RangeAgreement(slot: Uint64, start: Uint64, count: Uint64, step: Uint64, maxCount: Uint64, maxStep: Uint64,
                        iterStart: Uint64, iterEnd: Uint64, known: Uint64 -> bool, writes: nat)
    returns (complete: bool, visited: bool, accepted: bool)
    ensures complete && RangeEnd(start, count, step) < TWO_64 ==> visited == accepted
    ensures RangeEnd(start, count, step) < TWO_64 && visited ==> accepted
  {
    var res := ServeRange(start, count, step, maxCount, maxStep, iterStart, iterEnd, known, writes);
    if res.BadRequest? {
      return false, false, false;
    }
    ClientAcceptsRange(start, count, step);
    complete, visited, accepted := res.end == Complete, slot in res.slots, ClientAccepts(slot, start, count, step);
  }
}
