/** The read-ahead buffer with a rewritable limit through which every req/resp message is parsed. */
module BufLimitRead {
  import opened Common
  import opened Streams
  import Varint

  /** What a reader holds and what it has done, between two operations. */
  datatype View = View(
    delivered: seq<Byte>,  // handed to callers so far
    buffered: seq<Byte>,   // fetched but not handed out
    taken: seq<Byte>,      // fetched from the stream so far
    rest: seq<Byte>,       // still in the stream
    limit: int,            // N
    perRead: bool,
    capacity: nat,         // length of the buffer
    end: ReadErr,
    eager: bool)
  {
    /** Everything a caller can still obtain. */
    function Pending(): seq<Byte> {
      buffered + rest
    }

    ghost predicate Consistent() {
      taken == delivered + buffered
    }
  }

  /** How many bytes one read may ask of the stream. */
  function Ask(v: View, size: nat): int {
    var m := Min(size, v.limit);
    if m >= v.capacity then m else Min(v.limit, v.capacity)
  }

  /** A refill whose bytes arrived with an error: counted in the result but not copied to the caller. */
  predicate Withheld(v: View, v': View, size: nat) {
    && v.limit > 0 && size > 0 && Min(size, v.limit) < v.capacity
    && v.buffered == [] && v.rest != [] && v.eager && v'.rest == []
  }

  /** One Read of size bytes: the caller's buffer goes from p to p', n and err are returned. */
  ghost predicate ReadStep(v: View, v': View, p: seq<Byte>, p': seq<Byte>, n: nat, err: Option<ReadErr>) {
    var size := |p|;
    var fetched := |v.rest| - |v'.rest|;
    && |p'| == size
    && v'.limit == (if v.perRead then v.limit else v.limit - n)
    && v'.perRead == v.perRead && v'.capacity == v.capacity && v'.end == v.end && v'.eager == v.eager
    && fetched >= 0 && v'.taken == v.taken + v.rest[..fetched] && v'.rest == v.rest[fetched..]
    && if v.limit <= 0 || size == 0 then
         && n == 0 && fetched == 0 && p' == p && v'.delivered == v.delivered && v'.buffered == v.buffered
         && err == (if v.limit <= 0 then Some(EOF) else None)
       else
         // the stream is asked at most once, and only when nothing is buffered
         && (if v.buffered != [] then fetched == 0 else fetched <= Ask(v, size) && (fetched == 0 <==> v.rest == []))
         && err == (if v.buffered == [] && (v.rest == [] || (v.eager && v'.rest == [])) then Some(v.end) else None)
         && if Withheld(v, v', size) then
              n == fetched && p' == p && v'.delivered == v.delivered && v'.buffered == v.rest[..fetched]
            else
              && n == Min(Min(size, v.limit), |v.buffered| + fetched)
              && v'.delivered == v.delivered + v.Pending()[..n]
              && v'.delivered + v'.buffered == v.delivered + v.buffered + v.rest[..fetched]
              && p' == v.Pending()[..n] + p[n..]
  }

  /** Moving n of the bytes held (and the newly fetched ones) to the delivered side loses and reorders none. */
  lemma Handover(d: seq<Byte>, b: seq<Byte>, rest: seq<Byte>, fetched: nat, n: nat, d': seq<Byte>, b': seq<Byte>)
    requires fetched <= |rest| && n <= |b| + fetched
    requires d' == d + (b + rest)[..n] && d' + b' == d + b + rest[..fetched]
    ensures b' == (b + rest[..fetched])[n..]
    ensures b' + rest[fetched..] == (b + rest)[n..]
  {
    var avail := b + rest[..fetched];
    assert b + rest == avail + rest[fetched..];
    assert (b + rest)[..n] == avail[..n];
    assert d' + b' == d + avail;
    assert b' == (d' + b')[|d'|..] == (d + avail)[|d'|..] == avail[n..];
  }

  /** A read that withheld nothing hands over exactly the next n bytes and keeps the rest in order. */
  lemma DeliveringRead(v: View, v': View, p: seq<Byte>, p': seq<Byte>, n: nat, err: Option<ReadErr>)
    requires v.Consistent() && ReadStep(v, v', p, p', n, err) && !Withheld(v, v', |p|)
    ensures v'.Consistent()
    ensures v'.delivered == v.delivered + v.Pending()[..n]
    ensures v'.Pending() == v.Pending()[n..] && p'[..n] == v.Pending()[..n]
  {
    var fetched := |v.rest| - |v'.rest|;
    if v.limit <= 0 || |p| == 0 {
      assert v'.rest == v.rest;
    } else {
      Handover(v.delivered, v.buffered, v.rest, fetched, n, v'.delivered, v'.buffered);
    }
  }

  /** A read that withheld its refill hands over nothing: all fetched bytes stay buffered. */
  lemma WithheldRead(v: View, v': View, p: seq<Byte>, p': seq<Byte>, n: nat, err: Option<ReadErr>)
    requires v.Consistent() && ReadStep(v, v', p, p', n, err) && Withheld(v, v', |p|)
    ensures v'.Consistent() && n > 0 && err == Some(v.end)
    ensures v'.delivered == v.delivered && v'.Pending() == v.Pending() && p' == p
    ensures v'.delivered != v.delivered + v.Pending()[..n]
  {
    assert v.rest == v.rest[..n] + v'.rest;
    assert |v.delivered + v.Pending()[..n]| == |v.delivered| + n;
  }

  /**
   A read hands over exactly the bytes it counts unless it withheld them, which takes an
   eager stream running dry during a refill; bytes delivered and buffered are those taken either way.
   */
  lemma ReadRefines(v: View, v': View, p: seq<Byte>, p': seq<Byte>, n: nat, err: Option<ReadErr>)
    requires v.Consistent() && ReadStep(v, v', p, p', n, err)
    ensures v'.Consistent()
    ensures v'.delivered == v.delivered + v.Pending()[..n] <==> !Withheld(v, v', |p|)
  {
    if Withheld(v, v', |p|) {
      WithheldRead(v, v', p, p', n, err);
    } else {
      DeliveringRead(v, v', p, p', n, err);
    }
  }

  /** A read of size bytes from v may come out withheld. */
  ghost predicate CanWithhold(v: View, size: nat) {
    exists v', p, p', n, err :: |p| == size && ReadStep(v, v', p, p', n, err) && Withheld(v, v', size)
  }

  /**
   Before the call: a read can lose its refill exactly when it would refill an empty buffer
   smaller than itself from an eager stream that one request to the stream can run dry.
   */
  lemma CanWithholdIff(v: View, size: nat)
    requires v.Consistent()
    ensures CanWithhold(v, size) <==>
              && v.limit > 0 && size > 0 && Min(size, v.limit) < v.capacity
              && v.buffered == [] && v.eager && v.rest != [] && |v.rest| <= Ask(v, size)
  {
    if v.limit > 0 && size > 0 && Min(size, v.limit) < v.capacity
       && v.buffered == [] && v.eager && v.rest != [] && |v.rest| <= Ask(v, size) {
      var p: seq<Byte>, k := seq(size, _ => 0), |v.rest|;
      var v' := Refilled(v, k).(limit := if v.perRead then v.limit else v.limit - k);
      FailedRefill(v, v', k, p, Some(v.end));
      assert ReadStep(v, v', p, p, k, Some(v.end)) && Withheld(v, v', size);
    }
  }

  /**
   When a read of an orderly stream answers with an error: at a used-up limit, or at the end
   of the stream. Asking for more than the limit is no error; the read is shortened.
   */
  lemma CrossingLimitIsNoError(v: View, v': View, p: seq<Byte>, p': seq<Byte>, n: nat, err: Option<ReadErr>)
    requires v.Consistent() && ReadStep(v, v', p, p', n, err) && !v.eager
    ensures err.Some? <==> v.limit <= 0 || (|p| > 0 && v.Pending() == [])
    ensures v.limit > 0 ==> n <= v.limit
  {
    DeliveringRead(v, v', p, p', n, err);
  }

  /** Consecutive views of one reader between two assignments of N, with N counting bytes. */
  ghost predicate LimitedRun(run: seq<View>) {
    && |run| > 0
    && (forall i :: 0 <= i < |run| ==> run[i].Consistent() && !run[i].perRead)
    && forall i :: 0 <= i < |run| - 1 ==> Reads(run[i], run[i + 1])
  }

  ghost predicate Reads(v: View, v': View) {
    exists p, p', n, err :: ReadStep(v, v', p, p', n, err)
  }

  /** What bounds a reader that started with an empty buffer and limit L, after it took `taken` bytes. */
  ghost predicate WithinLimit(v: View, taken: int, L: int) {
    || (taken == L - v.limit + |v.buffered| && |v.buffered| <= Max(v.limit, 0))
    || (v.rest == [] && taken <= Max(L, 0)) // an eager stream ran dry
  }

  lemma LimitedStep(v: View, v': View, taken: int, L: int)
    requires v.Consistent() && !v.perRead && Reads(v, v') && WithinLimit(v, taken, L)
    ensures WithinLimit(v', taken + |v'.taken| - |v.taken|, L)
  {
    var p, p', n, err :| ReadStep(v, v', p, p', n, err);
    if Withheld(v, v', |p|) {
      WithheldRead(v, v', p, p', n, err);
    } else {
      DeliveringRead(v, v', p, p', n, err);
    }
  }

  /** However the reads are sized, a reader started empty with limit L takes at most L bytes from the stream, read-ahead included. */
  lemma {:induction false} LimitedRunTakesAtMostLimit(run: seq<View>)
    requires LimitedRun(run) && run[0].buffered == []
    ensures var last, taken, L := run[|run| - 1], |run[|run| - 1].taken| - |run[0].taken|, run[0].limit;
            WithinLimit(last, taken, L) && taken <= Max(L, 0)
  {
    if |run| > 1 {
      var front := run[..|run| - 1];
      assert front[|front| - 1] == run[|run| - 2];
      LimitedRunTakesAtMostLimit(front);
      LimitedStep(run[|run| - 2], run[|run| - 1], |run[|run| - 2].taken| - |run[0].taken|, run[0].limit);
      LimitFalls(run, |run| - 1);
    }
  }

  /** Under a byte limit the limit never rises. */
  lemma {:induction false} LimitFalls(run: seq<View>, k: nat)
    requires LimitedRun(run) && k < |run|
    ensures run[k].limit <= run[0].limit && (run[0].limit <= 0 ==> run[k] == run[0])
  {
    if k > 0 {
      LimitFalls(run, k - 1);
      assert Reads(run[k - 1], run[k]);
      var p, p', n, err :| ReadStep(run[k - 1], run[k], p, p', n, err);
    }
  }

  /** A view after a refill that fetched k bytes into an empty buffer. */
  function Refilled(v: View, k: nat): View
    requires k <= |v.rest|
  {
    v.(buffered := v.buffered + v.rest[..k], rest := v.rest[k..], taken := v.taken + v.rest[..k])
  }

  lemma RefilledParts(v: View, k: nat)
    requires k <= |v.rest| && v.Consistent()
    ensures Refilled(v, k).Consistent()
    ensures v.buffered == [] ==> Refilled(v, k).buffered == v.rest[..k]
  {
  }

  /** A view after n buffered bytes were handed out and charged. */
  function HandedOut(v: View, n: nat): View
    requires n <= |v.buffered|
  {
    v.(delivered := v.delivered + v.buffered[..n], buffered := v.buffered[n..],
       limit := if v.perRead then v.limit else v.limit - n)
  }

  /** Handing out keeps the bytes of the view together. */
  lemma HandedOutParts(v: View, n: nat)
    requires n <= |v.buffered|
    ensures v.Consistent() ==> HandedOut(v, n).Consistent()
  {
    assert v.buffered == v.buffered[..n] + v.buffered[n..];
  }

  lemma FrontOfPending(v: View, k: nat, n: nat)
    requires k <= |v.rest| && n <= |v.buffered| + k
    ensures v.Pending()[..n] == Refilled(v, k).buffered[..n]
  {
    assert v.Pending() == Refilled(v, k).buffered + v.rest[k..];
  }

  /** A view after k bytes went from the stream straight to the caller. */
  function PassedThrough(v: View, k: nat): View
    requires k <= |v.rest|
  {
    v.(delivered := v.delivered + v.rest[..k], rest := v.rest[k..], taken := v.taken + v.rest[..k],
       limit := if v.perRead then v.limit else v.limit - k)
  }

  lemma DirectRead(v: View, v': View, k: nat, p: seq<Byte>, p': seq<Byte>, err: Option<ReadErr>)
    requires v.limit > 0 && |p| > 0 && v.buffered == [] && v.capacity <= Min(|p|, v.limit)
    requires k <= |v.rest| && k <= Min(|p|, v.limit) && (k == 0 <==> v.rest == [])
    requires v' == PassedThrough(v, k) && p' == v.rest[..k] + p[k..]
    requires err == if v.rest == [] || (v.eager && v'.rest == []) then Some(v.end) else None
    ensures ReadStep(v, v', p, p', k, err)
  {
    assert |v.rest| - |v'.rest| == k;
    assert v.Pending() == v.rest;
    assert v'.delivered + v'.buffered == v.delivered + v.buffered + v.rest[..k];
  }

  /** A read through the buffer whose refill of k bytes came with an error. */
  lemma FailedRefill(v: View, v': View, k: nat, p: seq<Byte>, err: Option<ReadErr>)
    requires v.limit > 0 && |p| > 0 && v.buffered == [] && Min(|p|, v.limit) < v.capacity
    requires k <= |v.rest| && k <= Min(v.limit, v.capacity) && (k == 0 <==> v.rest == [])
    requires v.rest == [] || (v.eager && v.rest[k..] == [])
    requires v' == Refilled(v, k).(limit := if v.perRead then v.limit else v.limit - k) && err == Some(v.end)
    ensures ReadStep(v, v', p, p, k, err)
  {
    RefillOfEmpty(v, k);
    if k == 0 {
      assert v' == v;
      NothingRead(v, p);
    } else {
      assert v.rest[..k] == v.rest;
    }
  }

  lemma RefillOfEmpty(v: View, k: nat)
    requires k <= |v.rest| && v.buffered == []
    ensures Refilled(v, k).buffered == v.rest[..k]
    ensures k == 0 ==> Refilled(v, k) == v
  {
  }

  /** A read at the end of the stream leaves everything as it is. */
  lemma NothingRead(v: View, p: seq<Byte>)
    requires v.limit > 0 && |p| > 0 && v.buffered == v.rest == []
    ensures ReadStep(v, v, p, p, 0, Some(v.end))
  {
    assert v.Pending() == [];
    assert [] + p[0..] == p;
    assert v.taken + [] == v.taken && v.delivered + [] == v.delivered;
  }

  /** A read through the buffer: k bytes fetched without an error, then n handed out. */
  lemma BufferedRead(v: View, v': View, k: nat, p: seq<Byte>, p': seq<Byte>, n: nat)
    requires v.limit > 0 && |p| > 0 && k <= |v.rest|
    requires if v.buffered != [] then k == 0
             else k <= Ask(v, |p|) && k > 0 && !(v.eager && v.rest[k..] == [])
    requires n == Min(Min(|p|, v.limit), |v.buffered| + k)
    requires v' == HandedOut(Refilled(v, k), n) && p' == v.Pending()[..n] + p[n..]
    ensures ReadStep(v, v', p, p', n, None)
  {
    var v1 := Refilled(v, k);
    assert |v.rest| - |v'.rest| == k;
    assert v.Pending() == v1.buffered + v'.rest;
    assert v.Pending()[..n] == v1.buffered[..n];
    assert v'.delivered + v'.buffered == v.delivered + v1.buffered;
    assert v.delivered + v.buffered + v.rest[..k] == v.delivered + v1.buffered;
  }

  /** The next ReadByte under limit 1 would answer a zero byte with the stream's end. */
  predicate ByteLost(v: View) {
    v.eager && v.buffered == [] && |v.rest| == 1
  }

  /** One ReadByte; under limit 1 it never reads ahead and loses a byte exactly when ByteLost. */
  ghost predicate ByteStep(v: View, v': View, b: Byte, err: Option<ReadErr>) {
    && v'.perRead == v.perRead && v'.capacity == v.capacity && v'.end == v.end && v'.eager == v.eager
    && (v.limit <= 0 ==> b == 0 && err == Some(EOF) && v' == v)
    && (v.limit > 0 && !v.eager ==>
          if v.Pending() == [] then b == 0 && err == Some(v.end) && v'.Pending() == [] && v'.limit == v.limit
          else b == v.Pending()[0] && err == None && v'.Pending() == v.Pending()[1..]
               && v'.limit == if v.perRead then v.limit else v.limit - 1)
    && (v.limit == 1 && v.capacity > 1 ==>
          && (v.buffered == [] && !ByteLost(v) ==> v'.buffered == [])
          && if ByteLost(v) then b == 0 && err == Some(v.end) && v'.Pending() == v.Pending() && v'.buffered == v.rest
             else if v.Pending() == [] then b == 0 && err == Some(v.end) && v'.Pending() == []
             else b == v.Pending()[0] && err == None && v'.Pending() == v.Pending()[1..])
  }

  lemma ByteRead(v: View, v': View, b: Byte, n: nat, err: Option<ReadErr>)
    requires v.Consistent() && ReadStep(v, v', [0], [b], n, err)
    ensures ByteStep(v, v', b, err) && !(n == 0 && err.None?)
  {
    if Withheld(v, v', 1) {
      WithheldRead(v, v', [0], [b], n, err);
    } else {
      DeliveringRead(v, v', [0], [b], n, err);
      if n == 1 {
        assert [b][..1] == [b];
        assert v.Pending()[..1] == [v.Pending()[0]];
      }
    }
  }

  class BufLimitReader {
    const buf: array<Byte>
    const rd: Stream
    var r: nat
    var w: nat
    var N: int
    var PerRead: bool
    ghost var delivered: seq<Byte>

    ghost predicate Valid()
      reads this, buf, rd
    {
      r <= w <= buf.Length && rd.Valid() && State().Consistent()
    }

    ghost function State(): View
      requires r <= w <= buf.Length
      reads this, buf, rd
    {
      View(delivered, buf[r..w], rd.taken, rd.rest, N, PerRead, buf.Length, rd.end, rd.eager)
    }

    ghost function Pending(): seq<Byte>
      requires Valid()
      reads this, buf, rd
    {
      State().Pending()
    }

    constructor (rd: Stream, size: nat, limit: int)
      requires rd.Valid() && rd.taken == []
      ensures Valid() && fresh(buf) && this.rd == rd
      ensures State() == View([], [], [], rd.rest, limit, false, size, rd.end, rd.eager)
    {
      buf := new Byte[size];
      this.rd, N, PerRead, r, w := rd, limit, false, 0, 0;
      delivered := [];
    }

    /** Refills the drained buffer with one read of the stream. */
    method Refill() returns (n: nat, err: Option<ReadErr>)
      requires Valid() && r == w && N > 0 && buf.Length > 0
      modifies this`r, this`w, buf, rd
      ensures Valid()
      ensures n <= |old(rd.rest)| && n <= Min(N, buf.Length) && (n == 0 <==> old(rd.rest) == [])
      ensures State() == Refilled(old(State()), n)
      ensures err == if old(rd.rest) == [] || (rd.eager && rd.rest == []) then Some(rd.end) else None
    {
      ghost var v := State();
      r, w := 0, 0;
      var to := Min(N, buf.Length); // read no more than allowed
      n, err := rd.Read(buf, to);
      w := w + n;
      RefilledParts(v, n);
      assert buf[r..w] == buf[..n];
    }

    method Read(p: array<Byte>) returns (n: nat, err: Option<ReadErr>)
      requires Valid() && p != buf
      modifies this, buf, rd, p
      ensures Valid()
      ensures ReadStep(old(State()), State(), old(p[..]), p[..], n, err)
    {
      if N <= 0 {
        return 0, Some(EOF);
      }
      var size := Min(p.Length, N);
      if size == 0 {
        return 0, None;
      }
      ghost var v, p0, fetched := State(), p[..], 0;
      if r == w && size >= buf.Length {
        // large read, empty buffer: straight into p
        n, err := ReadThrough(p, size);
        DirectRead(v, State(), n, p0, p[..], err);
      } else {
        n, err, fetched := ReadBuffered(p, size);
        if err.Some? {
          FailedRefill(v, State(), fetched, p0, err);
        } else {
          BufferedRead(v, State(), fetched, p0, p[..], n);
        }
      }
    }

    /** A read through the buffer, refilled first when it is drained. */
    method ReadBuffered(p: array<Byte>, size: nat) returns (n: nat, err: Option<ReadErr>, ghost fetched: nat)
      requires Valid() && p != buf && N > 0 && size == Min(p.Length, N) && 0 < size && (r == w ==> size < buf.Length)
      modifies this, buf, rd, p
      ensures Valid()
      ensures fetched <= |old(rd.rest)| && (old(r < w) ==> fetched == 0)
      ensures old(r == w) ==> fetched <= Min(old(N), buf.Length) && (fetched == 0 <==> old(rd.rest) == [])
      ensures err == if old(r == w) && (old(rd.rest) == [] || (rd.eager && rd.rest == [])) then Some(rd.end) else None
      ensures var v := old(State());
              if err.Some? then
                && State() == Refilled(v, fetched).(limit := if v.perRead then v.limit else v.limit - fetched)
                && n == fetched && p[..] == old(p[..])
              else
                && n == Min(size, |v.buffered| + fetched)
                && State() == HandedOut(Refilled(v, fetched), n)
                && p[..] == v.Pending()[..n] + old(p[n..])
    {
      ghost var v := State();
      fetched := 0;
      if r == w {
        n, err := Refill();
        fetched := n;
        if err.Some? {
          N := if PerRead then N else N - n;
          return;
        }
      }
      assert State() == Refilled(v, fetched);
      FrontOfPending(v, fetched, Min(size, |v.buffered| + fetched));
      n := HandOut(p, size);
      err := None;
    }

    /** A read at least as large as the drained buffer bypasses it. */
    method ReadThrough(p: array<Byte>, size: nat) returns (n: nat, err: Option<ReadErr>)
      requires Valid() && p != buf && r == w && N > 0 && size == Min(p.Length, N) && 0 < size && buf.Length <= size
      modifies this, rd, p
      ensures Valid()
      ensures n <= size && n <= |old(rd.rest)| && (n == 0 <==> old(rd.rest) == [])
      ensures State() == PassedThrough(old(State()), n)
      ensures p[..] == old(rd.rest)[..n] + old(p[n..])
      ensures err == if old(rd.rest) == [] || (rd.eager && rd.rest == []) then Some(rd.end) else None
    {
      n, err := rd.Read(p, size);
      assert p[..] == p[..n] + p[n..];
      assert (delivered + p[..n]) + [] == delivered + [] + p[..n];
      delivered := delivered + p[..n];
      N := if PerRead then N else N - n;
    }

    /** Copies up to size buffered bytes to p and charges them to the limit. */
    method HandOut(p: array<Byte>, size: nat) returns (n: nat)
      requires Valid() && p != buf && size <= p.Length
      modifies this, p
      ensures Valid()
      ensures n == Min(size, |old(State()).buffered|)
      ensures p[..] == old(State()).buffered[..n] + old(p[n..])
      ensures State() == HandedOut(old(State()), n)
    {
      ghost var v := State();
      n := CopyInto(p, size, buf[r..w]);
      assert State() == v;
      Charge(n);
    }

    method Charge(n: nat)
      requires Valid() && n <= w - r
      modifies this
      ensures Valid() && State() == HandedOut(old(State()), n)
    {
      HandedOutParts(State(), n);
      assert buf[r + n..w] == buf[r..w][n..];
      delivered := delivered + buf[r..w][..n];
      r := r + n;
      N := if PerRead then N else N - n;
    }

    method ReadByte() returns (b: Byte, err: Option<ReadErr>)
      requires Valid()
      modifies this, buf, rd
      ensures Valid()
      ensures ByteStep(old(State()), State(), b, err)
    {
      var out := new Byte[1](_ => 0);
      assert out[..] == [0];
      ghost var v := State();
      var n: nat;
      n, err := Read(out);
      b := out[0];
      assert out[..] == [b];
      ByteRead(v, State(), b, n, err);
      if n == 0 && err.None? {
        assert false; // "failed to read single byte, but no error" cannot happen
      }
    }

    /** ReadByte as binary.ReadUvarint uses it: under a per-read limit, which it leaves as it was. */
    method ReadHeaderByte() returns (b: Byte, err: Option<ReadErr>)
      requires Valid() && !rd.eager && N >= 1 && PerRead
      modifies this, buf, rd
      ensures Valid() && N == old(N) && PerRead
      ensures old(N == 1 && r == w) && buf.Length > 1 ==> r == w
      ensures if old(Pending()) == [] then err == Some(rd.end) && Pending() == []
              else err == None && b == old(Pending())[0] && Pending() == old(Pending())[1..]
    {
      b, err := ReadByte();
    }

    /** The outcome of reading a header from the bytes all. */
    ghost predicate HeaderRead(all: seq<Byte>, x: Uint64, err: Option<VarintErr>)
      requires Valid()
      reads this, buf, rd
    {
      match Varint.Decode(all)
      case Value(v, used) => err == None && x == v && Pending() == all[used..]
      case Overflow(used) => err == Some(TooLong) && Pending() == all[used..]
      case Short => err == Some(Cut(rd.end)) && Pending() == []
    }

    /** The i-th turn of the loop below, with x collected so far; done when the header ends or cannot be read. */
    method ReadGroup(i: nat, x: Uint64, ghost all: seq<Byte>) returns (x': Uint64, done: bool, err: Option<VarintErr>)
      requires Valid() && !rd.eager && N >= 1 && PerRead
      requires i < Varint.MAX_VARINT_LEN64 && i <= |all| && Pending() == all[i..]
      requires Varint.Continued(all) >= i && x == Varint.Groups(all[..i])
      modifies this, buf, rd
      ensures Valid() && N == old(N) && PerRead
      ensures old(N == 1 && r == w) && buf.Length > 1 ==> r == w
      ensures done ==> HeaderRead(all, x', err)
      ensures !done ==>
                && i < |all| && Pending() == all[i + 1..] && Varint.Continued(all) >= i + 1
                && if i < 9 then x' == Varint.Groups(all[..i + 1]) else Varint.Decode(all) == Varint.Overflow(i + 1)
    {
      var b, e := ReadHeaderByte();
      if e.Some? {
        return x, true, Some(Cut(e.value));
      }
      assert b == all[i];
      Varint.DecodeTurn(all, i, x, b);
      // the bits of x lie below 7 * i, so the bitwise or is a sum
      var group := Varint.Shifted(b, i);
      if b < 0x80 {
        if i == 9 && b > 1 {
          return x, true, Some(TooLong);
        }
        return x + group, true, None;
      }
      return Wrap64(x + group), false, None;
    }

    /** binary.ReadUvarint, byte by byte: stops after at most ten bytes. */
    method ReadUvarint() returns (x: Uint64, err: Option<VarintErr>)
      requires Valid() && !rd.eager && N >= 1 && PerRead
      modifies this, buf, rd
      ensures Valid() && N == old(N) && PerRead
      ensures old(N == 1 && r == w) && buf.Length > 1 ==> r == w
      ensures HeaderRead(old(Pending()), x, err)
    {
      ghost var all := Pending();
      x := 0;
      for i := 0 to Varint.MAX_VARINT_LEN64
        invariant Valid() && N == old(N) && PerRead
        invariant old(N == 1 && r == w) && buf.Length > 1 ==> r == w
        invariant i <= |all| && Pending() == all[i..] && Varint.Continued(all) >= i
        invariant if i < Varint.MAX_VARINT_LEN64 then x == Varint.Groups(all[..i]) else Varint.Decode(all) == Varint.Overflow(i)
      {
        var done;
        x, done, err := ReadGroup(i, x, all);
        if done {
          return;
        }
      }
      return x, Some(TooLong);
    }

    /** A length header: read byte by byte, under a limit of 1 that is not used up. */
    method ReadSize() returns (x: Uint64, err: Option<VarintErr>)
      requires Valid() && !rd.eager
      modifies this, buf, rd
      ensures Valid() && !PerRead
      ensures old(r == w) && buf.Length > 1 ==> r == w
      ensures HeaderRead(old(Pending()), x, err)
    {
      N := 1;
      PerRead := true;
      x, err := ReadUvarint();
      PerRead := false;
    }
  }

  datatype VarintErr = TooLong | Cut(end: ReadErr)

  /** A stream that reports its end with its last byte makes ReadByte answer zero instead of that byte. */
  method EagerStreamLosesLastByte(x: Byte, end: ReadErr) returns (b: Byte, err: Option<ReadErr>, kept: bool)
    ensures b == 0 && err == Some(end) && kept
  {
    var rd := new Stream([x], end, true);
    var blr := new BufLimitReader(rd, 1024, 1);
    b, err := blr.ReadByte();
    kept := blr.r < blr.w;
  }
}
