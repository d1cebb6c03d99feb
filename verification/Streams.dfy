/** The two ends of a network stream: a reader that fragments as it likes and a writer that may stop accepting. */
module Streams {
  import opened Common

  /** How a stream ends: orderly, or with a transport error. */
  datatype ReadErr = EOF | Broken

  /**
   An io.Reader over a fixed byte sequence. Every read delivers at least one byte and
   nobody but the stream decides how many; past the last byte it reports end. An
   eager stream may report its end together with the last bytes, as io.Reader permits.
   */
  class Stream {
    ghost const content: seq<Byte>
    ghost var taken: seq<Byte>
    var rest: seq<Byte>
    const end: ReadErr
    const eager: bool

    ghost predicate Valid()
      reads this
    {
      content == taken + rest
    }

    constructor (content: seq<Byte>, end: ReadErr, eager: bool)
      ensures Valid() && taken == [] && rest == content == this.content
      ensures this.end == end && this.eager == eager
    {
      this.content, this.end, this.eager := content, end, eager;
      taken, rest := [], content;
    }

    /** Reads into p[..limit]. */
    method Read(p: array<Byte>, limit: nat) returns (n: nat, err: Option<ReadErr>)
      requires Valid() && 0 < limit <= p.Length
      modifies this, p
      ensures Valid()
      ensures n <= limit && n <= |old(rest)| && (n == 0 <==> old(rest) == [])
      ensures taken == old(taken) + old(rest)[..n] && rest == old(rest)[n..]
      ensures p[..n] == old(rest)[..n] && p[n..] == old(p[n..])
      ensures err == if old(rest) == [] || (eager && rest == []) then Some(end) else None
    {
      if rest == [] {
        return 0, Some(end);
      }
      var size := Min(limit, |rest|);
      n :| 1 <= n <= size;
      for i := 0 to n
        invariant unchanged(this) && 1 <= n <= size
        invariant p[..i] == rest[..i]
        invariant p[n..] == old(p[n..])
      {
        p[i] := rest[i];
      }
      taken, rest := taken + rest[..n], rest[n..];
      err := if eager && rest == [] then Some(end) else None;
    }
  }

  /** An io.Writer that accepts room more bytes and then fails. */
  class Writer {
    var written: seq<Byte>
    var room: nat

    constructor (room: nat)
      ensures written == [] && this.room == room
    {
      this.written, this.room := [], room;
    }

    method Write(data: seq<Byte>) returns (n: nat, ok: bool)
      modifies this
      ensures n == Min(|data|, old(room)) && (ok <==> n == |data|)
      ensures written == old(written) + data[..n] && room == old(room) - n
    {
      n := Min(|data|, room);
      ok := n == |data|;
      written, room := written + data[..n], room - n;
    }
  }

  /** What a writer holds after being sent data: as much of it as there was room for. */
  function Accepted(written: seq<Byte>, room: nat, data: seq<Byte>): seq<Byte> {
    written + data[..Min(|data|, room)]
  }

  lemma AcceptedThen(written: seq<Byte>, room: nat, a: seq<Byte>, b: seq<Byte>)
    ensures |a| <= room ==> Accepted(Accepted(written, room, a), room - |a|, b) == Accepted(written, room, a + b)
    ensures |a| > room ==> Accepted(written, room, a) == Accepted(written, room, a + b)
  {
    if |a| <= room {
      var m := Min(|b|, room - |a|);
      assert (a + b)[..|a| + m] == a + b[..m];
    } else {
      assert (a + b)[..room] == a[..room];
    }
  }

  /** Sending one more piece after what was moved, with rest still to come. */
  lemma CopyTurn(written: seq<Byte>, room: nat, moved: seq<Byte>, piece: seq<Byte>, rest: seq<Byte>)
    requires |moved| <= room
    ensures moved + (piece + rest) == (moved + piece) + rest
    ensures written + moved + piece[..Min(|piece|, room - |moved|)] == Accepted(written, room, moved + piece)
    ensures |moved + piece| > room ==> Accepted(written, room, moved + piece) == Accepted(written, room, (moved + piece) + rest)
  {
    AcceptedThen(written, room, moved, piece);
    AcceptedThen(written, room, moved + piece, rest);
  }

  /** io.Copy: moves everything r delivers to w, stopping at the first failure on either side. */
  method Copy(w: Writer, r: Stream) returns (ok: bool)
    requires r.Valid() && !r.eager
    modifies w, r
    ensures r.Valid()
    ensures w.written == Accepted(old(w.written), old(w.room), old(r.rest))
    ensures w.room == old(w.room) - Min(|old(r.rest)|, old(w.room))
    ensures ok <==> |old(r.rest)| <= old(w.room) && r.end == EOF
  {
    ghost var all := r.rest;
    ghost var moved := [];
    while true
      invariant r.Valid() && all == moved + r.rest
      invariant |moved| <= old(w.room) && w.room == old(w.room) - |moved|
      invariant w.written == old(w.written) + moved
      decreases |r.rest|
    {
      var size: nat :| size > 0;
      var p := new Byte[size];
      ghost var before := r.rest;
      var n, err := r.Read(p, size);
      if err.Some? {
        return err.value == EOF;
      }
      ghost var piece := p[..n];
      assert before == piece + r.rest;
      CopyTurn(old(w.written), old(w.room), moved, piece, r.rest);
      var _, sent := w.Write(p[..n]);
      if !sent {
        return false;
      }
      moved := moved + piece;
    }
  }
}
