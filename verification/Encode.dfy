/** The writing side of the req/resp domain: result byte, varint length, payload (no compression). */
module Encode {
  import opened Common
  import opened Streams
  import Varint

  /** A chunk as a reader is told about it: result code, announced size, bytes read. */
  datatype Chunk = Chunk(code: Byte, size: Uint64, payload: seq<Byte>)
  {
    /** The announced size is the size of the payload, as WriteRawResponseChunk sees to. */
    predicate Honest() {
      size == |payload|
    }
  }

  const INVALID_REQ_CODE: Byte := 1
  const SERVER_ERR_CODE: Byte := 2
  const MAX_ERR_SIZE: nat := 256

  /** A length header followed by a payload. */
  function Message(size: Uint64, payload: seq<Byte>): seq<Byte> {
    Varint.Encode(size) + payload
  }

  /** The wire form of one chunk. */
  function Frame(c: Chunk): (s: seq<Byte>)
    ensures |s| >= 2
  {
    [c.code] + Message(c.size, c.payload)
  }

  /** A chunk of less than 128 bytes on the wire: result byte, one length byte, payload. */
  lemma ShortFrame(c: Chunk)
    requires c.Honest() && |c.payload| < 0x80
    ensures |Frame(c)| == 2 + |c.payload|
    ensures Frame(c)[0] == c.code && Frame(c)[1] == |c.payload| && Frame(c)[2..] == c.payload
  {
    assert Frame(c) == [c.code] + ([|c.payload|] + c.payload);
  }

  /** The wire form of a whole response. */
  function Frames(cs: seq<Chunk>): seq<Byte> {
    if cs == [] then [] else Frame(cs[0]) + Frames(cs[1..])
  }

  lemma {:induction false} FramesAppend(cs: seq<Chunk>, c: Chunk)
    ensures Frames(cs + [c]) == Frames(cs) + Frame(c)
  {
    if cs == [] {
      assert (cs + [c])[1..] == [];
    } else {
      assert (cs + [c])[1..] == cs[1..] + [c];
      FramesAppend(cs[1..], c);
    }
  }

  /** Writes the size header; a failing writer is left with a prefix of it. */
  method OutputSizeVarint(size: Uint64, w: Writer) returns (ok: bool)
    modifies w
    ensures w.written == Accepted(old(w.written), old(w.room), Varint.Encode(size))
    ensures w.room == old(w.room) - Min(|Varint.Encode(size)|, old(w.room))
    ensures ok <==> |Varint.Encode(size)| <= old(w.room)
  {
    var sizeBytes := new Byte[Varint.MAX_VARINT_LEN64];
    var sizeByteLen := Varint.PutUvarint(sizeBytes, size);
    var n: nat;
    n, ok := w.Write(sizeBytes[..sizeByteLen]);
  }

  /** What a writer was sent by a call that may fail part-way: a prefix of data, all of it iff it succeeds. */
  twostate predicate Sent(w: Writer, data: seq<Byte>)
    reads w
  {
    && w.written == Accepted(old(w.written), old(w.room), data)
    && w.room == old(w.room) - Min(|data|, old(w.room))
  }

  /** Streams a payload behind a header that announces size, whatever the payload's real length. */
  method StreamHeaderAndPayload(size: Uint64, r: Stream, w: Writer) returns (ok: bool)
    requires r.Valid() && !r.eager
    modifies w, r
    ensures r.Valid()
    ensures Sent(w, Message(size, old(r.rest)))
    ensures ok <==> |Message(size, old(r.rest))| <= old(w.room) && r.end == EOF
  {
    AcceptedThen(w.written, w.room, Varint.Encode(size), r.rest);
    ok := OutputSizeVarint(size, w);
    if !ok {
      return;
    }
    ok := Copy(w, r);
  }

  /** Buffers the payload first, so the header announces its real length. */
  method EncodeHeaderAndPayload(r: Stream, w: Writer) returns (ok: bool)
    requires r.Valid() && !r.eager && |r.rest| < TWO_63
    modifies w, r
    ensures r.Valid()
    ensures r.end == EOF ==> Sent(w, Message(|old(r.rest)|, old(r.rest)))
    ensures r.end != EOF ==> Sent(w, [])
    ensures ok <==> r.end == EOF && |Message(|old(r.rest)|, old(r.rest))| <= old(w.room)
  {
    var buf := new Writer(|r.rest|);
    ok := Copy(buf, r);
    if !ok {
      return;
    }
    assert buf.written == old(r.rest);
    AcceptedThen(w.written, w.room, Varint.Encode(|buf.written|), buf.written);
    ok := OutputSizeVarint(|buf.written|, w);
    if !ok {
      return;
    }
    var n: nat;
    n, ok := w.Write(buf.written);
  }

  method EncodeResult(result: Byte, w: Writer) returns (ok: bool)
    modifies w
    ensures Sent(w, [result]) && (ok <==> old(w.room) >= 1)
  {
    var n: nat;
    n, ok := w.Write([result]);
  }

  /** One response chunk: the writer gets a prefix of its frame, the whole frame iff the call succeeds. */
  method StreamChunk(result: Byte, size: Uint64, r: Stream, w: Writer) returns (ok: bool)
    requires r.Valid() && !r.eager
    modifies w, r
    ensures r.Valid()
    ensures Sent(w, Frame(Chunk(result, size, old(r.rest))))
    ensures ok <==> |Frame(Chunk(result, size, old(r.rest)))| <= old(w.room) && r.end == EOF
  {
    AcceptedThen(w.written, w.room, [result], Message(size, r.rest));
    ok := EncodeResult(result, w);
    if !ok {
      return;
    }
    ok := StreamHeaderAndPayload(size, r, w);
  }

  /** EncodeChunk measures the payload itself, so what it writes is always an honest frame. */
  method EncodeChunk(result: Byte, r: Stream, w: Writer) returns (ok: bool)
    requires r.Valid() && !r.eager && |r.rest| < TWO_63
    modifies w, r
    ensures r.Valid()
    ensures Sent(w, if r.end == EOF then Frame(Chunk(result, |old(r.rest)|, old(r.rest))) else [result])
    ensures ok <==> r.end == EOF && |Frame(Chunk(result, |old(r.rest)|, old(r.rest)))| <= old(w.room)
  {
    var payload := r.rest;
    AcceptedThen(w.written, w.room, [result], Message(|payload|, payload));
    AcceptedThen(w.written, w.room, [result], []);
    assert [result] + [] == [result];
    ok := EncodeResult(result, w);
    if !ok {
      return;
    }
    ok := EncodeHeaderAndPayload(r, w);
  }
}
