/** Requests and responses end to end: what one side writes is what the other side's callback gets. */
module RpcMethod {
  import opened Common
  import opened Streams
  import opened Encode
  import opened HandleResponse
  import Varint

  /** A chunk the requesting side will read in full: honest and within the limit of its result code. */
  predicate Fits(c: Chunk, maxSize: Uint64) {
    c.Honest() && c.size <= Limit(c.code, maxSize)
  }

  /** What a callback should see of a list of chunks, told chunk by chunk and without reference to bytes. */
  function Expected(cs: seq<Chunk>, end: ReadErr, i: nat, maxCount: nat, maxSize: Uint64, accept: Verdict): Parsed {
    if i >= maxCount then Parsed([], Done)
    else if cs == [] then Parsed([], if end == EOF then Done else Failed(ResultByte))
    else if !Fits(cs[0], maxSize) then Parsed([], Failed(TooLarge(i, cs[0].size, Limit(cs[0].code, maxSize))))
    else if !accept(i, cs[0]) then Parsed([cs[0]], Failed(Rejected(i)))
    else Prepend([cs[0]], Expected(cs[1..], end, i + 1, maxCount, maxSize, accept))
  }

  /** The fields of a frame in a byte sequence that starts with it. */
  lemma FieldsOfFrame(c: Chunk, rest: seq<Byte>)
    ensures var s, header := Frame(c) + rest, Varint.Encode(c.size);
            && s[0] == c.code
            && Varint.Decode(s[1..]) == Varint.Value(c.size, |header|)
            && s[1 + |header|..] == c.payload + rest
  {
    var s, header := Frame(c) + rest, Varint.Encode(c.size);
    Varint.DecodeEncode(c.size, c.payload + rest);
    assert s == [c.code] + (header + (c.payload + rest));
    assert s[1..] == header + (c.payload + rest);
  }

  /** The head of an honest frame, and where its payload starts. */
  lemma HeadOfFrame(c: Chunk, rest: seq<Byte>, end: ReadErr, i: nat, maxSize: Uint64)
    requires c.Honest()
    ensures ParseHead(Frame(c) + rest, end, i, maxSize)
            == if Fits(c, maxSize) then Good(c.code, c.size) else Bad(TooLarge(i, c.size, Limit(c.code, maxSize)))
    ensures Varint.Decode((Frame(c) + rest)[1..]).Value?
    ensures (Frame(c) + rest)[HeadLength(Frame(c) + rest)..] == c.payload + rest
  {
    FieldsOfFrame(c, rest);
  }

  /** One honest frame at the front of the remaining bytes, whatever follows it. */
  lemma TurnOfFrame(c: Chunk, rest: seq<Byte>, end: ReadErr, i: nat, maxSize: Uint64, accept: Verdict)
    requires c.Honest()
    ensures !Fits(c, maxSize) ==>
              ParseTurn(Frame(c) + rest, end, i, maxSize, accept)
              == Stop([], Failed(TooLarge(i, c.size, Limit(c.code, maxSize))))
    ensures Fits(c, maxSize) && Limit(c.code, maxSize) < TWO_63 ==>
              ParseTurn(Frame(c) + rest, end, i, maxSize, accept)
              == if accept(i, c) then Next(c, rest) else Stop([c], Failed(Rejected(i)))
    ensures Fits(c, maxSize) && Limit(c.code, maxSize) >= TWO_63 ==>
              var torn := Chunk(c.code, c.size, []);
              ParseTurn(Frame(c) + rest, end, i, maxSize, accept)
              == if accept(i, torn) then Next(torn, c.payload + rest) else Stop([torn], Failed(Rejected(i)))
  {
    HeadOfFrame(c, rest, end, i, maxSize);
    assert (c.payload + rest)[..|c.payload|] == c.payload;
    assert (c.payload + rest)[|c.payload|..] == rest;
    assert (c.payload + rest)[..0] == [] && (c.payload + rest)[0..] == c.payload + rest;
  }

  /**
   The response round trip: parsing the bytes of any honest chunk list gives what the list
   itself calls for, for every chunk count, size limit, callback and way the stream ends.
   */
  lemma {:induction false} ParseFrames(cs: seq<Chunk>, end: ReadErr, i: nat, maxCount: nat, maxSize: Uint64, accept: Verdict)
    requires forall c :: c in cs ==> c.Honest()
    requires maxSize < TWO_63
    ensures Parse(Frames(cs), end, i, maxCount, maxSize, accept) == Expected(cs, end, i, maxCount, maxSize, accept)
    decreases |cs|
  {
    if i < maxCount && cs != [] {
      TurnOfFrame(cs[0], Frames(cs[1..]), end, i, maxSize, accept);
      ParseFrames(cs[1..], end, i + 1, maxCount, maxSize, accept);
    }
  }

  lemma {:induction false} ExpectedAll(cs: seq<Chunk>, end: ReadErr, i: nat, maxCount: nat, maxSize: Uint64, accept: Verdict)
    requires i <= maxCount
    requires forall j :: 0 <= j < |cs| ==> Fits(cs[j], maxSize) && accept(i + j, cs[j])
    ensures Expected(cs, end, i, maxCount, maxSize, accept)
            == Parsed(cs[..Min(|cs|, maxCount - i)],
                      if |cs| >= maxCount - i || end == EOF then Done else Failed(ResultByte))
    decreases |cs|
  {
    if i < maxCount && cs != [] {
      var tail := cs[1..];
      assert accept(i + 0, cs[0]);
      forall j | 0 <= j < |tail|
        ensures Fits(tail[j], maxSize) && accept(i + 1 + j, tail[j])
      {
        assert tail[j] == cs[j + 1] && accept(i + (j + 1), cs[j + 1]);
      }
      ExpectedAll(tail, end, i + 1, maxCount, maxSize, accept);
      var m := Min(|cs|, maxCount - i);
      assert cs[..m] == [cs[0]] + tail[..m - 1];
    }
  }

  /** Chunks that all fit and are all accepted arrive as exactly that list, cut at the chunk limit. */
  lemma AllChunksArrive(cs: seq<Chunk>, end: ReadErr, maxCount: nat, maxSize: Uint64, accept: Verdict)
    requires maxSize < TWO_63
    requires forall j :: 0 <= j < |cs| ==> Fits(cs[j], maxSize) && accept(j, cs[j])
    ensures Parse(Frames(cs), end, 0, maxCount, maxSize, accept)
            == Parsed(cs[..Min(|cs|, maxCount)],
                      if |cs| >= maxCount || end == EOF then Done else Failed(ResultByte))
  {
    ParseFrames(cs, end, 0, maxCount, maxSize, accept);
    forall j | 0 <= j < |cs|
      ensures accept(0 + j, cs[j])
    {
    }
    ExpectedAll(cs, end, 0, maxCount, maxSize, accept);
  }

  /**
   The limit is converted to a signed integer before it is used: a non-empty chunk under a
   limit arrives intact exactly when the limit is below 2^63; above, its payload is taken
   for the next chunk and no error is raised.
   */
  lemma LimitMustFitInt(c: Chunk, rest: seq<Byte>, end: ReadErr, i: nat, maxSize: Uint64, accept: Verdict)
    requires Fits(c, maxSize) && c.payload != [] && accept(i, c)
    ensures ParseTurn(Frame(c) + rest, end, i, maxSize, accept) == Next(c, rest) <==> Limit(c.code, maxSize) < TWO_63
  {
    TurnOfFrame(c, rest, end, i, maxSize, accept);
  }

  method WriteRawResponseChunk(code: Byte, chunk: seq<Byte>, w: Writer) returns (ok: bool)
    requires |chunk| < TWO_63
    modifies w
    ensures Sent(w, Frame(Chunk(code, |chunk|, chunk)))
    ensures ok <==> |Frame(Chunk(code, |chunk|, chunk))| <= old(w.room)
  {
    var r := new Stream(chunk, EOF, false);
    ok := StreamChunk(code, |chunk|, r, w);
  }

  /** The text an error chunk carries: messages over 256 bytes end in three dots. */
  function ErrorText(msg: seq<Byte>): seq<Byte> {
    if |msg| > MAX_ERR_SIZE then msg[..MAX_ERR_SIZE - 3] + [46, 46, 46] else msg
  }

  method WriteErrorChunk(code: Byte, msg: seq<Byte>, w: Writer) returns (ok: bool)
    modifies w
    ensures Sent(w, Frame(Chunk(code, |ErrorText(msg)|, ErrorText(msg))))
    ensures ok <==> |Frame(Chunk(code, |ErrorText(msg)|, ErrorText(msg)))| <= old(w.room)
  {
    var text := msg;
    if |text| > MAX_ERR_SIZE {
      text := text[..MAX_ERR_SIZE - 3];
      text := text + [46, 46, 46];
    }
    var r := new Stream(text, EOF, false);
    ok := StreamChunk(code, |text|, r, w);
  }

  /** An error chunk with one of the two error codes gets through to any requester, whatever its message and size limit. */
  lemma ErrorChunkArrives(code: Byte, msg: seq<Byte>, rest: seq<Byte>, end: ReadErr, i: nat, maxSize: Uint64, accept: Verdict)
    requires code == INVALID_REQ_CODE || code == SERVER_ERR_CODE
    ensures |ErrorText(msg)| == Min(|msg|, MAX_ERR_SIZE)
    ensures ErrorText(msg)[..Min(|msg|, MAX_ERR_SIZE - 3)] == msg[..Min(|msg|, MAX_ERR_SIZE - 3)]
    ensures |msg| <= 256 ==> ErrorText(msg) == msg
    ensures |msg| > 256 ==> ErrorText(msg)[253..] == [46, 46, 46]
    ensures var c := Chunk(code, |ErrorText(msg)|, ErrorText(msg));
            ParseTurn(Frame(c) + rest, end, i, maxSize, accept)
            == if accept(i, c) then Next(c, rest) else Stop([c], Failed(Rejected(i)))
  {
    TurnOfFrame(Chunk(code, |ErrorText(msg)|, ErrorText(msg)), rest, end, i, maxSize, accept);
  }

  /** A server that writes chunks back to back leaves their frames on the wire, in order. */
  method WriteChunks(cs: seq<Chunk>, w: Writer) returns (ok: bool)
    requires forall c :: c in cs ==> c.Honest() && c.size < TWO_63
    modifies w
    ensures Sent(w, Frames(cs)) && (ok <==> |Frames(cs)| <= old(w.room))
  {
    ghost var w0, room0 := w.written, w.room;
    ok := true;
    assert cs[..0] == [];
    for i := 0 to |cs|
      invariant ok && |Frames(cs[..i])| <= room0
      invariant w.written == Accepted(w0, room0, Frames(cs[..i])) && w.room == room0 - |Frames(cs[..i])|
    {
      FramesTurn(cs, i, w0, room0);
      assert cs[i] == Chunk(cs[i].code, |cs[i].payload|, cs[i].payload);
      ok := WriteRawResponseChunk(cs[i].code, cs[i].payload, w);
      if !ok {
        return;
      }
    }
    assert cs[..|cs|] == cs;
  }

  /** Sending the i-th frame after those before it. */
  lemma FramesTurn(cs: seq<Chunk>, i: nat, w0: seq<Byte>, room: nat)
    requires i < |cs| && |Frames(cs[..i])| <= room
    ensures Frames(cs[..i + 1]) == Frames(cs[..i]) + Frame(cs[i])
    ensures var sent := Accepted(Accepted(w0, room, Frames(cs[..i])), room - |Frames(cs[..i])|, Frame(cs[i]));
            && sent == Accepted(w0, room, Frames(cs[..i + 1]))
            && (|Frames(cs[..i + 1])| > room ==> sent == Accepted(w0, room, Frames(cs)) && |Frames(cs)| > room)
  {
    assert cs[..i + 1] == cs[..i] + [cs[i]];
    FramesAppend(cs[..i], cs[i]);
    AcceptedThen(w0, room, Frames(cs[..i]), Frame(cs[i]));
    FramesSplit(cs, i + 1);
    AcceptedThen(w0, room, Frames(cs[..i + 1]), Frames(cs[i + 1..]));
  }

  lemma {:induction false} FramesSplit(cs: seq<Chunk>, k: nat)
    requires k <= |cs|
    ensures Frames(cs) == Frames(cs[..k]) + Frames(cs[k..])
  {
    if k > 0 {
      FramesSplit(cs[1..], k - 1);
      assert cs[..k][1..] == cs[1..][..k - 1] && cs[1..][k - 1..] == cs[k..];
    }
  }

  /**
   RPCMethod.RunRequest without compression: writes the request to out, and on success
   lets the response loop read in. proceed is the answer of the caller's madeRequest hook.
   */
  method RunRequest(req: seq<Byte>, out: Writer, response: Stream, proceed: bool,
                    maxRespChunks: Uint64, maxByteLen: Uint64, accept: Verdict)
    returns (asked: bool, seen: seq<Chunk>, res: Outcome)
    requires |req| < TWO_63 && response.Valid() && response.taken == [] && !response.eager
    modifies out, response
    ensures Sent(out, Message(|req|, req))
    ensures asked <==> |Message(|req|, req)| <= old(out.room) && proceed
    ensures asked ==> Parsed(seen, res) == Parse(old(response.rest), response.end, 0, maxRespChunks, maxByteLen, accept)
    ensures !asked ==> seen == [] && response.rest == old(response.rest)
  {
    seen, res := [], Done;
    var r := new Stream(req, EOF, false);
    var buf := new Writer(|Message(|req|, req)|);
    asked := EncodeHeaderAndPayload(r, buf);
    assert buf.written == Message(|req|, req);
    var n: nat;
    n, asked := out.Write(buf.written);
    if !asked || !proceed {
      asked := false;
      return;
    }
    seen, res := HandleChunks(response, maxRespChunks, maxByteLen, accept);
  }

  /**
   A whole exchange over a stream that fragments at will: the callback sees what the
   chunk list calls for, indices 0, 1, 2, ... being those passed to accept.
   */
  method Exchange(cs: seq<Chunk>, maxCount: Uint64, maxSize: Uint64, accept: Verdict)
    returns (seen: seq<Chunk>, res: Outcome)
    requires forall c :: c in cs ==> c.Honest() && c.size < TWO_63
    requires maxSize < TWO_63
    ensures Parsed(seen, res) == Expected(cs, EOF, 0, maxCount, maxSize, accept)
  {
    var wire := new Writer(|Frames(cs)|);
    var sent := WriteChunks(cs, wire);
    assert wire.written == Frames(cs);
    var stream := new Stream(wire.written, EOF, false);
    ParseFrames(cs, EOF, 0, maxCount, maxSize, accept);
    seen, res := HandleChunks(stream, maxCount, maxSize, accept);
  }
}
