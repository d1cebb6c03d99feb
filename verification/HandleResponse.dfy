/** The chunk-decoding loop of the requesting side, and what it makes of every possible byte stream. */
module HandleResponse {
  import opened Common
  import opened Streams
  import opened BufLimitRead
  import opened Encode
  import Varint

  datatype HandlerErr =
    | ResultByte                                 // the stream broke before a result byte
    | Header(cause: VarintErr)                   // the length header was cut short or too long
    | TooLarge(index: nat, size: Uint64, limit: Uint64)
    | ReadFailed(index: nat)                     // the stream broke inside a payload
    | Rejected(index: nat)                       // the callback returned an error of its own

  datatype Outcome = Done | Failed(err: HandlerErr)

  /** The chunks whose payload reached the callback, and how the handler returned. */
  datatype Parsed = Parsed(chunks: seq<Chunk>, outcome: Outcome)

  /** The callback's verdict on the i-th chunk, after it read the announced size. */
  type Verdict = (nat, Chunk) -> bool

  /** The size limit that applies to a chunk with the given result code. */
  function Limit(code: Byte, maxSize: Uint64): Uint64 {
    if code == INVALID_REQ_CODE || code == SERVER_ERR_CODE then MAX_ERR_SIZE else maxSize
  }

  /** The number of bytes a callback obtains when it reads size bytes under limit N from what is available. */
  function Obtained(size: int, N: int, available: nat): nat {
    Max(0, Min(Min(size, N), available))
  }

  /** What the front of the remaining bytes is when the i-th chunk is due. */
  datatype Head = NoMore | Bad(err: HandlerErr) | Good(code: Byte, size: Uint64)

  function ParseHead(s: seq<Byte>, end: ReadErr, i: nat, maxSize: Uint64): (h: Head)
    ensures h.Good? ==> s != [] && h.size <= Limit(h.code, maxSize) && Varint.Decode(s[1..]).Value?
  {
    if s == [] then (if end == EOF then NoMore else Bad(ResultByte))
    else
      match Varint.Decode(s[1..])
      case Short => Bad(Header(Cut(end)))
      case Overflow(_) => Bad(Header(TooLong))
      case Value(size, used) =>
        var limit := Limit(s[0], maxSize);
        if size > limit then Bad(TooLarge(i, size, limit)) else Good(s[0], size)
  }

  /** The length of a result byte and its length header. */
  function HeadLength(s: seq<Byte>): (n: nat)
    requires s != [] && Varint.Decode(s[1..]).Value?
    ensures 2 <= n <= 1 + Varint.MAX_VARINT_LEN64 && n <= |s|
  {
    1 + Varint.Decode(s[1..]).used
  }

  /** What the next bytes make the loop do: return, or hand one chunk over and go on with the rest. */
  datatype Turn = Stop(chunks: seq<Chunk>, outcome: Outcome) | Next(chunk: Chunk, rest: seq<Byte>)

  function ParseTurn(s: seq<Byte>, end: ReadErr, i: nat, maxSize: Uint64, accept: Verdict): Turn {
    match ParseHead(s, end, i, maxSize)
    case NoMore => Stop([], Done)
    case Bad(err) => Stop([], Failed(err))
    case Good(code, size) =>
      var body, limit := s[HeadLength(s)..], AsInt(Limit(code, maxSize));
      var n := Obtained(AsInt(size), limit, |body|);
      var chunk := Chunk(code, size, body[..n]);
      if n < Min(AsInt(size), limit) && end != EOF then Stop([], Failed(ReadFailed(i)))
      else if !accept(i, chunk) then Stop([chunk], Failed(Rejected(i)))
      else Next(chunk, body[n..])
  }

  /**
   The meaning of a response that still holds the bytes s when the i-th chunk is due: a
   function of the bytes alone, with no buffer, limit field or fragmentation in it.
   */
  function Parse(s: seq<Byte>, end: ReadErr, i: nat, maxCount: nat, maxSize: Uint64, accept: Verdict): Parsed
    decreases maxCount - i
  {
    if i >= maxCount then Parsed([], Done)
    else
      match ParseTurn(s, end, i, maxSize, accept)
      case Stop(chunks, outcome) => Parsed(chunks, outcome)
      case Next(chunk, rest) =>
        var tail := Parse(rest, end, i + 1, maxCount, maxSize, accept);
        Parsed([chunk] + tail.chunks, tail.outcome)
  }

  /** One read of a growing buffer from its limited reader: at least a byte, or the end. */
  method ReadPiece(r: BufLimitReader, left: nat) returns (piece: seq<Byte>, err: Option<ReadErr>)
    requires r.Valid() && !r.rd.eager && !r.PerRead && left > 0
    modifies r, r.buf, r.rd
    ensures r.Valid() && !r.PerRead && r.N == old(r.N) - |piece|
    ensures |piece| <= |old(r.Pending())| && piece == old(r.Pending())[..|piece|]
    ensures r.Pending() == old(r.Pending())[|piece|..]
    ensures err.None? ==> 0 < |piece| <= Min(left, old(r.N))
    ensures err.Some? ==> piece == [] && err.value == if old(r.N) <= 0 then EOF else r.rd.end
    ensures err.Some? <==> old(r.N) <= 0 || old(r.Pending()) == []
  {
    var spare: nat :| spare > 0; // however much room the buffer offers
    var p := new Byte[Min(spare, left)];
    ghost var v, p0 := r.State(), p[..];
    var n: nat;
    n, err := r.Read(p);
    DeliveringRead(v, r.State(), p0, p[..], n, err);
    piece := p[..n];
  }

  /** chRespHandler.ReadRaw: reads through an io.LimitReader until it is exhausted or the stream ends. */
  method ReadRaw(r: BufLimitReader, chunkSize: Uint64) returns (data: seq<Byte>, err: Option<ReadErr>)
    requires r.Valid() && !r.rd.eager && !r.PerRead
    modifies r, r.buf, r.rd
    ensures r.Valid() && !r.PerRead
    ensures var all, n := old(r.Pending()), Obtained(AsInt(chunkSize), old(r.N), |old(r.Pending())|);
            && data == all[..n] && r.Pending() == all[n..]
            && err == if n < Min(AsInt(chunkSize), old(r.N)) && r.rd.end != EOF then Some(r.rd.end) else None
  {
    ghost var all, N := r.Pending(), r.N;
    var left := AsInt(chunkSize);
    data := [];
    while left > 0
      invariant r.Valid() && !r.PerRead
      invariant |data| <= |all| && data == all[..|data|] && r.Pending() == all[|data|..]
      invariant left == AsInt(chunkSize) - |data| && r.N == N - |data|
      invariant data == [] || |data| <= Min(AsInt(chunkSize), N)
    {
      var piece, e := ReadPiece(r, left);
      if e.Some? {
        return data, if e.value == EOF then None else e;
      }
      assert all[..|data|] + all[|data|..][..|piece|] == all[..|data| + |piece|];
      data := data + piece;
      left := left - |piece|;
    }
    err := None;
  }

  /** The result byte is read under a limit of one byte. */
  method ReadResultByte(blr: BufLimitReader) returns (b: Byte, err: Option<ReadErr>)
    requires blr.Valid() && !blr.rd.eager && !blr.PerRead
    modifies blr, blr.buf, blr.rd
    ensures blr.Valid() && !blr.PerRead
    ensures if old(blr.Pending()) == [] then err == Some(blr.rd.end)
            else err == None && b == old(blr.Pending())[0] && blr.Pending() == old(blr.Pending())[1..]
  {
    blr.N := 1;
    b, err := blr.ReadByte();
  }

  /** The fields before a payload, and the limit the payload is then read under. */
  method ReadHead(blr: BufLimitReader, chunkIndex: nat, maxChunkContentSize: Uint64) returns (head: Head)
    requires blr.Valid() && !blr.rd.eager && !blr.PerRead
    modifies blr, blr.buf, blr.rd
    ensures blr.Valid()
    ensures head == ParseHead(old(blr.Pending()), blr.rd.end, chunkIndex, maxChunkContentSize)
    ensures head.Good? ==> !blr.PerRead && blr.Pending() == old(blr.Pending())[HeadLength(old(blr.Pending()))..]
                           && blr.N == AsInt(Limit(head.code, maxChunkContentSize))
  {
    ghost var all := blr.Pending();
    var resByte, err := ReadResultByte(blr);
    if err == Some(EOF) { // no more chunks left
      return NoMore;
    }
    if err.Some? {
      return Bad(ResultByte);
    }
    var chunkSize, headerErr := blr.ReadSize();
    if headerErr.Some? {
      return Bad(Header(headerErr.value));
    }
    var limit := maxChunkContentSize;
    if resByte == INVALID_REQ_CODE || resByte == SERVER_ERR_CODE {
      limit := MAX_ERR_SIZE;
    }
    if chunkSize > limit {
      return Bad(TooLarge(chunkIndex, chunkSize, limit));
    }
    ghost var rest := blr.Pending();
    blr.N := AsInt(limit);
    assert blr.Pending() == rest;
    head := Good(resByte, chunkSize);
    AfterHead(all);
  }

  /** The payload follows the result byte and the header. */
  lemma AfterHead(s: seq<Byte>)
    requires s != [] && Varint.Decode(s[1..]).Value?
    ensures s[HeadLength(s)..] == s[1..][Varint.Decode(s[1..]).used..]
  {
  }

  /** One turn of the loop, with a callback that reads the chunk in full and then judges it. */
  method HandleChunk(blr: BufLimitReader, chunkIndex: nat, maxChunkContentSize: Uint64, accept: Verdict)
    returns (seen: seq<Chunk>, res: Option<Outcome>)
    requires blr.Valid() && !blr.rd.eager && !blr.PerRead
    modifies blr, blr.buf, blr.rd
    ensures blr.Valid()
    ensures match ParseTurn(old(blr.Pending()), blr.rd.end, chunkIndex, maxChunkContentSize, accept)
            case Stop(chunks, outcome) => seen == chunks && res == Some(outcome)
            case Next(chunk, rest) => seen == [chunk] && res == None && !blr.PerRead && blr.Pending() == rest
  {
    var head := ReadHead(blr, chunkIndex, maxChunkContentSize);
    if head.NoMore? {
      return [], Some(Done);
    }
    if head.Bad? {
      return [], Some(Failed(head.err));
    }
    var payload, readErr := ReadRaw(blr, head.size);
    if readErr.Some? {
      return [], Some(Failed(ReadFailed(chunkIndex)));
    }
    var chunk := Chunk(head.code, head.size, payload);
    res := if accept(chunkIndex, chunk) then None else Some(Failed(Rejected(chunkIndex)));
    seen := [chunk];
  }

  function Prepend(seen: seq<Chunk>, p: Parsed): Parsed {
    Parsed(seen + p.chunks, p.outcome)
  }

  /** Chunks handed over before, then one more turn, then the rest. */
  lemma ParseUnrolled(seen: seq<Chunk>, s: seq<Byte>, end: ReadErr, i: nat, maxCount: nat, maxSize: Uint64, accept: Verdict)
    requires i < maxCount
    ensures match ParseTurn(s, end, i, maxSize, accept)
            case Stop(chunks, outcome) =>
              Prepend(seen, Parse(s, end, i, maxCount, maxSize, accept)) == Parsed(seen + chunks, outcome)
            case Next(chunk, rest) =>
              Prepend(seen, Parse(s, end, i, maxCount, maxSize, accept))
              == Prepend(seen + [chunk], Parse(rest, end, i + 1, maxCount, maxSize, accept))
  {
    match ParseTurn(s, end, i, maxSize, accept)
    case Stop(chunks, outcome) =>
    case Next(chunk, rest) =>
      var tail := Parse(rest, end, i + 1, maxCount, maxSize, accept);
      assert seen + ([chunk] + tail.chunks) == seen + [chunk] + tail.chunks;
  }

  lemma NothingPrepended(p: Parsed)
    ensures Prepend([], p) == p
  {
    assert [] + p.chunks == p.chunks;
  }

  /** MakeResponseHandler's loop. */
  method HandleChunks(r: Stream, maxChunkCount: Uint64, maxChunkContentSize: Uint64, accept: Verdict)
    returns (seen: seq<Chunk>, res: Outcome)
    requires r.Valid() && r.taken == [] && !r.eager
    modifies r
    ensures Parsed(seen, res) == Parse(old(r.rest), r.end, 0, maxChunkCount, maxChunkContentSize, accept)
  {
    seen := [];
    if maxChunkCount == 0 {
      return seen, Done;
    }
    ghost var whole := Parse(r.rest, r.end, 0, maxChunkCount, maxChunkContentSize, accept);
    var blr := new BufLimitReader(r, 1024, 0);
    assert blr.Pending() == r.rest;
    NothingPrepended(whole);
    for chunkIndex := 0 to maxChunkCount
      invariant fresh(blr) && fresh(blr.buf) && blr.rd == r
      invariant blr.Valid() && !blr.PerRead
      invariant whole == Prepend(seen, Parse(blr.Pending(), r.end, chunkIndex, maxChunkCount, maxChunkContentSize, accept))
    {
      ParseUnrolled(seen, blr.Pending(), r.end, chunkIndex, maxChunkCount, maxChunkContentSize, accept);
      var chunks, stop := HandleChunk(blr, chunkIndex, maxChunkContentSize, accept);
      seen := seen + chunks;
      if stop.Some? {
        return seen, stop.value;
      }
    }
    assert seen + [] == seen;
    res := Done;
  }
}
