/** What the requesting side makes of a response that is cut short, or of bytes no server would write. */
module TornResponse {
  import opened Common
  import opened Streams
  import opened BufLimitRead
  import opened Encode
  import opened HandleResponse
  import opened RpcMethod
  import Varint

  // ---------- behind whole chunks ----------

  lemma PrependTwice(a: seq<Chunk>, b: seq<Chunk>, p: Parsed)
    ensures Prepend(a, Prepend(b, p)) == Prepend(a + b, p)
  {
    assert a + (b + p.chunks) == (a + b) + p.chunks;
  }

  /** Chunks that fit and are accepted when the first of them has index i. */
  predicate AllAccepted(cs: seq<Chunk>, i: nat, maxSize: Uint64, accept: Verdict) {
    cs != [] ==> Fits(cs[0], maxSize) && accept(i, cs[0]) && AllAccepted(cs[1..], i + 1, maxSize, accept)
  }

  lemma FramesThen(cs: seq<Chunk>, tail: seq<Byte>)
    requires cs != []
    ensures Frames(cs) + tail == Frame(cs[0]) + (Frames(cs[1..]) + tail)
  {
  }

  /** What is made of the bytes s when the i-th chunk is due. */
  type Reading = (seq<Byte>, nat) -> Parsed

  /** If the chunk in front fits and is accepted, it is handed over before the bytes behind it are read. */
  ghost predicate HandsOver(read: Reading, c: Chunk, rest: seq<Byte>, i: nat, maxCount: nat, maxSize: Uint64, accept: Verdict) {
    i < maxCount && Fits(c, maxSize) && accept(i, c) ==> read(Frame(c) + rest, i) == Prepend([c], read(rest, i + 1))
  }

  lemma {:induction false} ChunksHandedOver(cs: seq<Chunk>, tail: seq<Byte>, i: nat, k: nat, read: Reading, maxCount: nat, maxSize: Uint64, accept: Verdict)
    requires forall c, rest, i: nat :: HandsOver(read, c, rest, i, maxCount, maxSize, accept)
    requires i + |cs| == k <= maxCount && AllAccepted(cs, i, maxSize, accept)
    ensures read(Frames(cs) + tail, i) == Prepend(cs, read(tail, k))
    decreases |cs|
  {
    if cs == [] {
      assert Frames(cs) + tail == tail;
      NothingPrepended(read(tail, k));
    } else {
      FramesThen(cs, tail);
      assert HandsOver(read, cs[0], Frames(cs[1..]) + tail, i, maxCount, maxSize, accept);
      ChunksHandedOver(cs[1..], tail, i + 1, k, read, maxCount, maxSize, accept);
      PrependTwice([cs[0]], cs[1..], read(tail, k));
      assert [cs[0]] + cs[1..] == cs;
    }
  }

  function ReadingOf(end: ReadErr, maxCount: nat, maxSize: Uint64, accept: Verdict): Reading {
    (s: seq<Byte>, i: nat) => Parse(s, end, i, maxCount, maxSize, accept)
  }

  lemma FrontChunk(c: Chunk, rest: seq<Byte>, end: ReadErr, i: nat, maxCount: nat, maxSize: Uint64, accept: Verdict)
    requires maxSize < TWO_63
    ensures HandsOver(ReadingOf(end, maxCount, maxSize, accept), c, rest, i, maxCount, maxSize, accept)
  {
    if i < maxCount && Fits(c, maxSize) && accept(i, c) {
      TurnOfFrame(c, rest, end, i, maxSize, accept);
    }
  }

  /** Accepted chunks that fit are handed over, and the bytes behind them are read as if they came first. */
  lemma ReadAfterChunks(cs: seq<Chunk>, tail: seq<Byte>, end: ReadErr, maxCount: nat, maxSize: Uint64, accept: Verdict)
    requires maxSize < TWO_63 && |cs| <= maxCount && AllAccepted(cs, 0, maxSize, accept)
    ensures var read := ReadingOf(end, maxCount, maxSize, accept);
            read(Frames(cs) + tail, 0) == Prepend(cs, read(tail, |cs|))
  {
    var read := ReadingOf(end, maxCount, maxSize, accept);
    forall c, rest, i: nat
      ensures HandsOver(read, c, rest, i, maxCount, maxSize, accept)
    {
      FrontChunk(c, rest, end, i, maxCount, maxSize, accept);
    }
    ChunksHandedOver(cs, tail, 0, |cs|, read, maxCount, maxSize, accept);
  }

  lemma AfterChunks(cs: seq<Chunk>, tail: seq<Byte>, end: ReadErr, maxCount: nat, maxSize: Uint64, accept: Verdict)
    requires maxSize < TWO_63 && |cs| <= maxCount && AllAccepted(cs, 0, maxSize, accept)
    ensures Parse(Frames(cs) + tail, end, 0, maxCount, maxSize, accept)
            == Prepend(cs, Parse(tail, end, |cs|, maxCount, maxSize, accept))
  {
    ReadAfterChunks(cs, tail, end, maxCount, maxSize, accept);
  }

  // ---------- one cut frame ----------

  /** A frame cut inside its header: n of its bytes, the result byte among them. */
  lemma CutInHeader(c: Chunk, n: nat, end: ReadErr, i: nat, maxCount: nat, maxSize: Uint64, accept: Verdict)
    requires i < maxCount && 1 <= n <= |Varint.Encode(c.size)|
    ensures n < |Frame(c)|
    ensures Parse(Frame(c)[..n], end, i, maxCount, maxSize, accept) == Parsed([], Failed(Header(Cut(end))))
  {
    var t, header := Frame(c)[..n], Varint.Encode(c.size);
    assert t[1..] == header[..n - 1];
    Varint.CutIsShort(c.size, n - 1);
  }

  /** A frame whose announced payload does not all arrive, at the end of the bytes. */
  lemma TurnOfCut(d: Chunk, end: ReadErr, i: nat, maxSize: Uint64, accept: Verdict)
    requires |d.payload| < d.size <= Limit(d.code, maxSize) && maxSize < TWO_63
    ensures ParseTurn(Frame(d), end, i, maxSize, accept)
            == if end != EOF then Stop([], Failed(ReadFailed(i)))
               else if accept(i, d) then Next(d, []) else Stop([d], Failed(Rejected(i)))
  {
    FieldsOfFrame(d, []);
    assert Frame(d) + [] == Frame(d) && d.payload + [] == d.payload;
    assert d.payload[..|d.payload|] == d.payload && d.payload[|d.payload|..] == [];
  }

  /** A frame cut inside its payload is the frame of a chunk that announces more than it has. */
  lemma FrameFront(c: Chunk, m: nat)
    requires m <= |c.payload|
    ensures |Frame(c)| == 1 + |Varint.Encode(c.size)| + |c.payload|
    ensures Frame(c)[..1 + |Varint.Encode(c.size)| + m] == Frame(Chunk(c.code, c.size, c.payload[..m]))
  {
  }

  lemma ParseOfTurn(s: seq<Byte>, end: ReadErr, i: nat, maxCount: nat, maxSize: Uint64, accept: Verdict)
    requires i < maxCount
    ensures match ParseTurn(s, end, i, maxSize, accept)
            case Stop(chunks, outcome) => Parse(s, end, i, maxCount, maxSize, accept) == Parsed(chunks, outcome)
            case Next(c, rest) => rest == [] && end == EOF ==> Parse(s, end, i, maxCount, maxSize, accept) == Parsed([c], Done)
  {
  }

  /** A frame cut inside its payload: m of its payload bytes arrive. */
  lemma CutInPayload(c: Chunk, m: nat, end: ReadErr, i: nat, maxCount: nat, maxSize: Uint64, accept: Verdict)
    requires i < maxCount && maxSize < TWO_63 && Fits(c, maxSize) && m < |c.payload|
    ensures var d := Chunk(c.code, c.size, c.payload[..m]);
            Parse(Frame(d), end, i, maxCount, maxSize, accept)
            == if end != EOF then Parsed([], Failed(ReadFailed(i)))
               else Parsed([d], if accept(i, d) then Done else Failed(Rejected(i)))
  {
    var d := Chunk(c.code, c.size, c.payload[..m]);
    TurnOfCut(d, end, i, maxSize, accept);
    ParseOfTurn(Frame(d), end, i, maxCount, maxSize, accept);
  }

  /** A result byte followed by ten header bytes that exceed 64 bits, whatever follows. */
  lemma HeaderTooLong(code: Byte, h: seq<Byte>, end: ReadErr, i: nat, maxCount: nat, maxSize: Uint64, accept: Verdict)
    requires i < maxCount && |h| >= 10 && (forall k :: 0 <= k < 9 ==> h[k] >= 0x80) && h[9] > 1
    ensures Parse([code] + h, end, i, maxCount, maxSize, accept) == Parsed([], Failed(Header(TooLong)))
  {
    assert ([code] + h)[1..] == h;
    Varint.TooLongOverflows(h);
  }

  // ---------- whole responses ----------

  /**
   A response of accepted chunks followed by n bytes of one more frame, cut inside its
   header: an error, also when the stream ends in order there.
   */
  lemma TornInHeader(cs: seq<Chunk>, c: Chunk, n: nat, end: ReadErr, maxCount: nat, maxSize: Uint64, accept: Verdict)
    requires maxSize < TWO_63 && |cs| < maxCount && AllAccepted(cs, 0, maxSize, accept)
    requires 1 <= n <= |Varint.Encode(c.size)|
    ensures n < |Frame(c)|
    ensures Parse(Frames(cs) + Frame(c)[..n], end, 0, maxCount, maxSize, accept) == Parsed(cs, Failed(Header(Cut(end))))
  {
    CutInHeader(c, n, end, |cs|, maxCount, maxSize, accept);
    AfterChunks(cs, Frame(c)[..n], end, maxCount, maxSize, accept);
    assert cs + [] == cs;
  }

  /**
   Cut inside its payload, with m of the payload bytes there: an error unless the stream
   ends in order, and then the callback is handed the short payload.
   */
  lemma TornInPayload(cs: seq<Chunk>, c: Chunk, m: nat, end: ReadErr, maxCount: nat, maxSize: Uint64, accept: Verdict)
    requires maxSize < TWO_63 && |cs| < maxCount && AllAccepted(cs, 0, maxSize, accept)
    requires Fits(c, maxSize) && m < |c.payload|
    ensures var d, k := Chunk(c.code, c.size, c.payload[..m]), |cs|;
            Parse(Frames(cs) + Frame(d), end, 0, maxCount, maxSize, accept)
            == if end != EOF then Parsed(cs, Failed(ReadFailed(k)))
               else Parsed(cs + [d], if accept(k, d) then Done else Failed(Rejected(k)))
  {
    var d, k := Chunk(c.code, c.size, c.payload[..m]), |cs|;
    CutInPayload(c, m, end, k, maxCount, maxSize, accept);
    AfterChunks(cs, Frame(d), end, maxCount, maxSize, accept);
    assert cs + [] == cs;
  }

  /** A response of accepted chunks followed by a header that is too long. */
  lemma TooLongAfter(cs: seq<Chunk>, code: Byte, h: seq<Byte>, end: ReadErr, maxCount: nat, maxSize: Uint64, accept: Verdict)
    requires maxSize < TWO_63 && |cs| < maxCount && AllAccepted(cs, 0, maxSize, accept)
    requires |h| >= 10 && (forall k :: 0 <= k < 9 ==> h[k] >= 0x80) && h[9] > 1
    ensures Parse(Frames(cs) + ([code] + h), end, 0, maxCount, maxSize, accept) == Parsed(cs, Failed(Header(TooLong)))
  {
    HeaderTooLong(code, h, end, |cs|, maxCount, maxSize, accept);
    AfterChunks(cs, [code] + h, end, maxCount, maxSize, accept);
    assert cs + [] == cs;
  }

  // ---------- which bytes are a whole response ----------

  /** A result byte, header bytes, and payload bytes that follow them. */
  datatype Piece = Piece(code: Byte, header: seq<Byte>, payload: seq<Byte>)
  {
    function Bytes(): seq<Byte> {
      [code] + header + payload
    }
  }

  /** The header announces size and nothing more, and size is allowed for the result byte. */
  predicate Announces(p: Piece, size: Uint64, maxSize: Uint64) {
    && Varint.Decode(p.header) == Varint.Value(size, |p.header|)
    && size <= if p.code == 1 || p.code == 2 then 256 else maxSize
  }

  predicate Whole(p: Piece, maxSize: Uint64) {
    |p.payload| < TWO_64 && Announces(p, |p.payload|, maxSize)
  }

  /** A piece whose payload was cut short. */
  ghost predicate Cropped(p: Piece, maxSize: Uint64) {
    exists size: Uint64 :: |p.payload| < size && Announces(p, size, maxSize)
  }

  /**
   Bytes that raise no error when count more chunks may come: whole pieces up to that count,
   or up to an orderly end, where the payload of the last one may be short.
   */
  ghost predicate WellFramed(s: seq<Byte>, ps: seq<Piece>, end: ReadErr, count: nat, maxSize: Uint64)
    decreases |ps|
  {
    if ps == [] then count == 0 || (s == [] && end == EOF)
    else
      && count > 0 && ps[0].Bytes() <= s
      && if Whole(ps[0], maxSize) then WellFramed(s[|ps[0].Bytes()|..], ps[1..], end, count - 1, maxSize)
         else Cropped(ps[0], maxSize) && end == EOF && s == ps[0].Bytes()
  }

  ghost predicate CanBeFramed(s: seq<Byte>, end: ReadErr, count: nat, maxSize: Uint64) {
    exists ps :: WellFramed(s, ps, end, count, maxSize)
  }

  function AcceptAll(): Verdict {
    (i: nat, c: Chunk) => true
  }

  /** A header is decoded from its own bytes, whatever follows. */
  lemma DecodeFront(s: seq<Byte>)
    requires Varint.Decode(s).Value?
    ensures Varint.Decode(s[..Varint.Decode(s).used]) == Varint.Decode(s)
  {
    var used := Varint.Decode(s).used;
    Varint.ContinuedOf(s[..used], used - 1);
    assert s[..used][..used] == s[..used];
  }

  lemma DecodeMore(h: seq<Byte>, more: seq<Byte>)
    requires Varint.Decode(h).Value? && Varint.Decode(h).used == |h|
    ensures Varint.Decode(h + more) == Varint.Decode(h)
  {
    Varint.ContinuedOf(h + more, |h| - 1);
    assert (h + more)[..|h|] == h == h[..|h|];
  }

  lemma Assembled(s: seq<Byte>, used: nat, n: nat)
    requires 1 + used + n <= |s|
    ensures Piece(s[0], s[1..][..used], s[1 + used..][..n]).Bytes() + s[1 + used..][n..] == s
  {
    assert s == [s[0]] + s[1..][..used] + s[1 + used..];
    assert s[1 + used..] == s[1 + used..][..n] + s[1 + used..][n..];
  }

  /** What a turn that hands a chunk over took from the bytes. */
  lemma TurnFields(s: seq<Byte>, end: ReadErr, i: nat, maxSize: Uint64)
    requires maxSize < TWO_63 && ParseTurn(s, end, i, maxSize, AcceptAll()).Next?
    ensures s != [] && Varint.Decode(s[1..]).Value?
    ensures var Next(c, rest), d := ParseTurn(s, end, i, maxSize, AcceptAll()), Varint.Decode(s[1..]);
            var n := Min(d.x, |s| - 1 - d.used);
            && c == Chunk(s[0], d.x, s[1 + d.used..][..n]) && rest == s[1 + d.used..][n..]
            && d.x <= (if s[0] == 1 || s[0] == 2 then 256 else maxSize)
            && (n < d.x ==> end == EOF && rest == [])
  {
  }

  /** A turn that hands a chunk over took a whole piece, or a cropped one at an orderly end. */
  lemma TurnToPiece(s: seq<Byte>, end: ReadErr, i: nat, maxSize: Uint64) returns (p: Piece, rest: seq<Byte>)
    requires maxSize < TWO_63 && ParseTurn(s, end, i, maxSize, AcceptAll()).Next?
    ensures rest == ParseTurn(s, end, i, maxSize, AcceptAll()).rest
    ensures p.Bytes() + rest == s
    ensures Whole(p, maxSize) || (Cropped(p, maxSize) && end == EOF && rest == [])
  {
    TurnFields(s, end, i, maxSize);
    var Value(size, used) := Varint.Decode(s[1..]);
    DecodeFront(s[1..]);
    var n := Min(size, |s| - 1 - used);
    Assembled(s, used, n);
    p, rest := Piece(s[0], s[1..][..used], s[1 + used..][..n]), s[1 + used..][n..];
    assert Announces(p, size, maxSize) && |p.payload| == n;
  }

  lemma PieceFields(p: Piece, s: seq<Byte>)
    requires p.Bytes() <= s
    ensures s != [] && s[0] == p.code
    ensures s[1..] == p.header + s[1 + |p.header|..]
    ensures s[1 + |p.header|..] == p.payload + s[|p.Bytes()|..]
    ensures s[1 + |p.header|..][..|p.payload|] == p.payload && s[1 + |p.header|..][|p.payload|..] == s[|p.Bytes()|..]
  {
  }

  /** And the other way round: such a piece in front is handed over, and the rest is next. */
  lemma PieceToTurn(p: Piece, size: Uint64, s: seq<Byte>, end: ReadErr, i: nat, maxSize: Uint64)
    requires maxSize < TWO_63 && Announces(p, size, maxSize) && p.Bytes() <= s
    requires |p.payload| == size || (|p.payload| < size && end == EOF && s == p.Bytes())
    ensures ParseTurn(s, end, i, maxSize, AcceptAll()) == Next(Chunk(p.code, size, p.payload), s[|p.Bytes()|..])
  {
    PieceFields(p, s);
    DecodeMore(p.header, s[1 + |p.header|..]);
  }

  /** One turn of a response that is handled without an error. */
  lemma DoneTurn(s: seq<Byte>, end: ReadErr, i: nat, maxCount: nat, maxSize: Uint64) returns (p: Option<Piece>, rest: seq<Byte>)
    requires maxSize < TWO_63 && i < maxCount
    requires Parse(s, end, i, maxCount, maxSize, AcceptAll()).outcome.Done?
    ensures p.None? ==> s == [] && end == EOF
    ensures p.Some? ==>
              && Parse(rest, end, i + 1, maxCount, maxSize, AcceptAll()).outcome.Done?
              && p.value.Bytes() + rest == s
              && (Whole(p.value, maxSize) || (Cropped(p.value, maxSize) && end == EOF && rest == []))
  {
    p, rest := None, [];
    if ParseTurn(s, end, i, maxSize, AcceptAll()).Next? {
      var piece;
      piece, rest := TurnToPiece(s, end, i, maxSize);
      p := Some(piece);
    }
  }

  lemma FramedFront(s: seq<Byte>, p: Piece, rest: seq<Byte>, more: seq<Piece>, end: ReadErr, count: nat, maxSize: Uint64)
    requires count > 0 && p.Bytes() + rest == s && WellFramed(rest, more, end, count - 1, maxSize)
    requires Whole(p, maxSize) || (Cropped(p, maxSize) && end == EOF && rest == [])
    ensures WellFramed(s, if Whole(p, maxSize) then [p] + more else [p], end, count, maxSize)
  {
    assert s[|p.Bytes()|..] == rest;
    assert ([p] + more)[1..] == more;
  }

  lemma {:induction false} DoneIsFramed(s: seq<Byte>, end: ReadErr, i: nat, count: nat, maxCount: nat, maxSize: Uint64) returns (ps: seq<Piece>)
    requires maxSize < TWO_63 && i + count == maxCount
    requires Parse(s, end, i, maxCount, maxSize, AcceptAll()).outcome.Done?
    ensures WellFramed(s, ps, end, count, maxSize)
    decreases count
  {
    ps := [];
    if count > 0 {
      var p, rest := DoneTurn(s, end, i, maxCount, maxSize);
      if p.Some? {
        var left := count - 1;
        var more := DoneIsFramed(rest, end, i + 1, left, maxCount, maxSize);
        FramedFront(s, p.value, rest, more, end, count, maxSize);
        ps := if Whole(p.value, maxSize) then [p.value] + more else [p.value];
      }
    }
  }

  /** A piece in front of bytes that are handled without an error. */
  lemma DoneBehind(p: Piece, size: Uint64, s: seq<Byte>, end: ReadErr, i: nat, maxCount: nat, maxSize: Uint64)
    requires maxSize < TWO_63 && i < maxCount && Announces(p, size, maxSize) && p.Bytes() <= s
    requires |p.payload| == size || (|p.payload| < size && end == EOF && s == p.Bytes())
    requires |p.payload| == size ==> Parse(s[|p.Bytes()|..], end, i + 1, maxCount, maxSize, AcceptAll()).outcome.Done?
    ensures Parse(s, end, i, maxCount, maxSize, AcceptAll()).outcome.Done?
  {
    PieceToTurn(p, size, s, end, i, maxSize);
    ParseOfTurn(s, end, i, maxCount, maxSize, AcceptAll());
  }

  lemma {:induction false} FramedIsDone(s: seq<Byte>, ps: seq<Piece>, end: ReadErr, i: nat, count: nat, maxCount: nat, maxSize: Uint64)
    requires maxSize < TWO_63 && i + count == maxCount && WellFramed(s, ps, end, count, maxSize)
    ensures Parse(s, end, i, maxCount, maxSize, AcceptAll()).outcome.Done?
    decreases |ps|
  {
    if ps != [] {
      var p := ps[0];
      if Whole(p, maxSize) {
        FramedIsDone(s[|p.Bytes()|..], ps[1..], end, i + 1, count - 1, maxCount, maxSize);
        DoneBehind(p, |p.payload|, s, end, i, maxCount, maxSize);
      } else {
        var size: Uint64 :| |p.payload| < size && Announces(p, size, maxSize);
        DoneBehind(p, size, s, end, i, maxCount, maxSize);
      }
    }
  }

  /**
   For every byte stream: a response whose chunks are all accepted is handled without an
   error exactly when its bytes are whole pieces up to the chunk cap, or up to an orderly
   end, where the last payload may be short.
   */
  lemma DoneIffWellFramed(s: seq<Byte>, end: ReadErr, maxCount: nat, maxSize: Uint64)
    requires maxSize < TWO_63
    ensures Parse(s, end, 0, maxCount, maxSize, AcceptAll()).outcome.Done? <==> CanBeFramed(s, end, maxCount, maxSize)
  {
    if Parse(s, end, 0, maxCount, maxSize, AcceptAll()).outcome.Done? {
      var ps := DoneIsFramed(s, end, 0, maxCount, maxCount, maxSize);
      assert CanBeFramed(s, end, maxCount, maxSize);
    } else if CanBeFramed(s, end, maxCount, maxSize) {
      var ps :| WellFramed(s, ps, end, maxCount, maxSize);
      FramedIsDone(s, ps, end, 0, maxCount, maxCount, maxSize);
    }
  }
}
