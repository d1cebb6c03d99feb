/** The serving side of a request: header, size check, payload, and the limit the handler keeps between streams. */
module HandleRequest {
  import opened Common
  import opened Streams
  import opened BufLimitRead
  import opened Encode
  import HandleResponse
  import Varint

  datatype RequestErr =
    | BadHeader(cause: VarintErr)
    | TooSmall(size: Uint64)
    | TooBig(size: Uint64)
    | Uncompressable       // the compression cannot bound the encoded size
    | BodyBroken           // the stream broke inside the payload

  /** Compression.MaxEncodedLen: the size limit after compression, if there is one. */
  type MaxEncodedLen = Uint64 -> Option<Uint64>

  /** The verdict on a stream's header under the given limits. */
  function Judge(s: seq<Byte>, end: ReadErr, min: Uint64, max: Uint64, comp: Option<MaxEncodedLen>): Option<RequestErr> {
    match Varint.Decode(s)
    case Short => Some(BadHeader(Cut(end)))
    case Overflow(_) => Some(BadHeader(TooLong))
    case Value(size, _) => JudgeSize(size, min, max, comp)
  }

  function JudgeSize(size: Uint64, min: Uint64, max: Uint64, comp: Option<MaxEncodedLen>): Option<RequestErr> {
    if size < min then Some(TooSmall(size))
    else if size > max then Some(TooBig(size))
    else if comp.Some? && comp.value(max).None? then Some(Uncompressable)
    else None
  }

  /** The captured limit after a stream was handled: it is zeroed by an invalid one and replaced under compression. */
  function NextMax(s: seq<Byte>, end: ReadErr, min: Uint64, max: Uint64, comp: Option<MaxEncodedLen>): Uint64 {
    if max == 0 || Judge(s, end, min, max, comp).Some? then 0
    else if comp.None? then max
    else comp.value(max).value
  }

  /** What a listener that calls RawRequest obtains from an uncompressed stream: a function of its bytes and the limits. */
  function Served(s: seq<Byte>, end: ReadErr, min: Uint64, max: Uint64): Result<seq<Byte>, RequestErr> {
    if max == 0 then Success([])
    else
      var verdict := Judge(s, end, min, max, None);
      if verdict.Some? then Failure(verdict.value)
      else
        var Value(size, used) := Varint.Decode(s);
        var body := s[used..];
        var n := HandleResponse.Obtained(AsInt(size), AsInt(max), |body|);
        if n < Min(AsInt(size), AsInt(max)) && end != EOF then Failure(BodyBroken) else Success(body[..n])
  }

  /** The limit a payload is read under: the captured one, widened once more under compression if it can be. */
  function PayloadLimit(max: Uint64, comp: Option<MaxEncodedLen>): Uint64 {
    if comp.Some? && comp.value(max).Some? then comp.value(max).value else max
  }

  /** The closure of MakeStreamHandler: one object serves every stream of a protocol. */
  class StreamHandler {
    const minRequestContentSize: Uint64
    const comp: Option<MaxEncodedLen>
    var maxRequestContentSize: Uint64

    constructor (min: Uint64, max: Uint64, comp: Option<MaxEncodedLen>)
      ensures minRequestContentSize == min && maxRequestContentSize == max && this.comp == comp
    {
      minRequestContentSize, maxRequestContentSize, this.comp := min, max, comp;
    }

    /** The size checks, which also rewrite the captured limit. */
    method CheckSize(reqLen: Uint64, err: Option<VarintErr>) returns (invalid: Option<RequestErr>)
      modifies this
      ensures invalid == if err.Some? then Some(BadHeader(err.value))
                         else JudgeSize(reqLen, minRequestContentSize, old(maxRequestContentSize), comp)
      ensures maxRequestContentSize == if invalid.Some? then 0
                                       else if comp.None? then old(maxRequestContentSize)
                                       else comp.value(old(maxRequestContentSize)).value
    {
      invalid := None;
      if err.Some? {
        invalid := Some(BadHeader(err.value));
      } else if reqLen < minRequestContentSize {
        invalid := Some(TooSmall(reqLen));
      } else if reqLen > maxRequestContentSize {
        invalid := Some(TooBig(reqLen));
      } else if comp.Some? {
        var s := comp.value(maxRequestContentSize);
        if s.None? {
          invalid := Some(Uncompressable);
        } else {
          maxRequestContentSize := s.value;
        }
      }
      if invalid.Some? { // never read invalid input
        maxRequestContentSize := 0;
      }
    }

    /** Handles one stream up to the call of the listener, which gets a length, a reader (or none) and a verdict. */
    method Handle(stream: Stream) returns (reqLen: Uint64, r: BufLimitReader?, invalid: Option<RequestErr>)
      requires stream.Valid() && stream.taken == [] && !stream.eager
      modifies this, stream
      ensures maxRequestContentSize
              == NextMax(old(stream.rest), stream.end, minRequestContentSize, old(maxRequestContentSize), comp)
      ensures old(maxRequestContentSize) == 0 ==> r == null && reqLen == 0 && invalid == None
      ensures old(maxRequestContentSize) != 0 ==>
                && invalid == Judge(old(stream.rest), stream.end, minRequestContentSize, old(maxRequestContentSize), comp)
                && r != null && r.Valid() && fresh(r) && fresh(r.buf) && r.rd == stream && !r.PerRead
                && r.N == AsInt(PayloadLimit(maxRequestContentSize, comp))
                && r.Pending() == BodyOf(old(stream.rest))
                && (Varint.Decode(old(stream.rest)).Value? ==> reqLen == Varint.Decode(old(stream.rest)).x)
                && (invalid.None? && comp.Some? ==>
                      var once := comp.value(old(maxRequestContentSize)).value;
                      r.N == AsInt(if comp.value(once).Some? then comp.value(once).value else once))
    {
      if maxRequestContentSize == 0 {
        return 0, null, None;
      }
      var blr := new BufLimitReader(stream, 2048, 0);
      assert blr.Pending() == stream.rest;
      var err;
      reqLen, err := blr.ReadSize();
      invalid := CheckSize(reqLen, err);
      blr.N := AsInt(PayloadLimit(maxRequestContentSize, comp));
      r := blr;
    }

    /** An uncompressed stream whose listener calls RawRequest. */
    method Serve(stream: Stream) returns (raw: Result<seq<Byte>, RequestErr>)
      requires stream.Valid() && stream.taken == [] && !stream.eager && comp.None?
      modifies this, stream
      ensures raw == Served(old(stream.rest), stream.end, minRequestContentSize, old(maxRequestContentSize))
      ensures maxRequestContentSize
              == NextMax(old(stream.rest), stream.end, minRequestContentSize, old(maxRequestContentSize), None)
    {
      var reqLen, r, invalid := Handle(stream);
      if invalid.Some? {
        return Failure(invalid.value);
      }
      if r == null { // a limited reader of length 0 never touches its source
        return Success([]);
      }
      var data, err := HandleResponse.ReadRaw(r, reqLen);
      raw := if err.Some? then Failure(BodyBroken) else Success(data);
    }
  }

  /**
   The request round trip under limits min and max. A maximum of zero answers every stream
   as empty; otherwise a request is accepted exactly when its length lies between the two,
   and then handed over unchanged exactly when it is empty or the maximum fits a signed integer.
   */
  lemma RequestRoundTrip(payload: seq<Byte>, end: ReadErr, min: Uint64, max: Uint64)
    requires |payload| < TWO_64
    ensures var r := Served(Message(|payload|, payload), end, min, max);
            && (max == 0 ==> r == Success([]))
            && (max > 0 ==>
                  && (r.Success? <==> min <= |payload| <= max)
                  && (|payload| < min ==> r == Failure(TooSmall(|payload|)))
                  && (min <= |payload| && max < |payload| ==> r == Failure(TooBig(|payload|))))
            && (r.Success? ==> (r.value == payload <==> payload == [] || 0 < max < TWO_63))
  {
    Varint.DecodeEncode(|payload|, payload);
    var s := Message(|payload|, payload);
    assert s[|Varint.Encode(|payload|)|..] == payload;
    assert payload[..|payload|] == payload;
  }

  /** The verdict on a message that announces size, with or without compression: the original limits decide first. */
  lemma AnnouncedSizeJudged(size: Uint64, rest: seq<Byte>, end: ReadErr, min: Uint64, max: Uint64, comp: Option<MaxEncodedLen>)
    ensures Judge(Varint.Encode(size) + rest, end, min, max, comp)
            == if size < min then Some(TooSmall(size))
               else if size > max then Some(TooBig(size))
               else if comp.Some? && comp.value(max).None? then Some(Uncompressable)
               else None
  {
    Varint.DecodeEncode(size, rest);
  }

  /** Bytes behind the announced ones make no difference. */
  lemma RequestThenMore(payload: seq<Byte>, rest: seq<Byte>, end: ReadErr, min: Uint64, max: Uint64)
    requires |payload| < TWO_63 && min <= |payload| <= max < TWO_63
    ensures Served(Message(|payload|, payload) + rest, end, min, max) == Success(payload)
  {
    FieldsOfMessage(|payload|, payload, rest);
    assert (payload + rest)[..|payload|] == payload;
  }

  lemma FieldsOfMessage(size: Uint64, payload: seq<Byte>, rest: seq<Byte>)
    ensures Varint.Decode(Message(size, payload) + rest) == Varint.Value(size, |Varint.Encode(size)|)
    ensures (Message(size, payload) + rest)[|Varint.Encode(size)|..] == payload + rest
  {
    Varint.DecodeEncode(size, payload + rest);
    assert Message(size, payload) + rest == Varint.Encode(size) + (payload + rest);
  }

  /** A request whose stream ends, in whatever way, inside the length header is an invalid one. */
  lemma RequestCutInHeader(size: Uint64, n: nat, end: ReadErr, min: Uint64, max: Uint64)
    requires max > 0 && n < |Varint.Encode(size)|
    ensures Served(Varint.Encode(size)[..n], end, min, max) == Failure(BadHeader(Cut(end)))
  {
    Varint.CutIsShort(size, n);
  }

  /** So is one with a header of more than 64 bits. */
  lemma RequestHeaderTooLong(h: seq<Byte>, end: ReadErr, min: Uint64, max: Uint64)
    requires max > 0 && |h| >= 10 && (forall k :: 0 <= k < 9 ==> h[k] >= 0x80) && h[9] > 1
    ensures Served(h, end, min, max) == Failure(BadHeader(TooLong))
  {
    Varint.TooLongOverflows(h);
  }

  /** A request cut inside its payload: an error if the stream broke, and otherwise served short. */
  lemma RequestCutInPayload(size: Uint64, part: seq<Byte>, end: ReadErr, min: Uint64, max: Uint64)
    requires |part| < size && min <= size <= max < TWO_63
    ensures Served(Message(size, part), end, min, max) == if end == EOF then Success(part) else Failure(BodyBroken)
  {
    Varint.DecodeEncode(size, part);
    assert Message(size, part)[|Varint.Encode(size)|..] == part;
    assert part[..|part|] == part;
  }

  /** Streams handled one after the other: their bytes and how they ended. */
  type History = seq<(seq<Byte>, ReadErr)>

  /** The captured limit after a history of streams. */
  function MaxAfter(h: History, min: Uint64, max: Uint64, comp: Option<MaxEncodedLen>): Uint64 {
    if h == [] then max
    else MaxAfter(h[1..], min, NextMax(h[0].0, h[0].1, min, max, comp), comp)
  }

  predicate AllValid(h: History, min: Uint64, max: Uint64) {
    forall k :: 0 <= k < |h| ==> Judge(h[k].0, h[k].1, min, max, None).None?
  }

  /** A limit of zero stays zero. */
  lemma {:induction false} ZeroStays(h: History, min: Uint64, comp: Option<MaxEncodedLen>)
    ensures MaxAfter(h, min, 0, comp) == 0
  {
    if h != [] {
      ZeroStays(h[1..], min, comp);
    }
  }

  /**
   Whether a later stream is judged by the limits the handler was made with: without
   compression, exactly when no earlier stream was invalid (or the limit was zero anyway).
   */
  lemma {:induction false} SameLimitIffNoInvalid(h: History, min: Uint64, max: Uint64)
    ensures MaxAfter(h, min, max, None) == (if AllValid(h, min, max) then max else 0)
    ensures MaxAfter(h, min, max, None) == max <==> max == 0 || AllValid(h, min, max)
  {
    if h != [] {
      var verdict := Judge(h[0].0, h[0].1, min, max, None);
      if max == 0 || verdict.Some? {
        ZeroStays(h[1..], min, None);
      } else {
        SameLimitIffNoInvalid(h[1..], min, max);
        assert forall k :: 0 <= k < |h[1..]| ==> h[1..][k] == h[k + 1];
        if AllValid(h[1..], min, max) {
          forall k | 0 <= k < |h|
            ensures Judge(h[k].0, h[k].1, min, max, None).None?
          {
            if k > 0 {
              assert h[k] == h[1..][k - 1];
            }
          }
        }
      }
    }
  }

  /** After one invalid stream every later one is served as an empty request, whatever it holds and below any minimum. */
  lemma AfterInvalidAllEmpty(h: History, min: Uint64, max: Uint64, s: seq<Byte>, end: ReadErr)
    requires !AllValid(h, min, max)
    ensures Served(s, end, min, MaxAfter(h, min, max, None)) == Success([])
  {
    SameLimitIffNoInvalid(h, min, max);
  }

  // ---------- the captured limit under compression ----------

  /** f applied n times, as long as it answers. */
  function Iterated(f: MaxEncodedLen, x: Uint64, n: nat): Option<Uint64>
    decreases n
  {
    if n == 0 then Some(x) else if f(x).None? then None else Iterated(f, f(x).value, n - 1)
  }

  /** An encoding that makes room for more than it is given, as framing compressions do. */
  ghost predicate Widening(f: MaxEncodedLen) {
    forall x: Uint64 :: f(x).Some? ==> f(x).value > x
  }

  /** Every stream of a history is valid under the limit it meets: the original one widened once for each stream before it. */
  predicate AllValidDrifting(h: History, min: Uint64, max: Uint64, f: MaxEncodedLen)
    decreases |h|
  {
    h == [] || (Judge(h[0].0, h[0].1, min, max, Some(f)).None? && AllValidDrifting(h[1..], min, f(max).value, f))
  }

  /**
   The limit under a widening compression, exactly: as many applications of MaxEncodedLen
   as streams were handled if each was valid under the limit it met, and zero otherwise.
   */
  lemma {:induction false} CompressedLimit(h: History, min: Uint64, max: Uint64, f: MaxEncodedLen)
    requires Widening(f) && max > 0
    ensures AllValidDrifting(h, min, max, f) ==> Iterated(f, max, |h|) == Some(MaxAfter(h, min, max, Some(f)))
    ensures AllValidDrifting(h, min, max, f) <==> MaxAfter(h, min, max, Some(f)) != 0
    decreases |h|
  {
    if h != [] {
      if Judge(h[0].0, h[0].1, min, max, Some(f)).Some? {
        ZeroStays(h[1..], min, Some(f));
      } else {
        CompressedLimit(h[1..], min, f(max).value, f);
      }
    }
  }

  /** Under a widening compression the captured limit is zero or has grown with every stream handled. */
  lemma {:induction false} CompressedLimitGrows(h: History, min: Uint64, max: Uint64, f: MaxEncodedLen)
    requires Widening(f)
    ensures var after := MaxAfter(h, min, max, Some(f)); after == 0 || after >= max + |h|
    decreases |h|
  {
    if h != [] {
      CompressedLimitGrows(h[1..], min, NextMax(h[0].0, h[0].1, min, max, Some(f)), f);
      ZeroStays(h[1..], min, Some(f));
    }
  }

  /** So a later stream is judged by the original maximum exactly when there was no stream before it, or the maximum is zero. */
  lemma CompressedLimitSameIff(h: History, min: Uint64, max: Uint64, f: MaxEncodedLen)
    requires Widening(f)
    ensures MaxAfter(h, min, max, Some(f)) == max <==> h == [] || max == 0
  {
    CompressedLimitGrows(h, min, max, f);
    ZeroStays(h, min, Some(f));
  }

  /**
   Valid streams alone use the limit up: once a compression that refuses sizes above bound
   has been applied often enough, the limit is zero, and every later request is served as empty.
   */
  lemma {:induction false} CompressedLimitRunsOut(h: History, min: Uint64, max: Uint64, f: MaxEncodedLen, bound: nat)
    requires Widening(f) && (forall x: Uint64 :: x > bound ==> f(x).None?)
    requires max + |h| - 1 > bound && h != []
    ensures MaxAfter(h, min, max, Some(f)) == 0
  {
    var front, last := h[..|h| - 1], h[|h| - 1];
    CompressedLimitGrows(front, min, max, f);
    MaxAfterSnoc(front, last, min, max, Some(f));
    assert h == front + [last];
  }

  lemma {:induction false} MaxAfterSnoc(h: History, stream: (seq<Byte>, ReadErr), min: Uint64, max: Uint64, comp: Option<MaxEncodedLen>)
    ensures MaxAfter(h + [stream], min, max, comp)
            == NextMax(stream.0, stream.1, min, MaxAfter(h, min, max, comp), comp)
    decreases |h|
  {
    if h == [] {
      assert ([] + [stream])[1..] == [];
      assert MaxAfter([stream], min, max, comp) == MaxAfter([stream][1..], min, NextMax(stream.0, stream.1, min, max, comp), comp);
    } else {
      assert (h + [stream])[1..] == h[1..] + [stream];
      MaxAfterSnoc(h[1..], stream, min, NextMax(h[0].0, h[0].1, min, max, comp), comp);
    }
  }

  // ---------- reading after an invalid header ----------

  /**
   A listener that reads an invalid stream all the same: without compression there is nothing
   to read; with one there is exactly when its MaxEncodedLen(0) is a positive signed integer.
   */
  method ReadInvalid(handler: StreamHandler, stream: Stream, room: nat) returns (n: nat)
    requires stream.Valid() && stream.taken == [] && !stream.eager
    requires handler.maxRequestContentSize > 0 && room > 0
    requires Judge(stream.rest, stream.end, handler.minRequestContentSize, handler.maxRequestContentSize, handler.comp).Some?
    modifies handler, stream
    ensures n > 0 <==>
              && handler.comp.Some? && handler.comp.value(0).Some? && 0 < handler.comp.value(0).value < TWO_63
              && BodyOf(old(stream.rest)) != []
  {
    var _, r, _ := handler.Handle(stream);
    var p := new Byte[room];
    ghost var v, p0 := r.State(), p[..];
    var err;
    n, err := r.Read(p);
    DeliveringRead(v, r.State(), p0, p[..], n, err);
  }

  /** What follows the header bytes the decoder consumed. */
  function BodyOf(s: seq<Byte>): seq<Byte> {
    match Varint.Decode(s)
    case Value(_, used) => s[used..]
    case Overflow(used) => s[used..]
    case Short => []
  }
}
