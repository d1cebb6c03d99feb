/**
 Base 128 varints of the Protocol Buffers encoding, as written and read by the
 length headers of the req/resp domain.
 */
module Varint {
  import opened Common

  const MAX_VARINT_LEN64: nat := 10

  /** 128 to the power k: the weight of the k-th seven-bit group. */
  function Weight(k: nat): (w: nat)
    ensures w >= 1
  {
    if k == 0 then 1 else 128 * Weight(k - 1)
  }

  /** The wire form of x: seven bits a byte, low group first, top bit set on all but the last. */
  function Encode(x: nat): (s: seq<Byte>)
    ensures |s| >= 1
  {
    if x < 0x80 then [x] else [x % 0x80 + 0x80] + Encode(x / 0x80)
  }

  /** The number whose seven-bit groups are the bytes of s. */
  function Groups(s: seq<Byte>): nat {
    if s == [] then 0 else s[0] % 0x80 + 0x80 * Groups(s[1..])
  }

  /** How many leading bytes of s carry the continuation bit. */
  function Continued(s: seq<Byte>): (k: nat)
    ensures k <= |s|
    ensures forall i :: 0 <= i < k ==> s[i] >= 0x80
    ensures k < |s| ==> s[k] < 0x80
  {
    if s == [] || s[0] < 0x80 then 0 else 1 + Continued(s[1..])
  }

  /** Outcome of reading one header: a number and its length in bytes, more than 64 bits, or input that ends too soon. */
  datatype Decoded = Value(x: Uint64, used: nat) | Overflow(used: nat) | Short

  /** What a header at the front of s means, for every s. */
  function Decode(s: seq<Byte>): (d: Decoded)
    ensures d.Value? ==> 1 <= d.used <= MAX_VARINT_LEN64 && d.used <= |s|
    ensures d.Overflow? ==> d.used == MAX_VARINT_LEN64 <= |s|
  {
    var k := Continued(s);
    if k >= MAX_VARINT_LEN64 then Overflow(MAX_VARINT_LEN64)
    else if k == |s| then Short
    else if k == MAX_VARINT_LEN64 - 1 && s[k] > 1 then Overflow(MAX_VARINT_LEN64)
    else
      GroupsBound(s[..k + 1]);
      Value(Groups(s[..k + 1]), k + 1)
  }

  /** Ten groups fit in 64 bits exactly when the last is 0 or 1; nine always fit. */
  lemma {:induction false} GroupsBound(s: seq<Byte>)
    ensures Groups(s) < Weight(|s|)
    ensures |s| <= 9 ==> Groups(s) < TWO_63
    ensures |s| == 10 && s[9] <= 1 ==> Groups(s) < TWO_64
  {
    GroupsBelow(s);
    if |s| == 10 {
      assert s == s[..9] + [s[9]];
      GroupsBelow(s[..9]);
      GroupsSnoc(s[..9], s[9]);
    }
    WeightMonotone(|s|, 9);
    WeightNine();
  }

  lemma WeightNine()
    ensures Weight(9) == TWO_63
  {
    assert Weight(3) == 128 * 128 * 128;
    assert Weight(6) == Weight(3) * 128 * 128 * 128;
    assert Weight(9) == Weight(6) * 128 * 128 * 128;
  }

  lemma {:induction false} WeightMonotone(a: nat, b: nat)
    ensures a <= b ==> Weight(a) <= Weight(b)
    decreases b
  {
    if a < b {
      WeightMonotone(a, b - 1);
    }
  }

  lemma {:induction false} GroupsBelow(s: seq<Byte>)
    ensures Groups(s) < Weight(|s|)
  {
    if s != [] {
      GroupsBelow(s[1..]);
    }
  }

  /** A group appended at the end weighs 128 to the number of groups before it. */
  lemma {:induction false} GroupsSnoc(s: seq<Byte>, b: Byte)
    ensures Groups(s + [b]) == Groups(s) + b % 0x80 * Weight(|s|)
  {
    if s == [] {
      assert ([] + [b])[1..] == [];
    } else {
      assert (s + [b])[1..] == s[1..] + [b];
      GroupsSnoc(s[1..], b);
      var w := Weight(|s| - 1);
      assert 0x80 * (b % 0x80 * w) == b % 0x80 * (0x80 * w);
    }
  }

  /** The header of x: its bytes but the last carry the continuation bit, and its groups are those of x. */
  lemma {:induction false} EncodeShape(x: nat)
    ensures forall i :: 0 <= i < |Encode(x)| - 1 ==> Encode(x)[i] >= 0x80
    ensures Encode(x)[|Encode(x)| - 1] < 0x80
    ensures Groups(Encode(x)) == x
  {
    if x < 0x80 {
      assert Groups([x]) == x % 0x80 + 0x80 * Groups([x][1..]);
    } else {
      var low, high := x % 0x80, x / 0x80;
      EncodeShape(high);
      assert Encode(x) == [low + 0x80] + Encode(high);
      GroupsCons(low, Encode(high));
      assert x == low + 0x80 * high;
    }
  }

  lemma GroupsCons(low: nat, s: seq<Byte>)
    requires low < 0x80
    ensures Groups([low + 0x80] + s) == low + 0x80 * Groups(s)
  {
    assert ([low + 0x80] + s)[1..] == s;
    assert (low + 0x80) % 0x80 == low;
  }

  /** The i-th byte holds the i-th seven-bit group, the lowest first. */
  lemma {:induction false} EncodeDigits(x: nat, i: nat)
    requires i < |Encode(x)|
    ensures Encode(x)[i] % 0x80 == x / Weight(i) % 0x80
  {
    if i > 0 {
      EncodeDigits(x / 0x80, i - 1);
      DivTwice(x, Weight(i - 1));
    }
  }

  lemma DivTwice(x: nat, w: nat)
    requires w > 0
    ensures x / 0x80 / w == x / (0x80 * w)
  {
    var a, b := x / 0x80, x / 0x80 / w;
    assert b * w <= a < (b + 1) * w;
    assert 0x80 * a <= x < 0x80 * (a + 1);
    Quotient(x, 0x80 * w, b);
  }

  /** The example of the Protocol Buffers encoding: 150 is written as 0x96 0x01. */
  lemma EncodeExample()
    ensures Encode(150) == [0x96, 0x01]
    ensures Decode([0x96, 0x01]) == Value(150, 2)
  {
    assert Encode(150) == [0x96] + Encode(1);
    DecodeEncode(150, []);
    assert [0x96, 0x01] + [] == [0x96, 0x01];
  }

  /** A number below 128 to the n needs at most n bytes. */
  lemma {:induction false} EncodeFits(x: nat, n: nat)
    requires n >= 1 && x < Weight(n)
    ensures |Encode(x)| <= n
  {
    assert Weight(1) == 128 * Weight(0);
    if x >= 0x80 {
      assert x / 0x80 < Weight(n - 1);
      EncodeFits(x / 0x80, n - 1);
    }
  }

  lemma {:induction false} ContinuedOf(s: seq<Byte>, k: nat)
    requires k < |s| && s[k] < 0x80
    requires forall i :: 0 <= i < k ==> s[i] >= 0x80
    ensures Continued(s) == k
  {
    if k > 0 {
      ContinuedOf(s[1..], k - 1);
    }
  }

  lemma {:induction false} ContinuedAtLeast(s: seq<Byte>, k: nat)
    requires k <= |s| && forall i :: 0 <= i < k ==> s[i] >= 0x80
    ensures Continued(s) >= k
  {
    if k > 0 {
      ContinuedAtLeast(s[1..], k - 1);
    }
  }

  /** (b & 0x7f) << (7 * i), before truncation to 64 bits. */
  function Shifted(b: Byte, i: nat): nat {
    b % 0x80 * Weight(i)
  }

  /** The value of the i-th byte's groups on top of those before it. */
  lemma GroupsTurn(s: seq<Byte>, i: nat, x: nat, b: Byte)
    requires i < MAX_VARINT_LEN64 && i < |s| && x == Groups(s[..i]) && b == s[i]
    ensures x + Shifted(b, i) == Groups(s[..i + 1])
    ensures i < 9 || b <= 1 ==> Wrap64(x + Shifted(b, i)) == x + Shifted(b, i) < TWO_64
  {
    assert s[..i + 1] == s[..i] + [b];
    GroupsSnoc(s[..i], b);
    if i < 9 || b <= 1 {
      GroupsBound(s[..i + 1]);
      WrapBelow(Groups(s[..i + 1]));
    }
  }

  /** One turn of the reading loop: what the i-th byte makes of the i groups before it. */
  lemma DecodeTurn(s: seq<Byte>, i: nat, x: nat, b: Byte)
    requires i < MAX_VARINT_LEN64 && i < |s| && x == Groups(s[..i])
    requires Continued(s) >= i && b == s[i]
    ensures x + Shifted(b, i) == Groups(s[..i + 1])
    ensures i < 9 || b <= 1 ==> Wrap64(x + Shifted(b, i)) == x + Shifted(b, i) < TWO_64
    ensures b < 0x80 && (i == 9 ==> b <= 1) ==> Decode(s) == Value(x + Shifted(b, i), i + 1)
    ensures b >= 0x80 ==> Continued(s) >= i + 1
    ensures i == 9 && b > 1 ==> Decode(s) == Overflow(MAX_VARINT_LEN64)
  {
    GroupsTurn(s, i, x, b);
    DecodeStops(s, i);
    if b >= 0x80 {
      ContinuedAtLeast(s, i + 1);
    }
  }

  /** Where decoding stops, told by the byte behind those that carry the continuation bit. */
  lemma DecodeStops(s: seq<Byte>, i: nat)
    requires i < MAX_VARINT_LEN64 && i < |s| && Continued(s) >= i
    ensures s[i] < 0x80 && (i == 9 ==> s[i] <= 1) ==>
              Decode(s).Value? && Decode(s).x == Groups(s[..i + 1]) && Decode(s).used == i + 1
    ensures i == 9 && s[i] > 1 ==> Decode(s) == Overflow(MAX_VARINT_LEN64)
  {
    if s[i] < 0x80 {
      ContinuedOf(s, i);
    } else if i == 9 {
      ContinuedAtLeast(s, 10);
    }
  }

  lemma {:induction false} LastGroup(e: seq<Byte>)
    requires |e| == MAX_VARINT_LEN64 && e[9] < 0x80 && Groups(e) < TWO_64
    ensures e[9] <= 1
  {
    assert e == e[..9] + [e[9]];
    GroupsSnoc(e[..9], e[9]);
    WeightNine();
    assert Shifted(e[9], 9) == e[9] * TWO_63;
  }

  /** A 64-bit number needs at most ten bytes, and a tenth holds only its top bit. */
  lemma {:induction false} EncodeLength(x: Uint64)
    ensures |Encode(x)| <= MAX_VARINT_LEN64
    ensures |Encode(x)| == 10 ==> Encode(x)[9] <= 1
  {
    var e := Encode(x);
    EncodeShape(x);
    WeightNine();
    assert x < Weight(10) by {
      assert Weight(10) == 128 * Weight(9);
    }
    EncodeFits(x, MAX_VARINT_LEN64);
    if |e| == 10 {
      LastGroup(e);
    }
  }

  /** Every 64-bit number is written in 1 to 10 bytes and read back from exactly those, whatever follows. */
  lemma {:induction false} DecodeEncode(x: Uint64, rest: seq<Byte>)
    ensures 1 <= |Encode(x)| <= MAX_VARINT_LEN64
    ensures Decode(Encode(x) + rest) == Value(x, |Encode(x)|)
  {
    var e := Encode(x);
    EncodeShape(x);
    EncodeLength(x);
    ContinuedOf(e + rest, |e| - 1);
    assert (e + rest)[..|e|] == e;
  }

  /** A proper prefix of a header is too short to be one. */
  lemma CutIsShort(x: Uint64, n: nat)
    requires n < |Encode(x)|
    ensures Decode(Encode(x)[..n]) == Short
  {
    EncodeShape(x);
    EncodeLength(x);
    ContinuedAtLeast(Encode(x)[..n], n);
  }

  /** Ten bytes that exceed 64 bits, whatever follows. */
  lemma TooLongOverflows(h: seq<Byte>)
    requires |h| >= 10 && (forall k :: 0 <= k < 9 ==> h[k] >= 0x80) && h[9] > 1
    ensures Decode(h) == Overflow(10)
  {
    if h[9] >= 0x80 {
      ContinuedAtLeast(h, 10);
    } else {
      ContinuedOf(h, 9);
    }
  }

  /** One byte written, the rest of the number still to come. */
  lemma {:induction false} EncodeTurn(done: seq<Byte>, v: nat)
    requires v >= 0x80
    ensures done + Encode(v) == (done + [v % 0x80 + 0x80]) + Encode(v / 0x80)
  {
  }

  /** binary.PutUvarint: fills the front of buf and returns how many bytes it used. */
  method PutUvarint(buf: array<Byte>, x: Uint64) returns (n: nat)
    requires buf.Length >= MAX_VARINT_LEN64
    modifies buf
    ensures n <= MAX_VARINT_LEN64
    ensures n == |Encode(x)| && buf[..] == Encode(x) + old(buf[..])[n..]
  {
    EncodeLength(x);
    var v: nat := x;
    n := 0;
    ghost var done: seq<Byte> := [];
    while v >= 0x80
      invariant Encode(x) == done + Encode(v) && n == |done| < MAX_VARINT_LEN64
      invariant buf[..] == done + old(buf[..])[n..]
      decreases v
    {
      EncodeTurn(done, v);
      done := PutByte(buf, n, v % 0x80 + 0x80, done, old(buf[..]));
      v := v / 0x80;
      n := n + 1;
    }
    done := PutByte(buf, n, v, done, old(buf[..]));
    n := n + 1;
  }

  /** Writes the next byte behind those done so far over what the buffer held before. */
  method PutByte(buf: array<Byte>, n: nat, b: Byte, ghost done: seq<Byte>, ghost before: seq<Byte>) returns (ghost more: seq<Byte>)
    requires n == |done| < buf.Length == |before| && buf[..] == done + before[n..]
    modifies buf
    ensures more == done + [b] && buf[..] == more + before[n + 1..]
  {
    buf[n] := b;
    more := done + [b];
  }
}
