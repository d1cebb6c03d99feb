/** A reader over lines: turns a source of lines back into bytes, carrying over what does not fit. */
module LinesReader {
  import opened Common

  const NEWLINE: Byte := 10

  type Line = seq<Byte>

  /** The bytes of some lines, each followed by a newline. */
  function Text(lines: seq<Line>): seq<Byte> {
    if lines == [] then [] else lines[0] + [NEWLINE] + Text(lines[1..])
  }

  lemma {:induction false} TextSnoc(lines: seq<Line>, line: Line)
    ensures Text(lines + [line]) == Text(lines) + (line + [NEWLINE])
  {
    if lines == [] {
      assert ([] + [line])[1..] == [];
    } else {
      assert (lines + [line])[1..] == lines[1..] + [line];
      TextSnoc(lines[1..], line);
    }
  }

  /** Two lines on the wire: each is followed by one newline. */
  lemma TextOfTwo(a: Line, b: Line)
    ensures Text([a, b]) == a + [10] + b + [10]
  {
    assert [b][1..] == [] && Text([b]) == b + [NEWLINE] + Text([]);
    assert [a, b][1..] == [b] && Text([a, b]) == a + [NEWLINE] + Text([b]);
  }

  /** The lines a source gives before its first error. */
  function UntilError(script: seq<Option<Line>>): seq<Line> {
    if script == [] || script[0].None? then [] else [script[0].value] + UntilError(script[1..])
  }

  class LinesReader {
    /** What the line function will answer, call by call: a line or an error; an error for ever after. */
    var script: seq<Option<Line>>
    var last: seq<Byte>
    ghost var pulled: seq<Line>
    ghost var delivered: seq<Byte>

    /** Bytes returned so far followed by the carried-over ones are the text of all lines pulled. */
    ghost predicate Valid()
      reads this
    {
      && delivered + last == Text(pulled)
      && (last == [] || last[|last| - 1] == NEWLINE)
    }

    constructor (script: seq<Option<Line>>)
      ensures Valid() && this.script == script && last == [] && delivered == [] && pulled == []
    {
      this.script, last, delivered, pulled := script, [], [], [];
    }

    /** Fn: the next line of the source. */
    method NextLine() returns (line: Option<Line>)
      requires Valid() && last == []
      modifies this
      ensures last == [] && delivered == old(delivered)
      ensures script == if old(script) == [] then [] else old(script)[1..]
      ensures line == if old(script) == [] then None else old(script)[0]
      ensures pulled == if line.Some? then old(pulled) + [line.value] else old(pulled)
      ensures line.Some? ==> delivered + (line.value + [NEWLINE]) == Text(pulled)
      ensures line.None? ==> Valid()
    {
      if script == [] {
        return None;
      }
      line, script := script[0], script[1..];
      if line.Some? {
        TextSnoc(pulled, line.value);
        assert delivered + [] == delivered;
        pulled := pulled + [line.value];
      }
    }

    /** The bytes a read is served from: the carry-over, or the next line with its newline. */
    ghost function Chunk(): Option<seq<Byte>>
      reads this
    {
      if last != [] then Some(last)
      else if script == [] || script[0].None? then None
      else Some(script[0].value + [NEWLINE])
    }

    /** What one successful read of a non-empty buffer does, in terms of the chunk it is served from. */
    twostate predicate Served(p: array<Byte>, n: nat)
      reads this, p
    {
      && n <= p.Length && p[n..] == old(p[n..])
      && old(Chunk()).Some?
      && var chunk := old(Chunk()).value;
         && 0 < n == Min(p.Length, |chunk|) && p[..n] == chunk[..n] && last == chunk[n..]
         && delivered == old(delivered) + chunk[..n]
         && script == (if old(last) != [] then old(script) else old(script)[1..])
         && pulled == if old(last) != [] then old(pulled) else old(pulled) + [old(script)[0].value]
    }

    /** What a failing one does: it consumes the error and touches nothing else. */
    twostate predicate Refused(p: array<Byte>)
      reads this, p
    {
      && p[..] == old(p[..]) && old(Chunk()).None? && last == []
      && delivered == old(delivered) && pulled == old(pulled)
      && script == if old(script) == [] then [] else old(script)[1..]
    }

    /** The loop's work on an empty buffer: from the carry-over if there is one, else from the next line. */
    method Serve(p: array<Byte>) returns (sk: nat, failed: bool)
      requires Valid() && p.Length > 0
      modifies this, p
      ensures Valid()
      ensures failed ==> sk == 0 && Refused(p)
      ensures !failed ==> Served(p, sk) && (sk == p.Length || p[sk - 1] == NEWLINE)
    {
      if |last| > 0 {
        sk := HandOut(p, last);
        failed := false;
      } else {
        var out := NextLine();
        if out.None? {
          return 0, true;
        }
        sk := HandOut(p, out.value + [NEWLINE]);
        failed := false;
      }
    }

    /**
     Read: the loop stops at a full buffer or a line end, so it pulls at most one line, and
     it fails with nothing read or succeeds with at least a byte.
     */
    method Read(p: array<Byte>) returns (n: nat, failed: bool)
      requires Valid()
      modifies this, p
      ensures Valid()
      ensures p.Length == 0 ==> n == 0 && !failed && unchanged(this)
      ensures p.Length > 0 ==> if failed then n == 0 && Refused(p) else Served(p, n)
    {
      n, failed := 0, false;
      while true
        invariant Valid() && !failed
        invariant if n == 0 then unchanged(this) && unchanged(p) else p.Length > 0 && Served(p, n)
        invariant n > 0 ==> n == p.Length || p[n - 1] == NEWLINE
        decreases n == 0
      {
        if p.Length == 0 || n >= p.Length || (n >= 1 && p[n - 1] == NEWLINE) {
          return;
        }
        // a read shorter than the buffer took the whole chunk, and that ends in a newline
        assert n == 0;
        n, failed := Serve(p);
        if failed {
          return;
        }
      }
    }

    /** Copies what fits to the front of p and carries the remainder over. */
    method HandOut(p: array<Byte>, src: seq<Byte>) returns (sk: nat)
      requires p.Length > 0 && src != [] && src[|src| - 1] == NEWLINE && delivered + src == Text(pulled)
      modifies p, this`last, this`delivered
      ensures Valid() && 0 < sk == Min(p.Length, |src|)
      ensures p[..sk] == src[..sk] && p[sk..] == old(p[sk..])
      ensures last == src[sk..] && delivered == old(delivered) + p[..sk]
      ensures sk == p.Length || p[sk - 1] == NEWLINE
    {
      sk := CopyInto(p, p.Length, src);
      assert p[..] == src[..sk] + old(p[sk..]);
      assert (delivered + src[..sk]) + src[sk..] == delivered + src;
      delivered := delivered + src[..sk];
      last := src[sk..];
      assert p[sk - 1] == p[..sk][sk - 1];
    }
  }

  /** One read of whatever size takes the next bytes off the text still to come. */
  lemma TextToCome(last: seq<Byte>, script: seq<Option<Line>>, n: nat, last': seq<Byte>, script': seq<Option<Line>>)
    requires last != [] ==> n <= |last| && last' == last[n..] && script' == script
    requires last == [] ==> script != [] && script[0].Some? && script' == script[1..]
                            && n <= |script[0].value| + 1 && last' == (script[0].value + [NEWLINE])[n..]
    ensures var chunk := if last != [] then last else script[0].value + [NEWLINE];
            last + Text(UntilError(script)) == chunk[..n] + (last' + Text(UntilError(script')))
  {
    var chunk := if last != [] then last else script[0].value + [NEWLINE];
    var tail := Text(UntilError(script'));
    assert last + Text(UntilError(script)) == chunk + tail by {
      if last == [] {
        assert UntilError(script) == [script[0].value] + UntilError(script');
        assert Text(UntilError(script)) == chunk + tail;
      }
    }
    Split(chunk, n, tail);
  }

  lemma Split(a: seq<Byte>, n: nat, b: seq<Byte>)
    requires n <= |a|
    ensures a + b == a[..n] + (a[n..] + b)
  {
  }

  /** What a reader with this carry-over and script still has to give before an error. */
  function ToCome(last: seq<Byte>, script: seq<Option<Line>>): seq<Byte> {
    last + Text(UntilError(script))
  }

  /** One read that is served: its bytes come off the front of the text to come. */
  method ReadSome(lr: LinesReader, size: nat) returns (text: seq<Byte>, failed: bool)
    requires lr.Valid() && size > 0
    modifies lr
    ensures lr.Valid()
    ensures failed ==> text == [] && lr.last == [] && ToCome(old(lr.last), old(lr.script)) == []
    ensures !failed ==>
              && ToCome(old(lr.last), old(lr.script)) == text + ToCome(lr.last, lr.script)
              && (|lr.script| < |old(lr.script)| || (lr.script == old(lr.script) && |lr.last| < |old(lr.last)|))
  {
    var p := new Byte[size];
    ghost var last, script := lr.last, lr.script;
    var n;
    n, failed := lr.Read(p);
    text := p[..n];
    if !failed {
      TextToCome(last, script, n, lr.last, lr.script);
    }
  }

  /** Reading with buffers of any sizes until the first failure returns the carry-over and every line up to the error. */
  method ReadToError(lr: LinesReader, size: nat -> nat) returns (text: seq<Byte>)
    requires lr.Valid()
    modifies lr
    ensures lr.Valid() && lr.last == []
    ensures text == ToCome(old(lr.last), old(lr.script))
  {
    text := [];
    var k: nat := 0;
    ghost var all := ToCome(lr.last, lr.script);
    while true
      invariant lr.Valid()
      invariant text + ToCome(lr.last, lr.script) == all
      decreases |lr.script|, |lr.last|
    {
      ghost var toCome := ToCome(lr.last, lr.script);
      var piece, failed := ReadSome(lr, size(k) + 1);
      if failed {
        assert text + [] == text;
        return;
      }
      assert text + (piece + ToCome(lr.last, lr.script)) == (text + piece) + ToCome(lr.last, lr.script);
      text := text + piece;
      k := k + 1;
    }
  }
}
