/** Run-length coding in the PackBits format (section 9 of TIFF 6.0): a control byte, then either
    literal bytes or one byte to repeat. */
module Rle {
  import opened Bytes

  const MAX_RUN: nat := 128
  const MIN_RUN: nat := 3
  const RUN_CONTROL: int := -127

  // ----- runs ----------------------------------------------------------------------------------------------------

  /** Length of the run at i, given that run bytes of it are known, up to 128. */
  function Extend(buf: seq<byte>, i: nat, run: nat): (r: nat)
    requires i < |buf| && 1 <= run <= MAX_RUN && i + run <= |buf|
    requires forall k :: i <= k < i + run ==> buf[k] == buf[i]
    ensures run <= r <= MAX_RUN && i + r <= |buf|
    ensures forall k :: i <= k < i + r ==> buf[k] == buf[i]
    decreases MAX_RUN - run
  {
    if i + run < |buf| && buf[i + run] == buf[i] && run < MAX_RUN then Extend(buf, i, run + 1) else run
  }

  function Run(buf: seq<byte>, i: nat): (r: nat)
    requires i < |buf|
    ensures 1 <= r <= MAX_RUN && i + r <= |buf|
    ensures forall k :: i <= k < i + r ==> buf[k] == buf[i]
  {
    Extend(buf, i, 1)
  }

  /** Where the literal block ends that has lit bytes before i: at the end of the buffer, in front
      of a run, or when it is full. */
  function Literal(buf: seq<byte>, i: nat, lit: nat): (r: nat)
    requires i <= |buf| && lit < MAX_RUN
    ensures lit <= r <= MAX_RUN && i + (r - lit) <= |buf|
    ensures r < MAX_RUN && i + (r - lit) < |buf| ==> Run(buf, i + (r - lit)) >= MIN_RUN
    decreases |buf| - i
  {
    if i == |buf| || Run(buf, i) >= MIN_RUN then lit
    else if lit + 1 == MAX_RUN then MAX_RUN
    else Literal(buf, i + 1, lit + 1)
  }

  /** Length of the literal block at i, whose first bytes are no run. */
  function LiteralBlock(buf: seq<byte>, i: nat): (r: nat)
    requires i < |buf| && Run(buf, i) < MIN_RUN
    ensures 1 <= r <= MAX_RUN && i + r <= |buf|
    ensures r < MAX_RUN && i + r < |buf| ==> Run(buf, i + r) >= MIN_RUN
  {
    Literal(buf, i + Run(buf, i), Run(buf, i))
  }

  // ----- encoding ------------------------------------------------------------------------------------------------

  /** The stored byte of a signed 8-bit control value, and back. */
  function ControlByte(c: int): byte
    requires -128 <= c < 128
  {
    if c < 0 then c + 256 else c
  }

  function Control(b: byte): (c: int)
    ensures -128 <= c < 128
  {
    if b < 128 then b else b - 256
  }

  /** The encoding of the buffer from position i. */
  function EncodedFrom(buf: seq<byte>, i: nat): seq<byte>
    requires i <= |buf|
    decreases |buf| - i
  {
    if i == |buf| then []
    else if Run(buf, i) >= MIN_RUN then
      [ControlByte(1 - Run(buf, i)), buf[i]] + EncodedFrom(buf, i + Run(buf, i))
    else
      var lit := LiteralBlock(buf, i);
      [ControlByte(lit - 1)] + buf[i..i + lit] + EncodedFrom(buf, i + lit)
  }

  function Encoded(buf: seq<byte>): seq<byte>
  {
    EncodedFrom(buf, 0)
  }

  method DetectRun(buf: array<byte>, i: nat) returns (run: nat)
    requires i < buf.Length
    ensures run == Run(buf[..], i)
  {
    run := 1;
    while i + run < buf.Length && buf[i + run] == buf[i] && run < MAX_RUN
      invariant 1 <= run <= MAX_RUN && i + run <= buf.Length
      invariant forall k :: i <= k < i + run ==> buf[k] == buf[i]
      invariant Extend(buf[..], i, run) == Run(buf[..], i)
      decreases MAX_RUN - run
    {
      run := run + 1;
    }
  }

  lemma LiteralUnfold(buf: seq<byte>, i: nat, lit: nat)
    requires i <= |buf| && lit < MAX_RUN
    ensures Literal(buf, i, lit) ==
            if i == |buf| || Run(buf, i) >= MIN_RUN then lit
            else if lit + 1 == MAX_RUN then MAX_RUN
            else Literal(buf, i + 1, lit + 1)
  {
  }

  method DetectLiteral(buf: array<byte>, start: nat, run: nat) returns (i: nat, lit: nat)
    requires start < buf.Length && run == Run(buf[..], start) < MIN_RUN
    ensures lit == LiteralBlock(buf[..], start) && i == start + lit
  {
    hide Run, Literal;
    lit := run;
    i := start + run;
    while i < buf.Length
      invariant i == start + lit <= buf.Length && lit < MAX_RUN
      invariant Literal(buf[..], i, lit) == LiteralBlock(buf[..], start)
      decreases buf.Length - i
    {
      LiteralUnfold(buf[..], i, lit);
      var r := DetectRun(buf, i);
      if r >= MIN_RUN {
        return;
      }
      i := i + 1;
      lit := lit + 1;
      if lit == MAX_RUN {
        return;
      }
    }
    LiteralUnfold(buf[..], i, lit);
  }

  /** The block at position i of a non-empty rest, and how far it reaches. */
  function Block(buf: seq<byte>, i: nat): (b: seq<byte>)
    requires i < |buf|
  {
    if Run(buf, i) >= MIN_RUN then [ControlByte(1 - Run(buf, i)), buf[i]]
    else [ControlByte(LiteralBlock(buf, i) - 1)] + buf[i..i + LiteralBlock(buf, i)]
  }

  function Reach(buf: seq<byte>, i: nat): (j: nat)
    requires i < |buf|
    ensures i < j <= |buf|
  {
    i + if Run(buf, i) >= MIN_RUN then Run(buf, i) else LiteralBlock(buf, i)
  }

  lemma EncodedUnfold(buf: seq<byte>, i: nat)
    requires i < |buf|
    ensures EncodedFrom(buf, i) == Block(buf, i) + EncodedFrom(buf, Reach(buf, i))
  {
    hide Run, LiteralBlock, ControlByte;
    if Run(buf, i) >= MIN_RUN {
      assert Reach(buf, i) == i + Run(buf, i);
    } else {
      assert Reach(buf, i) == i + LiteralBlock(buf, i);
    }
  }

  /** First pass: the size of the encoding. */
  method EncodeComputeSize(buf: array<byte>) returns (size: nat)
    ensures size == |Encoded(buf[..])|
  {
    hide Run, Literal, EncodedFrom;
    size := 0;
    var i := 0;
    while i < buf.Length
      invariant 0 <= i <= buf.Length
      invariant size + |EncodedFrom(buf[..], i)| == |Encoded(buf[..])|
      decreases buf.Length - i
    {
      EncodedUnfold(buf[..], i);
      var run := DetectRun(buf, i);
      if run >= MIN_RUN {
        size := size + 2;
        i := i + run;
      } else {
        var lit;
        i, lit := DetectLiteral(buf, i, run);
        size := size + 1 + lit;
      }
    }
    EncodedEnd(buf[..]);
  }

  /** Copies n bytes, as memcpy does. */
  method CopyBytes(dst: array<byte>, p: nat, src: array<byte>, i: nat, n: nat)
    requires dst != src && p + n <= dst.Length && i + n <= src.Length
    modifies dst
    ensures dst[..p + n] == old(dst[..p]) + src[i..i + n]
  {
    for k := 0 to n
      invariant dst[..p + k] == old(dst[..p]) + src[i..i + k]
    {
      dst[p + k] := src[i + k];
      assert dst[..p + k + 1] == dst[..p + k] + [src[i + k]];
    }
  }

  /** Writes a run: the control byte and the byte to repeat. */
  method WriteRun(out: array<byte>, p: nat, run: nat, v: byte) returns (q: nat)
    requires MIN_RUN <= run <= MAX_RUN && p + 2 <= out.Length
    modifies out
    ensures q == p + 2 && out[..q] == old(out[..p]) + [ControlByte(1 - run), v]
  {
    ghost var was := out[..p];
    out[p] := ControlByte(1 - run);
    assert out[..p + 1] == was + [ControlByte(1 - run)];
    out[p + 1] := v;
    assert out[..p + 2] == out[..p + 1] + [v];
    q := p + 2;
  }

  /** Writes a literal block: the control byte and the bytes themselves. */
  method WriteLiteral(buf: array<byte>, i: nat, lit: nat, out: array<byte>, p: nat) returns (q: nat)
    requires buf != out && 1 <= lit <= MAX_RUN && i + lit <= buf.Length && p + 1 + lit <= out.Length
    modifies out
    ensures q == p + 1 + lit && out[..q] == old(out[..p]) + ([ControlByte(lit - 1)] + buf[i..i + lit])
  {
    ghost var was := out[..p];
    out[p] := ControlByte(lit - 1);
    assert out[..p + 1] == was + [ControlByte(lit - 1)];
    CopyBytes(out, p + 1, buf, i, lit);
    q := p + 1 + lit;
  }

  lemma BlockUnfold(buf: seq<byte>, i: nat)
    requires i < |buf|
    ensures Run(buf, i) >= MIN_RUN ==>
              Block(buf, i) == [ControlByte(1 - Run(buf, i)), buf[i]] && Reach(buf, i) == i + Run(buf, i)
    ensures Run(buf, i) < MIN_RUN ==>
              var lit := LiteralBlock(buf, i);
              Block(buf, i) == [ControlByte(lit - 1)] + buf[i..i + lit] && Reach(buf, i) == i + lit
  {
    hide Run, LiteralBlock;
  }

  /** Writes the block at position i. */
  method WriteBlock(buf: array<byte>, i: nat, out: array<byte>, p: nat) returns (j: nat, q: nat)
    requires i < buf.Length && buf != out && p + |Block(buf[..], i)| <= out.Length
    modifies out
    ensures j == Reach(buf[..], i) && q == p + |Block(buf[..], i)|
    ensures out[..q] == old(out[..p]) + Block(buf[..], i)
  {
    hide Run, LiteralBlock, Block, Reach, ControlByte;
    ghost var bytes := buf[..];
    BlockUnfold(bytes, i);
    var run := DetectRun(buf, i);
    if run >= MIN_RUN {
      q := WriteRun(out, p, run, buf[i]);
      j := i + run;
    } else {
      var lit;
      j, lit := DetectLiteral(buf, i, run);
      assert bytes[i..i + lit] == buf[i..i + lit];
      q := WriteLiteral(buf, i, lit, out, p);
      assert buf[..] == bytes;
    }
  }

  /** Second pass: the encoding itself, in an array of the size found by the first pass. */
  method Encode(buf: array<byte>) returns (out: array?<byte>)
    ensures out == null <==> buf.Length == 0
    ensures out != null ==> fresh(out) && out[..] == Encoded(buf[..])
  {
    hide EncodedFrom, Block, Reach;
    ghost var bytes := buf[..];
    var s := EncodeComputeSize(buf);
    EncodedEmpty(bytes);
    if s == 0 {
      return null;
    }
    out := new byte[s];
    var p: nat, i: nat := 0, 0;
    while i < buf.Length
      invariant 0 <= i <= buf.Length && 0 <= p <= s && buf[..] == bytes
      invariant out[..p] + EncodedFrom(bytes, i) == Encoded(bytes)
      decreases buf.Length - i
    {
      EncodedUnfold(bytes, i);
      assert |out[..p] + Block(bytes, i)| <= |Encoded(bytes)|;
      i, p := WriteBlock(buf, i, out, p);
    }
    EncodedEnd(bytes);
    assert out[..p] == out[..];
  }

  lemma EncodedEnd(buf: seq<byte>)
    ensures EncodedFrom(buf, |buf|) == []
  {
  }

  lemma EncodedEmpty(buf: seq<byte>)
    ensures Encoded(buf) == [] <==> buf == []
  {
  }

  // ----- decoding ------------------------------------------------------------------------------------------------

  function Repeat(v: byte, n: nat): (s: seq<byte>)
    ensures |s| == n && forall k :: 0 <= k < n ==> s[k] == v
  {
    seq(n, _ => v)
  }

  /** What the bytes from position i decode to; None when a block is cut short. */
  function DecodedFrom(buf: seq<byte>, i: nat): Option<seq<byte>>
    requires i <= |buf|
    decreases |buf| - i
  {
    if i == |buf| then Some([])
    else
      var c := Control(buf[i]);
      if c >= 0 then
        if i + 1 + c + 1 > |buf| then None
        else Prepend(buf[i + 1..i + c + 2], DecodedFrom(buf, i + c + 2))
      else if c >= RUN_CONTROL then
        if i + 1 >= |buf| then None
        else Prepend(Repeat(buf[i + 1], 1 - c), DecodedFrom(buf, i + 2))
      else DecodedFrom(buf, i + 1)
  }

  function Prepend(s: seq<byte>, r: Option<seq<byte>>): Option<seq<byte>>
  {
    match r
    case None => None
    case Some(t) => Some(s + t)
  }

  function Decoded(buf: seq<byte>): Option<seq<byte>>
  {
    DecodedFrom(buf, 0)
  }

  /** First pass: the size of the decoding; zero also for malformed input. */
  method DecodeComputeSize(buf: array<byte>) returns (size: nat)
    ensures size == if Decoded(buf[..]).Some? then |Decoded(buf[..]).value| else 0
  {
    size := 0;
    var i := 0;
    while i < buf.Length
      invariant 0 <= i <= buf.Length
      invariant Decoded(buf[..]).Some? <==> DecodedFrom(buf[..], i).Some?
      invariant Decoded(buf[..]).Some? ==> size + |DecodedFrom(buf[..], i).value| == |Decoded(buf[..]).value|
      decreases buf.Length - i
    {
      var control := Control(buf[i]);
      i := i + 1;
      if control >= 0 {
        var count := control + 1;
        if i + count > buf.Length {
          return 0;
        }
        size := size + count;
        i := i + count;
      } else if control >= RUN_CONTROL {
        var count := 1 - control;
        if i >= buf.Length {
          return 0;
        }
        size := size + count;
        i := i + 1;
      }
    }
  }

  /** Fills n bytes with v, as memset does. */
  method FillBytes(dst: array<byte>, p: nat, v: byte, n: nat)
    requires p + n <= dst.Length
    modifies dst
    ensures dst[..p + n] == old(dst[..p]) + Repeat(v, n)
  {
    for k := 0 to n
      invariant dst[..p + k] == old(dst[..p]) + Repeat(v, k)
    {
      dst[p + k] := v;
      assert dst[..p + k + 1] == dst[..p + k] + [v];
      assert Repeat(v, k + 1) == Repeat(v, k) + [v];
    }
  }

  lemma DecodedUnfold(buf: seq<byte>, i: nat)
    requires i < |buf| && DecodedFrom(buf, i).Some?
    ensures var c := Control(buf[i]);
            if c >= 0 then
              && i + c + 2 <= |buf| && DecodedFrom(buf, i + c + 2).Some?
              && DecodedFrom(buf, i).value == buf[i + 1..i + c + 2] + DecodedFrom(buf, i + c + 2).value
            else if c >= RUN_CONTROL then
              && i + 2 <= |buf| && DecodedFrom(buf, i + 2).Some?
              && DecodedFrom(buf, i).value == Repeat(buf[i + 1], 1 - c) + DecodedFrom(buf, i + 2).value
            else DecodedFrom(buf, i) == DecodedFrom(buf, i + 1)
  {
  }

  /** Writes what the block at position i stands for. The checks of the first pass, repeated
      here, never fail. */
  method ReadBlock(buf: array<byte>, start: nat, out: array<byte>, p: nat) returns (i: nat, q: nat)
    requires start < buf.Length && buf != out && p <= out.Length
    requires DecodedFrom(buf[..], start).Some? && p + |DecodedFrom(buf[..], start).value| <= out.Length
    modifies out
    ensures start < i <= buf.Length && DecodedFrom(buf[..], i).Some? && p <= q <= out.Length
    ensures out[..q] + DecodedFrom(buf[..], i).value == old(out[..p]) + DecodedFrom(buf[..], start).value
  {
    hide DecodedFrom;
    ghost var bytes := buf[..];
    DecodedUnfold(bytes, start);
    var control := Control(buf[start]);
    i, q := start + 1, p;
    if control >= 0 {
      var count := control + 1;
      if i + count > buf.Length {
        assert false;
      }
      CopyBytes(out, p, buf, i, count);
      assert bytes[i..i + count] == buf[i..i + count];
      i, q := i + count, p + count;
    } else if control >= RUN_CONTROL {
      var count := 1 - control;
      if i >= buf.Length {
        assert false;
      }
      FillBytes(out, p, buf[i], count);
      i, q := i + 1, p + count;
    }
    assert buf[..] == bytes;
  }

  /** Second pass. */
  method Decode(buf: array<byte>) returns (out: array?<byte>)
    ensures out == null <==> Decoded(buf[..]) == None || Decoded(buf[..]) == Some([])
    ensures out != null ==> fresh(out) && Decoded(buf[..]) == Some(out[..])
  {
    hide DecodedFrom;
    ghost var bytes := buf[..];
    var s := DecodeComputeSize(buf);
    if s == 0 {
      assert Decoded(bytes).Some? ==> Decoded(bytes).value == [];
      return null;
    }
    ghost var goal := Decoded(bytes).value;
    out := new byte[s];
    var p: nat, i: nat := 0, 0;
    while i < buf.Length
      invariant i <= buf.Length && p <= s == |goal| && buf[..] == bytes
      invariant DecodedFrom(bytes, i).Some? && out[..p] + DecodedFrom(bytes, i).value == goal
      decreases buf.Length - i
    {
      assert p + |DecodedFrom(bytes, i).value| == |goal|;
      i, p := ReadBlock(buf, i, out, p);
    }
    DecodedEnd(bytes);
    assert i == |bytes| && out[..p] == goal;
    assert out[..p] == out[..];
  }

  lemma DecodedEnd(buf: seq<byte>)
    ensures DecodedFrom(buf, |buf|) == Some([])
  {
  }

  // ----- the round trip ------------------------------------------------------------------------------------------

  /** Decoding depends only on what follows. */
  lemma {:induction false} DecodedSuffix(a: seq<byte>, b: seq<byte>, i: nat)
    requires i <= |b|
    ensures DecodedFrom(a + b, |a| + i) == DecodedFrom(b, i)
    decreases |b| - i
  {
    if i < |b| {
      var c := Control(b[i]);
      if c >= 0 {
        if i + c + 2 <= |b| {
          DecodedSuffix(a, b, i + c + 2);
          assert (a + b)[|a| + i + 1..|a| + i + c + 2] == b[i + 1..i + c + 2];
        }
      } else if c >= RUN_CONTROL {
        if i + 1 < |b| { DecodedSuffix(a, b, i + 2); }
      } else {
        DecodedSuffix(a, b, i + 1);
      }
    }
  }

  lemma RunBlockDecodes(run: nat, v: byte, rest: seq<byte>)
    requires MIN_RUN <= run <= MAX_RUN
    ensures Decoded([ControlByte(1 - run), v] + rest) == Prepend(Repeat(v, run), Decoded(rest))
  {
    DecodedSuffix([ControlByte(1 - run), v], rest, 0);
  }

  lemma LiteralBlockDecodes(lit: seq<byte>, rest: seq<byte>)
    requires 1 <= |lit| <= MAX_RUN
    ensures Decoded([ControlByte(|lit| - 1)] + lit + rest) == Prepend(lit, Decoded(rest))
  {
    var a := [ControlByte(|lit| - 1)] + lit;
    DecodedSuffix(a, rest, 0);
    assert (a + rest)[1..|lit| + 1] == lit;
  }

  lemma BlockDecodes(buf: seq<byte>, i: nat, rest: seq<byte>)
    requires i < |buf|
    ensures Decoded(Block(buf, i) + rest) == Prepend(buf[i..Reach(buf, i)], Decoded(rest))
  {
    hide Decoded, Run, Literal;
    if Run(buf, i) >= MIN_RUN {
      RunBlockDecodes(Run(buf, i), buf[i], rest);
      assert Block(buf, i) == [ControlByte(1 - Run(buf, i)), buf[i]];
      assert buf[i..Reach(buf, i)] == Repeat(buf[i], Run(buf, i));
    } else {
      var lit := buf[i..i + LiteralBlock(buf, i)];
      LiteralBlockDecodes(lit, rest);
      assert Block(buf, i) == [ControlByte(|lit| - 1)] + lit;
      assert buf[i..Reach(buf, i)] == lit;
      assert Decoded(Block(buf, i) + rest) == Prepend(lit, Decoded(rest));
    }
  }

  lemma {:induction false} DecodeEncodeFrom(buf: seq<byte>, i: nat)
    requires i <= |buf|
    ensures Decoded(EncodedFrom(buf, i)) == Some(buf[i..])
    decreases |buf| - i
  {
    hide Decoded, EncodedFrom, Block, Reach;
    if i == |buf| {
      NothingDecodes();
      EncodedEnd(buf);
    } else {
      var j := Reach(buf, i);
      EncodedUnfold(buf, i);
      DecodeEncodeFrom(buf, j);
      BlockDecodes(buf, i, EncodedFrom(buf, j));
      assert buf[i..] == buf[i..j] + buf[j..];
    }
  }

  lemma NothingDecodes()
    ensures Decoded([]) == Some([])
  {
  }

  /** Decoding undoes encoding. */
  lemma DecodeEncode(buf: seq<byte>)
    ensures Decoded(Encoded(buf)) == Some(buf)
  {
    DecodeEncodeFrom(buf, 0);
    assert buf[0..] == buf;
  }

  // ----- expansion -----------------------------------------------------------------------------------------------

  /** A full literal block costs one byte more than it holds; a shorter one is the last block or
      is followed by a run, which saves at least one byte. */
  lemma {:induction false} ExpansionFrom(buf: seq<byte>, i: nat)
    requires i <= |buf|
    ensures |EncodedFrom(buf, i)| <= (|buf| - i) + (|buf| - i + 127) / 128
    ensures i < |buf| && Run(buf, i) >= MIN_RUN ==>
              |EncodedFrom(buf, i)| + 1 <= (|buf| - i) + (|buf| - i + 127) / 128
    decreases |buf| - i
  {
    hide Run, Literal, EncodedFrom;
    if i < |buf| {
      EncodedUnfold(buf, i);
      ExpansionFrom(buf, Reach(buf, i));
      Overhead(|buf| - i, Reach(buf, i) - i);
    } else {
      EncodedEnd(buf);
    }
  }

  lemma Overhead(a: nat, b: nat)
    requires 0 < b <= a
    ensures (a - b + 127) / 128 <= (a + 127) / 128 && 1 <= (a + 127) / 128
    ensures b >= 128 ==> (a - b + 127) / 128 + 1 <= (a + 127) / 128
  {
  }

  /** The encoding is at most one byte longer for every 128 bytes begun. */
  lemma Expansion(buf: seq<byte>)
    ensures |Encoded(buf)| <= |buf| + (|buf| + 127) / 128
  {
    ExpansionFrom(buf, 0);
  }
}
