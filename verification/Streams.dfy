/** A file as a byte sequence with a cursor. */
module Streams {
  import opened Bytes

  /** d with the bytes from p on replaced by b, growing when b reaches past the end. */
  function Overwritten(d: seq<byte>, p: nat, b: seq<byte>): (r: seq<byte>)
    requires p <= |d|
    ensures |r| == Max(|d|, p + |b|)
  {
    d[..p] + b + if p + |b| < |d| then d[p + |b|..] else []
  }

  lemma OverwrittenAt(d: seq<byte>, p: nat, b: seq<byte>, i: nat)
    requires p <= |d| && i < |Overwritten(d, p, b)|
    ensures Overwritten(d, p, b)[i] == if p <= i < p + |b| then b[i - p] else d[i]
  {
  }

  /** Writing two pieces one after the other writes them joined. */
  lemma OverwrittenTwice(d: seq<byte>, p: nat, a: seq<byte>, b: seq<byte>)
    requires p <= |d|
    ensures Overwritten(Overwritten(d, p, a), p + |a|, b) == Overwritten(d, p, a + b)
  {
  }

  /** Writing a piece at least as long over an earlier one leaves no trace of the earlier one. */
  lemma OverwrittenAgain(d: seq<byte>, p: nat, a: seq<byte>, b: seq<byte>)
    requires p <= |d| && |a| <= |b|
    ensures Overwritten(Overwritten(d, p, a), p, b) == Overwritten(d, p, b)
  {
  }

  lemma OverwrittenNothing(d: seq<byte>, p: nat)
    requires p <= |d|
    ensures Overwritten(d, p, []) == d
  {
  }

  class Stream {
    var data: seq<byte>
    var pos: nat

    constructor ()
      ensures data == [] && pos == 0
    {
      data, pos := [], 0;
    }

    /** Reads exactly n bytes; None when fewer are left. */
    method Read(n: nat) returns (r: Option<seq<byte>>)
      modifies `pos
      ensures old(pos) + n <= |data| ==> r == Some(data[old(pos)..old(pos) + n]) && pos == old(pos) + n
      ensures old(pos) + n > |data| ==> r == None
    {
      if pos + n > |data| {
        pos := |data|;
        return None;
      }
      r := Some(data[pos..pos + n]);
      pos := pos + n;
    }

    method Write(b: seq<byte>)
      requires pos <= |data|
      modifies this
      ensures data == Overwritten(old(data), old(pos), b) && pos == old(pos) + |b|
    {
      data := Overwritten(data, pos, b);
      pos := pos + |b|;
    }

    method Seek(p: nat)
      modifies `pos
      ensures pos == p
    {
      pos := p;
    }

    /** Moves the cursor forward without reading. */
    method Skip(n: nat)
      modifies `pos
      ensures pos == old(pos) + n
    {
      pos := pos + n;
    }
  }
}
