/** Exactly which bytes run-length coding writes and reads, block by block, in terms of the control bytes. */
module RleExact {
  import opened Bytes
  import opened Rle

  // ----- encoding ------------------------------------------------------------------------------------------------

  /** Three equal bytes at k. */
  predicate Triple(x: seq<byte>, k: nat)
  {
    k + 2 < |x| && x[k] == x[k + 1] == x[k + 2]
  }

  predicate AllEqual(x: seq<byte>, v: byte)
  {
    forall k :: 0 <= k < |x| ==> x[k] == v
  }

  /** e begins with a repeat block for the longest run x begins with, up to 128 bytes. */
  predicate BeginsWithRepeat(e: seq<byte>, x: seq<byte>)
  {
    && |e| >= 2 && 129 <= e[0] <= 254
    && var n := 257 - e[0];
       n <= |x| && AllEqual(x[..n], e[1]) && (n == 128 || n == |x| || x[n] != e[1])
  }

  /** e begins with a literal block for what x has up to the next three equal bytes, up to 128 bytes. */
  predicate BeginsWithLiteral(e: seq<byte>, x: seq<byte>)
  {
    && |e| >= 1 && e[0] <= 127
    && var n := e[0] as int + 1;
       && n <= |x| && n < |e| && e[1..n + 1] == x[..n]
       && (forall k :: 0 <= k < n ==> !Triple(x, k))
       && (n == 128 || n == |x| || Triple(x, n))
  }

  /** e is a series of such blocks that stands for x. */
  predicate IsCoding(e: seq<byte>, x: seq<byte>)
    decreases |e|
  {
    if x == [] then e == []
    else
      || (BeginsWithRepeat(e, x) && IsCoding(e[2..], x[257 - e[0]..]))
      || (BeginsWithLiteral(e, x) && IsCoding(e[e[0] as int + 2..], x[e[0] as int + 1..]))
  }

  /** There is only one. */
  lemma {:induction false} CodingUnique(e: seq<byte>, f: seq<byte>, x: seq<byte>)
    requires IsCoding(e, x) && IsCoding(f, x)
    ensures e == f
    decreases |e|
  {
    hide BeginsWithRepeat, BeginsWithLiteral;
    if x != [] {
      SameKind(e, f, x);
      if BeginsWithRepeat(e, x) {
        SameRepeat(e, f, x);
        assert e[0] == e[..2][0] == f[..2][0] == f[0];
        CodingUnique(e[2..], f[2..], x[257 - e[0]..]);
        assert e == e[..2] + e[2..] && f == f[..2] + f[2..];
      } else {
        SameLiteral(e, f, x);
        var n := e[0] as int + 2;
        assert e[0] == e[..n][0] == f[..n][0] == f[0];
        CodingUnique(e[n..], f[n..], x[n - 1..]);
        assert e == e[..n] + e[n..] && f == f[..n] + f[n..];
      }
    }
  }

  lemma KindOfBlock(e: seq<byte>, x: seq<byte>)
    ensures BeginsWithRepeat(e, x) ==> Triple(x, 0)
    ensures BeginsWithLiteral(e, x) ==> !Triple(x, 0)
  {
    if BeginsWithRepeat(e, x) {
      var n := 257 - e[0];
      assert x[0] == x[..n][0] && x[1] == x[..n][1] && x[2] == x[..n][2];
    }
  }

  lemma SameKind(e: seq<byte>, f: seq<byte>, x: seq<byte>)
    requires BeginsWithRepeat(e, x) || BeginsWithLiteral(e, x)
    requires BeginsWithRepeat(f, x) || BeginsWithLiteral(f, x)
    ensures BeginsWithRepeat(e, x) <==> BeginsWithRepeat(f, x)
    ensures BeginsWithLiteral(e, x) <==> BeginsWithLiteral(f, x)
    ensures BeginsWithRepeat(e, x) <==> !BeginsWithLiteral(e, x)
  {
    hide BeginsWithRepeat, BeginsWithLiteral, Triple;
    KindOfBlock(e, x);
    KindOfBlock(f, x);
  }

  lemma ElementOf(x: seq<byte>, n: nat, v: byte, k: nat)
    requires k < n <= |x| && AllEqual(x[..n], v)
    ensures x[k] == v
  {
    assert x[..n][k] == x[k];
  }

  lemma NotLonger(e: seq<byte>, f: seq<byte>, x: seq<byte>)
    requires BeginsWithRepeat(e, x) && BeginsWithRepeat(f, x)
    ensures e[0] >= f[0] && e[1] == f[1]
  {
    hide AllEqual;
    var n, m := 257 - e[0], 257 - f[0];
    ElementOf(x, n, e[1], 0);
    ElementOf(x, m, f[1], 0);
    if m < n { ElementOf(x, n, e[1], m); }
  }

  lemma SameRepeat(e: seq<byte>, f: seq<byte>, x: seq<byte>)
    requires BeginsWithRepeat(e, x) && BeginsWithRepeat(f, x)
    ensures |e| >= 2 && |f| >= 2 && e[..2] == f[..2] && 257 - e[0] <= |x| && e[0] <= 254
  {
    hide AllEqual;
    NotLonger(e, f, x);
    NotLonger(f, e, x);
  }

  lemma SameLiteral(e: seq<byte>, f: seq<byte>, x: seq<byte>)
    requires BeginsWithLiteral(e, x) && BeginsWithLiteral(f, x)
    ensures |e| >= 1 && |e| >= e[0] as int + 2 && |f| >= e[0] as int + 2 && e[..e[0] as int + 2] == f[..e[0] as int + 2]
    ensures e[0] as int + 1 <= |x|
  {
    hide Triple;
    var n, m := e[0] as int + 1, f[0] as int + 1;
    assert n == m;
    assert e[..n + 1] == [e[0]] + e[1..n + 1] && f[..n + 1] == [f[0]] + f[1..n + 1];
  }

  lemma {:induction false} RunIsLongest(buf: seq<byte>, i: nat, run: nat)
    requires i < |buf| && 1 <= run <= 128 && i + run <= |buf|
    requires forall k :: i <= k < i + run ==> buf[k] == buf[i]
    ensures var r := Extend(buf, i, run); r == 128 || i + r == |buf| || buf[i + r] != buf[i]
    decreases 128 - run
  {
    if i + run < |buf| && buf[i + run] == buf[i] && run < 128 { RunIsLongest(buf, i, run + 1); }
  }

  lemma RunIsTriple(buf: seq<byte>, i: nat)
    requires i < |buf|
    ensures Run(buf, i) >= 3 <==> Triple(buf, i)
  {
    RunIsLongest(buf, i, 1);
    var r := Run(buf, i);
    if r >= 3 { assert buf[i + 1] == buf[i] && buf[i + 2] == buf[i]; }
  }

  /** From lit bytes on, the literal block takes what does not begin three equal bytes. */
  lemma {:induction false} LiteralStops(buf: seq<byte>, i: nat, lit: nat)
    requires i <= |buf| && lit < 128
    ensures var r := Literal(buf, i, lit);
            && (forall k :: i <= k < i + (r - lit) ==> !Triple(buf, k))
            && (r == 128 || i + (r - lit) == |buf| || Triple(buf, i + (r - lit)))
    decreases |buf| - i
  {
    hide Triple, Run;
    LiteralUnfold(buf, i, lit);
    if i < |buf| {
      RunIsTriple(buf, i);
      if !Triple(buf, i) && lit + 1 < 128 { LiteralStops(buf, i + 1, lit + 1); }
    }
  }

  lemma LiteralIsLongest(buf: seq<byte>, i: nat)
    requires i < |buf| && Run(buf, i) < MIN_RUN
    ensures var r := LiteralBlock(buf, i);
            && (forall k :: i <= k < i + r ==> !Triple(buf, k))
            && (r == 128 || i + r == |buf| || Triple(buf, i + r))
  {
    hide Run, Literal, Triple;
    RunIsTriple(buf, i);
    RunLongest(buf, i);
    var run := Run(buf, i);
    LiteralStops(buf, i + run, run);
    NoTripleInside(buf, i, run);
  }

  lemma NoTripleInside(buf: seq<byte>, i: nat, run: nat)
    requires i < |buf| && run < 3 && i + run <= |buf| && !Triple(buf, i)
    requires i + run == |buf| || buf[i + run] != buf[i]
    requires forall k :: i <= k < i + run ==> buf[k] == buf[i]
    ensures forall k :: i <= k < i + run ==> !Triple(buf, k)
  {
  }

  lemma TripleBehind(buf: seq<byte>, i: nat, k: nat)
    requires i <= |buf|
    ensures Triple(buf[i..], k) <==> Triple(buf, i + k)
  {
  }

  lemma FirstRepeat(buf: seq<byte>, i: nat, rest: seq<byte>)
    requires i < |buf| && Run(buf, i) >= 3
    ensures BeginsWithRepeat(Block(buf, i) + rest, buf[i..])
    ensures Block(buf, i)[0] == 257 - Run(buf, i) && |Block(buf, i)| == 2 && Reach(buf, i) == i + Run(buf, i)
  {
    hide Run;
    BlockUnfold(buf, i);
    RunLongest(buf, i);
    var x := buf[i..];
    var e, n := Block(buf, i) + rest, Run(buf, i);
    assert e[0] == 257 - n && e[1] == buf[i];
    assert n < |x| ==> x[n] == buf[i + n];
  }

  lemma RunLongest(buf: seq<byte>, i: nat)
    requires i < |buf|
    ensures var r := Run(buf, i); r == 128 || i + r == |buf| || buf[i + r] != buf[i]
  {
    RunIsLongest(buf, i, 1);
  }

  lemma FirstLiteral(buf: seq<byte>, i: nat, rest: seq<byte>)
    requires i < |buf| && Run(buf, i) < 3
    ensures BeginsWithLiteral(Block(buf, i) + rest, buf[i..])
    ensures |Block(buf, i)| == Block(buf, i)[0] as int + 2 && Reach(buf, i) == i + Block(buf, i)[0] as int + 1
  {
    hide Run, LiteralBlock, Triple;
    BlockUnfold(buf, i);
    LiteralIsLongest(buf, i);
    var n := LiteralBlock(buf, i);
    var x, e := buf[i..], Block(buf, i) + rest;
    assert e[0] == n - 1 && e[1..n + 1] == buf[i..i + n] == x[..n];
    forall k | 0 <= k <= n
      ensures Triple(x, k) <==> Triple(buf, i + k)
    {
      TripleBehind(buf, i, k);
    }
  }

  lemma {:induction false} EncodedIsCodingFrom(buf: seq<byte>, i: nat)
    requires i <= |buf|
    ensures IsCoding(EncodedFrom(buf, i), buf[i..])
    decreases |buf| - i
  {
    hide Run, EncodedFrom, Block, Reach, BeginsWithRepeat, BeginsWithLiteral;
    if i == |buf| {
      EncodedEnd(buf);
    } else {
      var j := Reach(buf, i);
      var b, rest := Block(buf, i), EncodedFrom(buf, j);
      EncodedUnfold(buf, i);
      EncodedIsCodingFrom(buf, j);
      assert buf[i..][j - i..] == buf[j..];
      assert (b + rest)[|b|..] == rest;
      if Run(buf, i) >= 3 {
        FirstRepeat(buf, i, rest);
      } else {
        FirstLiteral(buf, i, rest);
      }
    }
  }

  /** The encoder writes exactly this series of blocks: three or more equal bytes as a repeat block, as many as there
      are up to 128, and everything else in literal blocks of up to 128 bytes. */
  lemma EncodedIff(e: seq<byte>, x: seq<byte>)
    ensures e == Encoded(x) <==> IsCoding(e, x)
  {
    hide IsCoding, EncodedFrom;
    EncodedIsCodingFrom(x, 0);
    assert x[0..] == x;
    if IsCoding(e, x) { CodingUnique(e, Encoded(x), x); }
  }

  /** A run of 3 to 128 bytes becomes two bytes. */
  lemma RunCoded(v: byte, n: nat)
    requires 3 <= n <= 128
    ensures Encoded(Repeat(v, n)) == [257 - n, v]
  {
    var x, e := Repeat(v, n), [257 - n, v];
    assert x[..n] == x && x[n..] == [] && e[2..] == [];
    assert BeginsWithRepeat(e, x);
    assert IsCoding([], []);
    EncodedIff(e, x);
  }

  /** Up to 128 bytes without three equal ones in a row become one block. */
  lemma LiteralCoded(x: seq<byte>)
    requires 1 <= |x| <= 128 && forall k :: 0 <= k < |x| ==> !Triple(x, k)
    ensures Encoded(x) == [(|x| - 1) as byte] + x
  {
    hide Triple;
    var e := [(|x| - 1) as byte] + x;
    assert e[1..|x| + 1] == x[..|x|] && x[|x|..] == [] && e[|x| + 1..] == [];
    assert BeginsWithLiteral(e, x);
    assert IsCoding([], []);
    EncodedIff(e, x);
  }

  // ----- decoding ------------------------------------------------------------------------------------------------

  /** Any bytes at all, by the first of them: up to 127 literal bytes follow, 128 stands for nothing, above it the
      next byte is repeated; a block cut short makes the whole malformed. */
  lemma DecodedByControl(b: byte, rest: seq<byte>)
    ensures Decoded([]) == Some([])
    ensures b <= 127 && |rest| <= b ==> Decoded([b] + rest) == None
    ensures b <= 127 && |rest| > b ==> Decoded([b] + rest) == Prepend(rest[..b as int + 1], Decoded(rest[b as int + 1..]))
    ensures b == 128 ==> Decoded([b] + rest) == Decoded(rest)
    ensures b >= 129 && rest == [] ==> Decoded([b] + rest) == None
    ensures b >= 129 && rest != [] ==> Decoded([b] + rest) == Prepend(Repeat(rest[0], 257 - b), Decoded(rest[1..]))
  {
    var s := [b] + rest;
    if b <= 127 && |rest| > b {
      var n := b as int + 1;
      assert s[1..n + 1] == rest[..n];
      assert s == [b] + rest[..n] + rest[n..];
      DecodedSuffix([b] + rest[..n], rest[n..], 0);
    } else if b == 128 {
      DecodedSuffix([b], rest, 0);
    } else if b >= 129 && rest != [] {
      assert s == [b, rest[0]] + rest[1..];
      DecodedSuffix([b, rest[0]], rest[1..], 0);
    }
  }
}
