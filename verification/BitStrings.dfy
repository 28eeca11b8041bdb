/** Bit strings of numbers, most significant bit first, and their packing into bytes. */
module BitStrings {
  import opened Bytes

  // ----- arithmetic of shifts ------------------------------------------------------------------------------------

  lemma QuotientAtLeast(v: nat, a: nat, p: nat)
    requires p > 0 && p * a <= v
    ensures a <= v / p
  {
    var d := v / p;
    assert v == p * d + v % p;
    assert (d + 1) * p == p * d + p;
    if d < a { MulMono(d + 1, a, p); }
  }

  lemma DivideByOne(v: nat)
    ensures Pow2(0) == 1 && v / Pow2(0) == v
  {
  }

  lemma QuotientBelow(v: nat, a: nat, p: nat)
    requires p > 0 && v < a * p
    ensures v / p < a
  {
    var d := v / p;
    assert v == p * d + v % p;
    if d >= a { MulMono(a, d, p); }
  }

  lemma DivideTwice(v: nat, p: nat)
    requires p > 0
    ensures v / 2 / p == v / (2 * p)
  {
    var w, b := v / 2, v % 2;
    var q, s := w / p, w % p;
    assert w == p * q + s;
    assert v == 2 * w + b;
    TwoSteps(v, p, q, s, b);
  }

  lemma TwoSteps(v: nat, p: nat, q: nat, s: nat, b: nat)
    requires s < p && b < 2 && v == 2 * (p * q + s) + b
    ensures v / (2 * p) == q
  {
    assert 2 * (p * q) == 2 * p * q;
    DivideExact(q, 2 * s + b, 2 * p);
  }

  lemma DivideExact(q: nat, r: nat, p: nat)
    requires p > 0 && r < p
    ensures (p * q + r) / p == q
  {
    var d := (p * q + r) / p;
    assert p * q + r == p * d + (p * q + r) % p;
    assert (q + 1) * p == p * q + p && (d + 1) * p == p * d + p;
    if d > q { MulMono(q + 1, d, p); }
    if d < q { MulMono(d + 1, q, p); }
  }

  // ----- bit strings of numbers ----------------------------------------------------------------------------------

  /** The n low bits of v, most significant first. */
  function BitString(v: nat, n: nat): (s: seq<bool>)
    ensures |s| == n
  {
    if n == 0 then [] else BitString(v / 2, n - 1) + [v % 2 == 1]
  }

  function BitsValue(s: seq<bool>): nat
  {
    if s == [] then 0 else 2 * BitsValue(s[..|s| - 1]) + if s[|s| - 1] then 1 else 0
  }

  lemma {:induction false} BitStringValue(v: nat, n: nat)
    requires v < Pow2(n)
    ensures BitsValue(BitString(v, n)) == v
  {
    if n > 0 {
      BitStringValue(v / 2, n - 1);
      var s := BitString(v, n);
      assert s[..n - 1] == BitString(v / 2, n - 1);
    }
  }

  lemma {:induction false} BitStringPrefix(v: nat, n: nat, k: nat)
    requires k <= n
    ensures BitString(v, n)[..k] == BitString(v / Pow2(n - k), k)
  {
    if k < n {
      BitStringPrefix(v / 2, n - 1, k);
      assert BitString(v, n)[..k] == BitString(v / 2, n - 1)[..k];
      DivideTwice(v, Pow2(n - 1 - k));
    } else {
      assert BitString(v, n)[..n] == BitString(v, n);
    }
  }

  /** A bit string is the bit string of its value. */
  lemma {:induction false} ValueBitString(s: seq<bool>)
    ensures BitsValue(s) < Pow2(|s|)
    ensures BitString(BitsValue(s), |s|) == s
  {
    if s != [] {
      ValueBitString(s[..|s| - 1]);
    }
  }

  lemma ValueSnoc(s: seq<bool>, b: bool)
    ensures BitsValue(s + [b]) == 2 * BitsValue(s) + if b then 1 else 0
  {
    assert (s + [b])[..|s|] == s;
  }

  // ----- single bits of a byte -----------------------------------------------------------------------------------

  /** Bit k of b, counted from the least significant: shift right and mask. */
  predicate BitOf(b: byte, k: nat)
    requires k < 8
  {
    (b / Pow2(k)) % 2 == 1
  }

  lemma BitOfByte(b: byte, k: nat)
    requires k < 8
    ensures BitOf(b, k) == BitString(b, 8)[7 - k]
  {
    BitStringPrefix(b, 8, 8 - k);
    assert BitString(b, 8)[7 - k] == BitString(b, 8)[..8 - k][7 - k];
  }

  /** b with bit k set. */
  function SetBit(b: byte, k: nat): (r: nat)
    requires k < 8
  {
    if BitOf(b, k) then b else b + Pow2(k)
  }

  // ----- packing -------------------------------------------------------------------------------------------------

  /** Bit i of a stream that ends in padding zeros. */
  predicate BitAt(bits: seq<bool>, i: nat)
  {
    i < |bits| && bits[i]
  }

  /** Bits 8i to 8i + n - 1 of the padded stream. */
  function Slice(bits: seq<bool>, i: nat, n: nat): (s: seq<bool>)
    ensures |s| == n
  {
    seq(n, j requires 0 <= j < n => BitAt(bits, 8 * i + j))
  }

  function PackedSize(n: nat): nat { (n + 7) / 8 }

  function ByteAt(bits: seq<bool>, i: nat): (b: byte)
    ensures BitString(b, 8) == Slice(bits, i, 8)
  {
    ValueBitString(Slice(bits, i, 8));
    assert Pow2(8) == 256;
    BitsValue(Slice(bits, i, 8))
  }

  function Bit(b: bool): nat { if b then 1 else 0 }

  lemma ValueGrow(s: seq<bool>, k: nat)
    requires k < |s|
    ensures BitsValue(s[..k + 1]) == 2 * BitsValue(s[..k]) + Bit(s[k])
  {
    assert s[..k + 1][..k] == s[..k];
  }

  lemma FourGrow(s: seq<bool>, k: nat)
    requires k + 4 <= |s|
    ensures BitsValue(s[..k + 4]) ==
            16 * BitsValue(s[..k]) + 8 * Bit(s[k]) + 4 * Bit(s[k + 1]) + 2 * Bit(s[k + 2]) + Bit(s[k + 3])
  {
    hide BitsValue, Bit;
    ValueGrow(s, k);
    ValueGrow(s, k + 1);
    ValueGrow(s, k + 2);
    ValueGrow(s, k + 3);
  }

  lemma NoBitsValue()
    ensures BitsValue([]) == 0
  {
  }

  /** Eight bits as a number, the first one counting 128. */
  function Octet(b0: bool, b1: bool, b2: bool, b3: bool, b4: bool, b5: bool, b6: bool, b7: bool): nat
  {
    128 * Bit(b0) + 64 * Bit(b1) + 32 * Bit(b2) + 16 * Bit(b3) + 8 * Bit(b4) + 4 * Bit(b5) + 2 * Bit(b6) + Bit(b7)
  }

  lemma EightBitValue(s: seq<bool>)
    requires |s| == 8
    ensures BitsValue(s) == Octet(s[0], s[1], s[2], s[3], s[4], s[5], s[6], s[7])
  {
    hide BitsValue, Bit;
    NoBitsValue();
    assert s[..0] == [] && s[..8] == s;
    FourGrow(s, 0);
    FourGrow(s, 4);
  }

  /** Byte i of a packed stream holds its bits from the most significant down. */
  lemma ByteAtBits(bits: seq<bool>, i: nat)
    ensures ByteAt(bits, i) as int ==
            Octet(BitAt(bits, 8 * i), BitAt(bits, 8 * i + 1), BitAt(bits, 8 * i + 2), BitAt(bits, 8 * i + 3),
                  BitAt(bits, 8 * i + 4), BitAt(bits, 8 * i + 5), BitAt(bits, 8 * i + 6), BitAt(bits, 8 * i + 7))
  {
    hide BitsValue, BitString, Octet, Slice, BitAt, ByteAt;
    ByteAtValue(bits, i);
    SliceBits(bits, i);
    EightBitValue(Slice(bits, i, 8));
  }

  lemma ByteAtValue(bits: seq<bool>, i: nat)
    ensures ByteAt(bits, i) as int == BitsValue(Slice(bits, i, 8))
  {
    hide BitsValue, BitString, Slice;
  }

  lemma SliceBits(bits: seq<bool>, i: nat)
    ensures var s := Slice(bits, i, 8);
            && s[0] == BitAt(bits, 8 * i) && s[1] == BitAt(bits, 8 * i + 1) && s[2] == BitAt(bits, 8 * i + 2)
            && s[3] == BitAt(bits, 8 * i + 3) && s[4] == BitAt(bits, 8 * i + 4) && s[5] == BitAt(bits, 8 * i + 5)
            && s[6] == BitAt(bits, 8 * i + 6) && s[7] == BitAt(bits, 8 * i + 7)
  {
    hide BitAt;
  }

  function Pack(bits: seq<bool>): (r: seq<byte>)
    ensures |r| == PackedSize(|bits|)
    ensures forall i :: 0 <= i < |r| ==> r[i] == ByteAt(bits, i)
  {
    seq(PackedSize(|bits|), i requires 0 <= i < PackedSize(|bits|) => ByteAt(bits, i))
  }

  /** The byte under construction after n of its bits: those bits, then zeros. */
  function PartByte(bits: seq<bool>, i: nat, n: nat): (b: nat)
    requires n <= 8
  {
    BitsValue(Slice(bits, i, n)) * Pow2(8 - n)
  }

  lemma PartByteIsByte(bits: seq<bool>, i: nat, n: nat)
    requires n <= 8
    ensures PartByte(bits, i, n) < 256
  {
    hide BitsValue, BitString;
    ValueBitString(Slice(bits, i, n));
    assert Pow2(8) == 256;
    hide Pow2;
    Pow2Add(n, 8 - n);
    MulMono(BitsValue(Slice(bits, i, n)) + 1, Pow2(n), Pow2(8 - n));
    Distribute(BitsValue(Slice(bits, i, n)), 1, Pow2(8 - n));
  }

  /** Setting bit 7 - n appends a one to the byte under construction; leaving it appends a zero. */
  lemma PartByteNext(bits: seq<bool>, i: nat, n: nat)
    requires n < 8
    ensures PartByte(bits, i, n) < 256
    ensures PartByte(bits, i, n + 1) ==
            if BitAt(bits, 8 * i + n) then SetBit(PartByte(bits, i, n), 7 - n) else PartByte(bits, i, n)
  {
    hide Pow2;
    PartByteIsByte(bits, i, n);
    var s, b := Slice(bits, i, n), BitAt(bits, 8 * i + n);
    assert Slice(bits, i, n + 1) == s + [b];
    ValueSnoc(s, b);
    var v, p := BitsValue(s), Pow2(7 - n);
    DoublePower(7 - n);
    EvenQuotient(v, p);
    Distribute(2 * v, if b then 1 else 0, p);
  }

  lemma DoublePower(k: nat)
    ensures Pow2(k + 1) == 2 * Pow2(k)
  {
  }

  lemma EvenQuotient(v: nat, p: nat)
    requires p > 0
    ensures v * (2 * p) == 2 * v * p
    ensures (v * (2 * p)) / p % 2 == 0
  {
    assert v * (2 * p) == p * (2 * v) + 0;
    DivideExact(2 * v, 0, p);
  }
}
