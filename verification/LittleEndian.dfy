/** Integers as they lie in memory and on disk: least significant byte first. */
module LittleEndian {
  import opened Bytes
  import opened Words
  import BitStrings

  function Bytes256(n: nat): (p: nat)
    ensures p > 0
  {
    if n == 0 then 1 else 256 * Bytes256(n - 1)
  }

  function LE(v: nat, n: nat): (s: seq<byte>)
    ensures |s| == n
  {
    if n == 0 then [] else [v % 256] + LE(v / 256, n - 1)
  }

  function FromLE(s: seq<byte>): nat
  {
    if s == [] then 0 else s[0] + 256 * FromLE(s[1..])
  }

  lemma {:induction false} ReadBack(v: nat, n: nat)
    requires v < Bytes256(n)
    ensures FromLE(LE(v, n)) == v
  {
    if n > 0 {
      ReadBack(v / 256, n - 1);
      assert LE(v, n)[1..] == LE(v / 256, n - 1);
    }
  }

  /** Byte k of the integer, counted from the least significant. */
  lemma {:induction false} DigitAt(v: nat, n: nat, k: nat)
    requires k < n
    ensures LE(v, n)[k] == v / Bytes256(k) % 256
  {
    if k > 0 {
      DigitAt(v / 256, n - 1, k - 1);
      DivideTwice256(v, Bytes256(k - 1));
    }
  }

  lemma DivideTwice256(v: nat, p: nat)
    requires p > 0
    ensures v / 256 / p == v / (256 * p)
  {
    var w := v / 256;
    var q, s, b := w / p, w % p, v % 256;
    assert w == p * q + s && v == 256 * w + b;
    assert 256 * p * q == 256 * (p * q);
    BitStrings.DivideExact(q, 256 * s + b, 256 * p);
  }

  lemma Widths()
    ensures Bytes256(2) == 0x1_0000 && Bytes256(3) == 0x100_0000 && Bytes256(4) == 0x1_0000_0000
    ensures Bytes256(8) == 0x1_0000_0000_0000_0000
  {
    assert Bytes256(1) == 256 && Bytes256(2) == 0x1_0000 && Bytes256(3) == 0x100_0000;
    assert Bytes256(5) == 0x100_0000_0000 && Bytes256(6) == 0x1_0000_0000_0000;
  }

  lemma {:induction false} ValueBound(s: seq<byte>)
    ensures FromLE(s) < Bytes256(|s|)
  {
    if s != [] { ValueBound(s[1..]); }
  }

  /** A zero top byte adds nothing. */
  lemma {:induction false} TopByte(s: seq<byte>, b: byte)
    ensures FromLE(s + [b]) == FromLE(s) + b * Bytes256(|s|)
  {
    if s == [] {
      assert s + [b] == [b];
    } else {
      TopByte(s[1..], b);
      assert (s + [b])[1..] == s[1..] + [b];
    }
  }

  lemma {:induction false} ShorterPrefix(v: nat, m: nat, n: nat)
    requires m <= n
    ensures LE(v, n)[..m] == LE(v, m)
  {
    if m > 0 { ShorterPrefix(v / 256, m - 1, n - 1); }
  }

  // ----- words ---------------------------------------------------------------------------------------------------

  /** The low byte of a word. */
  function ByteOf(w: bv32): byte
  {
    LowIsByte(w);
    (w & 0xFF) as int
  }

  lemma LowIsByte(w: bv32)
    ensures (w & 0xFF) as int < 256
  {
    assert w & 0xFF <= 0xFF;
  }

  /** The four bytes of a word. */
  function WordBytes(w: bv32): (s: seq<byte>)
    ensures |s| == 4
  {
    [ByteOf(w), ByteOf(w >> 8), ByteOf(w >> 16), ByteOf(w >> 24)]
  }

  function WordOf(s: seq<byte>): bv32
    requires |s| == 4
  {
    Load32(s[0], s[1], s[2], s[3])
  }

  lemma ByteBack(w: bv32)
    ensures Word(ByteOf(w)) == w & 0xFF
  {
    LowBack(w & 0xFF);
  }

  lemma LowBack(v: bv32)
    requires v <= 0xFF
    ensures (v as int) as bv32 == v
  {
  }

  lemma FourParts(w: bv32)
    ensures ((w & 0xFF) | (((w >> 8) & 0xFF) << 8)) | ((((w >> 16) & 0xFF) | (((w >> 24) & 0xFF) << 8)) << 16) == w
  {
  }

  lemma WordBack(w: bv32)
    ensures WordOf(WordBytes(w)) == w
  {
    hide Word, ByteOf;
    ByteBack(w);
    ByteBack(w >> 8);
    ByteBack(w >> 16);
    ByteBack(w >> 24);
    FourParts(w);
  }
}
