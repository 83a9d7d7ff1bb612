/** Bytes, little-endian operands and the fixed-width arithmetic of the rewriter. */
module Bytes {

  datatype Option<+T> = None | Some(value: T)

  type Byte = b: nat | b < 0x100

  const TWO_31: int := 0x8000_0000
  const TWO_32: int := 0x1_0000_0000

  /** Offsets below this bound leave the 32-bit range under an 8-bit displacement only to land outside
      the code, and the difference of two of them has one 32-bit reading as far as INT8 is concerned. */
  const CODE_LIMIT: int := TWO_32 - 0x80

  function Pow256(n: nat): (r: nat)
    ensures r > 0
  {
    if n == 0 then 1 else 0x100 * Pow256(n - 1)
  }

  /** The low n bytes of v, least significant byte first. */
  function ToLE(v: nat, n: nat): (bs: seq<Byte>)
    ensures |bs| == n
  {
    if n == 0 then [] else [v % 0x100] + ToLE(v / 0x100, n - 1)
  }

  function FromLE(bs: seq<Byte>): (v: nat)
    ensures v < Pow256(|bs|)
  {
    if |bs| == 0 then 0 else bs[0] + 0x100 * FromLE(bs[1..])
  }

  /** Byte k of a value, and of the value bytes denote, counts 256^k. */
  lemma {:induction false} ToLEByte(v: nat, n: nat, k: nat)
    requires k < n
    ensures ToLE(v, n)[k] == v / Pow256(k) % 0x100
  {
    if k > 0 {
      ToLEByte(v / 0x100, n - 1, k - 1);
      DivTwice(v, Pow256(k - 1));
    }
  }

  lemma {:induction false} FromLEByte(bs: seq<Byte>, k: nat)
    requires k < |bs|
    ensures FromLE(bs) / Pow256(k) % 0x100 == bs[k]
  {
    ToFromLE(bs);
    ToLEByte(FromLE(bs), |bs|, k);
  }

  lemma {:induction false} DivTwice(v: nat, w: nat)
    requires w > 0
    ensures v / 0x100 / w == v / (0x100 * w)
  {
    var q, r := v / 0x100 / w, v / 0x100 % w;
    assert v / 0x100 == w * q + r;
    assert v == (0x100 * w) * q + (0x100 * r + v % 0x100);
    assert 0 <= 0x100 * r + v % 0x100 < 0x100 * w;
    QuotientIs(v, 0x100 * w, q, 0x100 * r + v % 0x100);
  }

  lemma {:induction false} QuotientIs(v: nat, d: nat, q: nat, r: nat)
    requires v == d * q + r && r < d
    ensures v / d == q
  {
    var p := v / d;
    assert v == d * p + v % d;
    if p < q {
      Multiples(d, p, q);
    } else if q < p {
      Multiples(d, q, p);
    }
  }

  lemma {:induction false} Multiples(d: nat, a: nat, b: nat)
    requires a < b
    ensures d * a + d <= d * b
  {
    if a + 1 < b {
      Multiples(d, a, b - 1);
    }
    assert d * b == d * (b - 1) + d;
  }

  /** The value of four bytes, least significant first. */
  function WordOf(b0: nat, b1: nat, b2: nat, b3: nat): nat { b0 + 0x100 * b1 + 0x1_0000 * b2 + 0x100_0000 * b3 }

  /** The four bytes of a word, and the word of four bytes. */
  lemma {:induction false} WordBytes(v: nat, bs: seq<Byte>)
    requires |bs| == 4
    ensures ToLE(v, 4) == [v % 0x100, v / 0x100 % 0x100, v / 0x1_0000 % 0x100, v / 0x100_0000 % 0x100]
    ensures FromLE(bs) == WordOf(bs[0], bs[1], bs[2], bs[3])
  {
    Pow256Values();
    assert Pow256(4) == 0x100 * Pow256(3) && Pow256(3) == 0x100 * Pow256(2);
    ToLEByte(v, 4, 0);
    ToLEByte(v, 4, 1);
    ToLEByte(v, 4, 2);
    ToLEByte(v, 4, 3);
    var low, high := bs[1..], bs[1..][1..];
    assert FromLE(bs) == bs[0] + 0x100 * FromLE(low) && FromLE(low) == bs[1] + 0x100 * FromLE(high);
    assert FromLE(high) == bs[2] + 0x100 * FromLE(high[1..]);
    assert FromLE(high[1..]) == bs[3] + 0x100 * FromLE(high[1..][1..]);
  }

  lemma {:induction false} FromToLE(v: nat, n: nat)
    requires v < Pow256(n)
    ensures FromLE(ToLE(v, n)) == v
  {
    if n > 0 {
      FromToLE(v / 0x100, n - 1);
      assert ToLE(v, n)[1..] == ToLE(v / 0x100, n - 1);
    }
  }

  lemma {:induction false} ToFromLE(bs: seq<Byte>)
    ensures ToLE(FromLE(bs), |bs|) == bs
  {
    if |bs| > 0 {
      ToFromLE(bs[1..]);
      var rest := FromLE(bs[1..]);
      assert (bs[0] + 0x100 * rest) % 0x100 == bs[0] && (bs[0] + 0x100 * rest) / 0x100 == rest;
      assert bs == [bs[0]] + bs[1..];
    }
  }

  lemma {:induction false} Pow256Values()
    ensures Pow256(0) == 1 && Pow256(1) == 0x100 && Pow256(2) == 0x1_0000
    ensures Pow256(4) == TWO_32 && Pow256(8) == 0x1_0000_0000_0000_0000
  {
    assert Pow256(4) == 0x100 * Pow256(3) && Pow256(3) == 0x100 * Pow256(2);
    assert Pow256(8) == 0x100 * Pow256(7) && Pow256(7) == 0x100 * Pow256(6);
    assert Pow256(6) == 0x100 * Pow256(5) && Pow256(5) == 0x100 * Pow256(4);
  }

  /** Only the low n bytes of a value are written. */
  lemma {:induction false} LowBytes(v: nat, q: nat, n: nat)
    ensures ToLE(v + Pow256(n) * q, n) == ToLE(v, n)
  {
    if n > 0 {
      var z := Pow256(n - 1) * q;
      assert Pow256(n) * q == 0x100 * z;
      LowBytes(v / 0x100, q, n - 1);
      assert (v + 0x100 * z) / 0x100 == v / 0x100 + z;
      assert (v + 0x100 * z) % 0x100 == v % 0x100;
    }
  }

  /** Writing four bytes of a wider value keeps its low 32 bits. */
  lemma {:induction false} LowWord(v: nat)
    ensures ToLE(v, 4) == ToLE(v % TWO_32, 4)
  {
    Pow256Values();
    LowBytes(v % TWO_32, v / TWO_32, 4);
  }

  /** The value of a byte read through an INT8 pointer. */
  function Int8(b: Byte): (d: int)
    ensures -0x80 <= d < 0x80 && d % 0x100 == b
  {
    if b < 0x80 then b else b - 0x100
  }

  predicate FitsInt8(d: int) { -0x80 <= d < 0x80 }

  /** Two's-complement truncation to 8 and to 32 bits. */
  function Low8(d: int): Byte { d % 0x100 }

  function Low32(d: int): (r: nat)
    ensures r < TWO_32
  {
    d % TWO_32
  }

  /** Truncation is arithmetic modulo 2^32 and 2^8; reading back as signed undoes it in range. */
  lemma {:induction false} Truncations(d: int)
    ensures 0 <= Low32(d) < 0x1_0000_0000 && (d - Low32(d)) % 0x1_0000_0000 == 0
    ensures 0 <= Low8(d) < 0x100 && (d - Low8(d)) % 0x100 == 0
    ensures Int32(Low32(d)) == d <==> -0x8000_0000 <= d < 0x8000_0000
    ensures Int8(Low8(d)) == d <==> FitsInt8(d)
    ensures FitsInt8(d) <==> -128 <= d <= 127
  {
  }

  /** The value of a 32-bit word read as an INT32. */
  function Int32(w: nat): int
    requires w < TWO_32
  {
    if w < TWO_31 then w else w - TWO_32
  }

  lemma {:induction false} ShortReads(base: nat, b: Byte, target: nat)
    requires base < CODE_LIMIT && target < CODE_LIMIT && target == Low32(base + Int8(b))
    ensures target - base == Int8(b) && [Low8(target - base)] == [b]
  {
  }

  lemma {:induction false} WordReads(base: int, w: nat, target: nat)
    requires w < TWO_32 && target == Low32(base + w)
    ensures Low32(target - base) == w
  {
  }

  /** A displacement emitted at base leads back to the target when read there. */
  lemma {:induction false} TargetReads(base: nat, target: nat)
    requires base < CODE_LIMIT && target < CODE_LIMIT
    ensures Low32(base + Low32(target - base)) == target
    ensures Low32(base + Low32(target - Low32(base))) == target
    ensures FitsInt8(target - base) ==> Low32(base + Int8(Low8(target - base))) == target
  {
  }

  /** What the 32-bit difference of two offsets shows of their true difference. */
  lemma {:induction false} DifferenceReads(d: int)
    requires -CODE_LIMIT < d < CODE_LIMIT
    ensures FitsInt8(Int32(Low32(d))) <==> FitsInt8(d)
    ensures Low32(Int32(Low32(d))) == Low32(d) && Low8(Int32(Low32(d))) == Low8(d)
  {
  }

  lemma {:induction false} LowAdds(base: int, w: int)
    ensures Low32(Low32(base) + w) == Low32(base + w)
  {
  }
}
