/** Powers of two and the two's-complement readings shared by the hardware models. */
module Bits {

  /** A 32-bit word, as the unsigned number its bits spell. */
  type Word = x: int | 0 <= x < 0x1_0000_0000

  function Pow2(n: nat): (p: nat)
    ensures p >= 1
  {
    if n == 0 then 1 else 2 * Pow2(n - 1)
  }

  lemma {:induction false} Pow2Sum(m: nat, n: nat)
    ensures Pow2(m + n) == Pow2(m) * Pow2(n)
  {
    if n == 0 {
      assert Pow2(m) * 1 == Pow2(m);
    } else {
      Pow2Sum(m, n - 1);
      assert Pow2(m) * (2 * Pow2(n - 1)) == 2 * (Pow2(m) * Pow2(n - 1));
    }
  }

  lemma {:induction false} Pow2Monotone(m: nat, n: nat)
    requires m <= n
    ensures Pow2(m) <= Pow2(n)
  {
    if m < n {
      Pow2Monotone(m, n - 1);
    }
  }

  /** Multiplying by a positive factor preserves and reflects order. */
  lemma ScaleOrder(x: int, y: int, u: nat)
    requires u > 0
    ensures x < y ==> x * u < y * u
    ensures x == y ==> x * u == y * u
    ensures x > y ==> x * u > y * u
  {
    if x < y {
      ProductPositive(y - x, u);
      assert (y - x) * u == y * u - x * u;
    } else if x > y {
      ProductPositive(x - y, u);
      assert (x - y) * u == x * u - y * u;
    }
  }

  lemma ProductPositive(x: nat, y: nat)
    requires x > 0 && y > 0
    ensures x * y > 0
  {
  }

  lemma ProductBounds(x: nat, y: nat, lo: nat, hi: nat)
    requires lo <= x <= hi && lo <= y <= hi
    ensures lo * lo <= x * y <= hi * hi
  {
    MulMonotone(lo, x, lo);
    MulMonotone(lo, y, x);
    MulMonotone(x, hi, hi);
    MulMonotone(y, hi, x);
  }

  lemma MulMonotone(x: int, y: int, k: nat)
    requires x <= y
    ensures x * k <= y * k
    ensures k * x <= k * y
  {
    if x < y && k > 0 {
      ScaleOrder(x, y, k);
    }
  }

  lemma Pow2Literals()
    ensures Pow2(5) == 32 && Pow2(9) == 512 && Pow2(16) == 0x1_0000
    ensures Pow2(23) == 0x80_0000 && Pow2(24) == 0x100_0000 && Pow2(32) == 0x1_0000_0000
  {
    assert Pow2(7) == 128 && Pow2(8) == 256;
    Pow2Sum(8, 8);
    Pow2Sum(16, 7);
    Pow2Sum(16, 8);
    Pow2Sum(16, 16);
  }

  /** Scaling a division with remainder by a positive factor. */
  lemma ScaledDivision(p: nat, l: nat, u: nat)
    requires l > 0 && u > 0
    ensures p * u == (p / l) * (l * u) + (p % l) * u
    ensures 0 <= (p % l) * u < l * u
    ensures 2 * (p % l) >= l <==> 2 * ((p % l) * u) >= l * u
    ensures 2 * (p % l) == l <==> 2 * ((p % l) * u) == l * u
    ensures p % l == 0 <==> (p % l) * u == 0
  {
    var m, r := p / l, p % l;
    assert p == m * l + r;
    assert (m * l + r) * u == (m * l) * u + r * u;
    assert (m * l) * u == m * (l * u);
    ScaleOrder(0, r, u);
    ScaleOrder(r, l, u);
    ScaleOrder(2 * r, l, u);
    assert (2 * r) * u == 2 * (r * u);
  }

  // ----- two's complement -----

  /** The signed number a word spells. */
  function Signed(w: Word): int { if w >= 0x8000_0000 then w - 0x1_0000_0000 else w }

  /** The low 32 bits of a number. */
  function Wrap(x: int): Word { x % 0x1_0000_0000 }

  // ----- bitwise operations -----

  function Bit(x: nat, i: nat): bool { x / Pow2(i) % 2 == 1 }

  /** Combines the low n bits of x and y, place by place. */
  function Bitwise(f: (bool, bool) -> bool, n: nat, x: nat, y: nat): (r: nat)
    ensures r < Pow2(n)
  {
    if n == 0 then 0
    else (if f(x % 2 == 1, y % 2 == 1) then 1 else 0) + 2 * Bitwise(f, n - 1, x / 2, y / 2)
  }

  lemma {:induction false} BitwiseBits(f: (bool, bool) -> bool, n: nat, x: nat, y: nat, i: nat)
    requires i < n
    ensures Bit(Bitwise(f, n, x, y), i) == f(Bit(x, i), Bit(y, i))
  {
    if i > 0 {
      BitwiseBits(f, n - 1, x / 2, y / 2, i - 1);
      HalvedBit(x, i);
      HalvedBit(y, i);
      HalvedBit(Bitwise(f, n, x, y), i);
    }
  }

  /** The number with these bits, the lowest first. */
  function WordOf(bits: seq<bool>): (r: nat)
    ensures r < Pow2(|bits|)
  {
    if bits == [] then 0
    else
      var n := |bits| - 1;
      WordOf(bits[..n]) + if bits[n] then Pow2(n) else 0
  }

  lemma {:induction false} WordOfBits(bits: seq<bool>, i: nat)
    requires i < |bits|
    ensures Bit(WordOf(bits), i) == bits[i]
  {
    var n := |bits| - 1;
    if i < n {
      WordOfBits(bits[..n], i);
    }
    BitOfSum(WordOf(bits[..n]), n, bits[n], i);
  }

  /** It is the only one. */
  lemma WordWith(bits: seq<bool>, w: nat)
    requires w < Pow2(|bits|) && forall i :: 0 <= i < |bits| ==> bits[i] == Bit(w, i)
    ensures WordOf(bits) == w
  {
    forall i | 0 <= i < |bits|
      ensures Bit(WordOf(bits), i) == Bit(w, i)
    {
      WordOfBits(bits, i);
    }
    SameBits(WordOf(bits), w, |bits|);
  }

  /** The bits of a number with a place added above it. */
  lemma BitOfSum(low: nat, k: nat, b: bool, i: nat)
    requires low < Pow2(k) && i <= k
    ensures Bit(low + (if b then Pow2(k) else 0), i) == if i == k then b else Bit(low, i)
  {
    if i == k {
      TopBit(low, Pow2(k), b);
    } else if b {
      HigherBit(low, k, i);
    }
  }

  lemma TopBit(low: nat, unit: nat, bit: bool)
    requires low < unit
    ensures (low + if bit then unit else 0) / unit % 2 == (if bit then 1 else 0)
  {
    if bit {
      QuotientUnique(low + unit, unit, 1, low);
    } else {
      QuotientUnique(low, unit, 0, low);
    }
  }

  /** A bit does not change when a higher place is added. */
  lemma HigherBit(x: nat, k: nat, i: nat)
    requires i < k
    ensures Bit(x + Pow2(k), i) == Bit(x, i)
  {
    Pow2Sum(k - i, i);
    AddEven(x, Pow2(i), Pow2(k - i - 1), Pow2(k));
  }

  lemma AddEven(x: nat, unit: nat, half: nat, even: nat)
    requires unit > 0 && even == (2 * half) * unit
    ensures (x + even) / unit % 2 == x / unit % 2
  {
    var q, r := x / unit, x % unit;
    assert (q + 2 * half) * unit == q * unit + (2 * half) * unit;
    QuotientUnique(x + even, unit, q + 2 * half, r);
  }

  /** A number is determined by its bits. */
  lemma {:induction false} SameBits(x: nat, y: nat, n: nat)
    requires x < Pow2(n) && y < Pow2(n) && forall i :: 0 <= i < n ==> Bit(x, i) == Bit(y, i)
    ensures x == y
    decreases n
  {
    if n > 0 {
      forall i | 0 <= i < n - 1
        ensures Bit(x / 2, i) == Bit(y / 2, i)
      {
        HalvedBit(x, i + 1);
        HalvedBit(y, i + 1);
      }
      SameBits(x / 2, y / 2, n - 1);
      LowestBit(x);
      LowestBit(y);
      assert Bit(x, 0) == Bit(y, 0);
    }
  }

  lemma LowestBit(x: nat)
    ensures Bit(x, 0) <==> x % 2 == 1
  {
    assert x / 1 == x;
  }

  lemma HalvedBit(x: nat, i: nat)
    requires i > 0
    ensures Bit(x, i) == Bit(x / 2, i - 1)
  {
    DivideTwice(x, 2, Pow2(i - 1));
  }

  lemma DivideTwice(x: nat, k: nat, l: nat)
    requires k > 0 && l > 0
    ensures k * l > 0 && x / (k * l) == x / k / l
  {
    ProductPositive(k, l);
    var q, r := x / k / l, x / k % l;
    assert x == (q * l + r) * k + x % k;
    assert (q * l + r) * k == q * (k * l) + r * k;
    MulMonotone(r, l - 1, k);
    assert (l - 1) * k == k * l - k;
    QuotientUnique(x, k * l, q, r * k + x % k);
  }

  lemma QuotientUnique(x: int, d: int, q: int, r: int)
    requires d > 0 && x == q * d + r && 0 <= r < d
    ensures x / d == q && x % d == r
  {
    var q' := x / d;
    MulStep(q, d);
    MulStep(q', d);
    assert q' * d <= x < q' * d + d;
    if q' < q {
      MulMonotone(q' + 1, q, d);
    } else if q < q' {
      MulMonotone(q + 1, q', d);
    }
  }

  lemma MulNonNegative(x: nat, y: nat)
    ensures x * y >= 0
  {
  }

  lemma MulStep(x: int, y: int)
    ensures (x + 1) * y == x * y + y
  {
  }

  /** Adding a multiple of the divisor keeps the remainder. */
  lemma RemainderShift(x: int, d: nat, k: int)
    requires d > 0
    ensures (x + k * d) % d == x % d
  {
    assert (x / d + k) * d == x / d * d + k * d;
    QuotientUnique(x + k * d, d, x / d + k, x % d);
  }

  /** Where a number splits at a place, the place's bit and the rest can be read off. */
  lemma BitAt(s: nat, unit: nat, rest: nat, bit: nat, low: nat)
    requires unit > 0 && bit <= 1 && low < unit && s == (2 * rest + bit) * unit + low
    ensures s / unit % 2 == bit
  {
    QuotientUnique(s, unit, 2 * rest + bit, low);
  }

  lemma QuotientBelow(x: int, d: nat, k: int)
    requires d > 0 && x < k * d
    ensures x / d < k
  {
    ScaleOrder(k, x / d, d);
  }

  lemma QuotientShift(x: int, d: nat, k: int)
    requires d > 0
    ensures (x - k * d) / d == x / d - k
  {
    assert (x / d - k) * d == x / d * d - k * d;
    QuotientUnique(x - k * d, d, x / d - k, x % d);
  }
}
