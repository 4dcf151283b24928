/** The digital root routine: one remainder by nine, computed with a reciprocal, against the repeated sum of
    decimal digits. */
module DigitalRoot {
  import opened Bits

  const RECIPROCAL: Word := 954437177

  // ----- the definition -----

  function DigitSum(n: nat): (s: nat)
    ensures s <= n && (n >= 10 ==> s < n)
  {
    if n < 10 then n else n % 10 + DigitSum(n / 10)
  }

  /** Sum the digits until one is left. */
  function Root(n: nat): nat
    decreases n
  {
    if n < 10 then n else Root(DigitSum(n))
  }

  /** The number that decimal digits spell, and their sum. */
  function Spelled(digits: seq<nat>): nat {
    if digits == [] then 0 else Spelled(digits[..|digits| - 1]) * 10 + digits[|digits| - 1]
  }

  function Sum(digits: seq<nat>): nat {
    if digits == [] then 0 else Sum(digits[..|digits| - 1]) + digits[|digits| - 1]
  }

  /** However a number is written in decimal, the digits have this sum. */
  lemma {:induction false} DigitSumOfDigits(digits: seq<nat>)
    requires forall i :: 0 <= i < |digits| ==> digits[i] <= 9
    ensures DigitSum(Spelled(digits)) == Sum(digits)
  {
    if digits != [] {
      var init, last := digits[..|digits| - 1], digits[|digits| - 1];
      DigitSumOfDigits(init);
      LastDigit(Spelled(init), last);
    }
  }

  lemma LastDigit(q: nat, d: nat)
    requires d <= 9
    ensures DigitSum(q * 10 + d) == DigitSum(q) + d
  {
    assert (q * 10 + d) / 10 == q && (q * 10 + d) % 10 == d;
  }

  // ----- the routine -----

  /** The absolute value of a signed word; -2^31 has one too, as an unsigned number. */
  function Absolute(x: Word): nat { if Signed(x) < 0 then -Signed(x) else Signed(x) }

  /** Registers r0 to r3, overwritten instruction by instruction. */
  method DigitalRoot(x: Word) returns (r0: Word)
    ensures r0 == Root(Absolute(x))
  {
    r0 := x;
    if r0 == 0 {                                      // cmp, beq
      return;
    }
    if Signed(r0) < 0 {
      r0 := (0 - r0) % 0x1_0000_0000;                 // rsblt
    }
    assert r0 == Absolute(x);
    r0 := Remainder(r0);
    RootByNine(Absolute(x));
    if r0 == 0 {                                      // cmp, moveq
      r0 := 9;
    }
  }

  /** umull, lsr, add and sub: the part of the routine between its two comparisons. */
  method Remainder(n: Word) returns (r0: Word)
    requires n <= 0x8000_0000
    ensures r0 == n % 9
  {
    r0 := n;
    var r1: int := RECIPROCAL;                        // ldr
    var product := r1 * r0;                           // umull: low half to r3, high half to r2
    assert product == RECIPROCAL * n;
    var r3: int, r2: int := product % 0x1_0000_0000, product / 0x1_0000_0000;
    r2 := r2 / 2;                                     // lsr
    ReciprocalDivides(n);
    assert r2 == n / 9;
    r2 := (r2 + r2 * 8 % 0x1_0000_0000) % 0x1_0000_0000;  // add, second operand shifted left by 3
    RemainderWires(n);
    r0 := (r0 - r2) % 0x1_0000_0000;                  // sub
  }

  /** For every magnitude a signed word can have, 2^31 included, the reciprocal gives the exact quotient. */
  lemma ReciprocalDivides(n: nat)
    requires n <= 0x8000_0000
    ensures 0 <= RECIPROCAL * n / 0x1_0000_0000 < 0x1_0000_0000
    ensures RECIPROCAL * n / 0x1_0000_0000 / 2 == n / 9
  {
    var q, r := n / 9, n % 9;
    assert 9 * RECIPROCAL == 0x2_0000_0001;
    assert RECIPROCAL * n == q * 0x2_0000_0000 + (q + r * RECIPROCAL);
  }

  lemma RemainderWires(n: nat)
    requires n <= 0x8000_0000
    ensures (n / 9 + n / 9 * 8 % 0x1_0000_0000) % 0x1_0000_0000 == n / 9 * 9
    ensures (n - n / 9 * 9) % 0x1_0000_0000 == n % 9
  {
    assert n / 9 * 8 % 0x1_0000_0000 == n / 9 * 8;
  }

  // ----- digit sums modulo nine -----

  lemma AppendDigit(q: nat, d: nat, s: nat)
    requires s % 9 == q % 9
    ensures (d + s) % 9 == (10 * q + d) % 9
  {
    assert (10 * q + d) - (d + s) == 9 * (q + q / 9 - s / 9);
  }

  lemma {:induction false} DigitSumModNine(n: nat)
    ensures DigitSum(n) % 9 == n % 9
    ensures n > 0 ==> DigitSum(n) > 0
  {
    if n >= 10 {
      DigitSumModNine(n / 10);
      AppendDigit(n / 10, n % 10, DigitSum(n / 10));
    }
  }

  lemma {:induction false} RootByNine(n: nat)
    ensures Root(n) == if n == 0 then 0 else if n % 9 == 0 then 9 else n % 9
    decreases n
  {
    if n >= 10 {
      DigitSumModNine(n);
      RootByNine(DigitSum(n));
    }
  }
}
