/** Words as natural numbers: powers of two and the bitwise operators by their bits. */
module Bits {
  function Pow2(k: nat): (r: nat)
    ensures r >= 1
  {
    if k == 0 then 1 else 2 * Pow2(k - 1)
  }

  ghost predicate IsPow2(n: nat) {
    exists k: nat :: n == Pow2(k)
  }

  function And(a: nat, b: nat): nat {
    if a == 0 || b == 0 then 0 else 2 * And(a / 2, b / 2) + if a % 2 == 1 && b % 2 == 1 then 1 else 0
  }

  function Or(a: nat, b: nat): nat {
    if a == 0 then b else if b == 0 then a
    else 2 * Or(a / 2, b / 2) + if a % 2 == 1 || b % 2 == 1 then 1 else 0
  }

  /** `n & (n - 1)` is zero for the powers of two and for nothing else that is positive. */
  lemma {:induction false} PowerOfTwoTest(n: nat)
    requires n > 0
    ensures And(n, n - 1) == 0 <==> IsPow2(n)
  {
    if n == 1 {
      assert n == Pow2(0);
    } else if n % 2 == 1 {
      assert And(n, n - 1) == 2 * And(n / 2, n / 2);
      AndSelf(n / 2);
      OddPower(n);
    } else {
      assert (n - 1) / 2 == n / 2 - 1;
      assert And(n, n - 1) == 2 * And(n / 2, n / 2 - 1);
      PowerOfTwoTest(n / 2);
      if And(n, n - 1) == 0 {
        var k: nat :| n / 2 == Pow2(k);
        assert n == Pow2(k + 1);
      } else {
        forall k: nat ensures n != Pow2(k) {
          if k > 0 { assert n / 2 == Pow2(k - 1) || n != Pow2(k); }
        }
      }
    }
  }

  lemma OddPower(n: nat)
    requires n > 1 && n % 2 == 1
    ensures forall k: nat :: n != Pow2(k)
  {
    forall k: nat ensures n != Pow2(k) {
      if k > 0 { assert Pow2(k) == 2 * Pow2(k - 1); }
    }
  }

  lemma {:induction false} AndSelf(n: nat)
    ensures And(n, n) == n
  {
    if n > 0 { AndSelf(n / 2); }
  }

  lemma {:induction false} Pow2Add(a: nat, b: nat)
    ensures Pow2(a + b) == Pow2(a) * Pow2(b)
  {
    if a > 0 { Pow2Add(a - 1, b); }
  }

  lemma {:induction false} Pow2Monotone(a: nat, b: nat)
    requires a <= b
    ensures Pow2(a) <= Pow2(b)
  {
    if a < b { Pow2Monotone(a, b - 1); }
  }

  /** Shifts and the low bits, one place at a time. */
  function Up(a: nat, k: nat): nat { if k == 0 then a else 2 * Up(a, k - 1) }
  function Down(a: nat, k: nat): nat { if k == 0 then a else Down(a / 2, k - 1) }
  function Low(a: nat, k: nat): nat { if k == 0 then 0 else 2 * Low(a / 2, k - 1) + a % 2 }

  lemma {:induction false} UpIs(a: nat, k: nat)
    ensures Up(a, k) == a * Pow2(k)
  {
    if k > 0 { UpIs(a, k - 1); }
  }

  /** Shifting down divides, and the bits that fall out are the remainder. */
  lemma {:induction false} DownIs(a: nat, k: nat)
    ensures Low(a, k) < Pow2(k)
    ensures a == Up(Down(a, k), k) + Low(a, k)
    ensures Down(a, k) == a / Pow2(k) && Low(a, k) == a % Pow2(k)
  {
    if k > 0 { DownIs(a / 2, k - 1); }
    UpIs(Down(a, k), k);
    DivModIs(a, Pow2(k), Down(a, k), Low(a, k));
  }

  /** Quotient and remainder are unique. */
  lemma DivModIs(a: nat, d: nat, q: nat, r: nat)
    requires d > 0 && a == q * d + r && r < d
    ensures a / d == q && a % d == r
  {
    var e := a / d - q;
    assert e * d == a / d * d - q * d;
    StepAtLeast(e, d);
  }

  lemma StepAtLeast(e: int, d: int)
    requires d >= 0
    ensures e >= 1 ==> e * d >= d
    ensures e <= -1 ==> e * d <= -d
  {
  }

  /** Masking with the low `k` ones keeps the low bits. */
  lemma {:induction false} AndLow(a: nat, k: nat)
    ensures And(a, Pow2(k) - 1) == Low(a, k)
  {
    if k > 0 {
      AndLow(a / 2, k - 1);
      if a == 0 { LowOfZero(k); }
    }
  }

  lemma {:induction false} LowOfZero(k: nat)
    ensures Low(0, k) == 0 == Down(0, k) == Up(0, k)
  {
    if k > 0 { LowOfZero(k - 1); }
  }

  /** A word shifted up by `k` places and one of `k` bits have no bit in common. */
  lemma {:induction false} OrDisjoint(a: nat, k: nat, b: nat)
    requires b < Pow2(k)
    ensures Or(Up(a, k), b) == Up(a, k) + b
  {
    if k > 0 { OrDisjoint(a, k - 1, b / 2); }
  }

  /** Masking the bits from `k` on. */
  lemma {:induction false} AndHigh(a: nat, m: nat, k: nat)
    ensures And(a, Up(m, k)) == Up(And(Down(a, k), m), k)
  {
    if k > 0 {
      AndHigh(a / 2, m, k - 1);
      if a == 0 { LowOfZero(k); }
      if Up(m, k) == 0 { assert Up(m, k - 1) == 0; }
    }
  }

  lemma {:induction false} UpUp(a: nat, j: nat, k: nat)
    ensures Up(Up(a, j), k) == Up(a, j + k)
  {
    if k > 0 { UpUp(a, j, k - 1); }
  }

  lemma {:induction false} DownDown(a: nat, j: nat, k: nat)
    ensures Down(Down(a, j), k) == Down(a, j + k)
  {
    if j > 0 { DownDown(a / 2, j - 1, k); }
  }

  lemma {:induction false} UpOr(a: nat, b: nat, k: nat)
    ensures Or(Up(a, k), Up(b, k)) == Up(Or(a, b), k)
  {
    if k > 0 {
      UpOr(a, b, k - 1);
      if Up(a, k) == 0 { assert Up(a, k - 1) == 0; }
      if Up(b, k) == 0 { assert Up(b, k - 1) == 0; }
    }
  }

  lemma OrZero(a: nat)
    ensures Or(0, a) == a == Or(a, 0)
  {
  }

  /** Cutting a concatenation of bit fields where it was joined. */
  lemma {:induction false} Split(a: nat, b: nat, k: nat)
    requires b < Pow2(k)
    ensures Down(Up(a, k) + b, k) == a && Low(Up(a, k) + b, k) == b
  {
    if k > 0 { Split(a, b / 2, k - 1); }
  }

  lemma {:induction false} Joined(a: nat, k: nat)
    ensures a == Up(Down(a, k), k) + Low(a, k) && Low(a, k) < Pow2(k)
  {
    if k > 0 { Joined(a / 2, k - 1); }
  }

  /** Fields of `j` and `k` bits make a field of `j + k` bits. */
  lemma {:induction false} FieldsFit(a: nat, b: nat, j: nat, k: nat)
    requires a < Pow2(j) && b < Pow2(k)
    ensures Up(a, k) + b < Pow2(j + k)
  {
    if k > 0 { FieldsFit(a, b / 2, j, k - 1); }
  }

  lemma {:induction false} DownFits(a: nat, j: nat, k: nat)
    requires a < Pow2(j + k)
    ensures Down(a, k) < Pow2(j)
  {
    if k > 0 { DownFits(a / 2, j, k - 1); }
  }

  lemma {:induction false} LowSmall(a: nat, k: nat)
    requires a < Pow2(k)
    ensures Low(a, k) == a && Down(a, k) == 0
  {
    if k > 0 { LowSmall(a / 2, k - 1); }
  }

  lemma {:induction false} UpMonotone(a: nat, b: nat, k: nat)
    requires a <= b
    ensures Up(a, k) <= Up(b, k)
  {
    if k > 0 { UpMonotone(a, b, k - 1); }
  }

  /** A word of ones loses as many as it is shifted down. */
  lemma {:induction false} DownOnes(k: nat, j: nat)
    requires j <= k
    ensures Down(Pow2(k) - 1, j) == Pow2(k - j) - 1
  {
    if j > 0 { DownOnes(k - 1, j - 1); }
  }

  /** The mask of the bits from `k` to `k + j`. */
  lemma {:induction false} UpOnes(j: nat, k: nat)
    ensures Up(Pow2(j) - 1, k) == Pow2(j + k) - Pow2(k)
  {
    if k > 0 { UpOnes(j, k - 1); }
  }

  lemma Pow2Double(n: nat)
    ensures IsPow2(2 * n) <==> IsPow2(n)
  {
    if IsPow2(2 * n) {
      var k: nat :| 2 * n == Pow2(k);
      assert n == Pow2(k - 1);
    }
    if IsPow2(n) {
      var k: nat :| n == Pow2(k);
      assert 2 * n == Pow2(k + 1);
    }
  }

  lemma SmallPowers()
    ensures Pow2(7) == 128 && Pow2(8) == 256 && Pow2(1) == 2
  {
  }

  lemma Powers()
    ensures Pow2(14) == 0x4000
    ensures Pow2(36) == 0x10_0000_0000
    ensures Pow2(37) == 0x20_0000_0000
    ensures Pow2(64) == 0x1_0000_0000_0000_0000
  {
    hide Pow2;
    SmallPowers();
    Pow2Add(7, 7);
    Pow2Add(14, 14);
    Pow2Add(28, 8);
    Pow2Add(1, 36);
    Pow2Add(28, 36);
  }
}
