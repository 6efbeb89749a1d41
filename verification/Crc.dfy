/** The table-driven checksum behind the hashing send policy
    (updown/basimruntime/src/basimupdown.cpp:375-399). */
module Crc {
  import opened Bits

  /** The reflected polynomial of ECMA-182, as in section 6 of the .xz file format. */
  const POLY64REV: nat := 0xC96C_5795_D787_0F42

  /** Exclusive or. */
  function Xor(a: nat, b: nat): nat {
    if a == 0 then b else if b == 0 then a
    else 2 * Xor(a / 2, b / 2) + if a % 2 != b % 2 then 1 else 0
  }

  /** One place of the shift register. */
  function Shift(x: nat): nat {
    if x % 2 == 1 then Xor(x / 2, POLY64REV) else x / 2
  }

  function Shifts(x: nat, n: nat): nat
    decreases n
  {
    if n == 0 then x else Shifts(Shift(x), n - 1)
  }

  /** The register takes in one message bit. */
  function TakeBit(crc: nat, bit: nat): nat {
    if crc % 2 != bit then Xor(crc / 2, POLY64REV) else crc / 2
  }

  /** ... and `n` bits of `b`, lowest first. */
  function TakeBits(crc: nat, b: nat, n: nat): nat
    decreases n
  {
    if n == 0 then crc else TakeBits(TakeBit(crc, b % 2), b / 2, n - 1)
  }

  /** The checksum bit by bit: the reference. */
  function BitCrc(crc: nat, message: seq<nat>): nat {
    if message == [] then crc
    else TakeBits(BitCrc(crc, message[..|message| - 1]), message[|message| - 1], 8)
  }

  lemma XorHalves(a: nat, b: nat)
    ensures Xor(a, b) / 2 == Xor(a / 2, b / 2)
    ensures Xor(a, b) % 2 == if a % 2 != b % 2 then 1 else 0
  {
  }

  lemma {:induction false} XorSymmetric(a: nat, b: nat)
    ensures Xor(a, b) == Xor(b, a)
  {
    if a > 0 && b > 0 { XorSymmetric(a / 2, b / 2); }
  }

  lemma {:induction false} XorAssociative(a: nat, b: nat, c: nat)
    ensures Xor(Xor(a, b), c) == Xor(a, Xor(b, c))
  {
    if a > 0 && b > 0 && c > 0 {
      XorAssociative(a / 2, b / 2, c / 2);
      hide Xor;
      XorHalves(a, b);
      XorHalves(b, c);
      XorHalves(Xor(a, b), c);
      XorHalves(a, Xor(b, c));
    }
  }

  lemma {:induction false} XorSelf(a: nat)
    ensures Xor(a, a) == 0
  {
    if a > 0 { XorSelf(a / 2); }
  }

  lemma XorZero(a: nat)
    ensures Xor(a, 0) == a == Xor(0, a)
  {
  }

  /** Shifting is linear over exclusive or. */
  lemma ShiftLinear(x: nat, y: nat)
    ensures Shift(Xor(x, y)) == Xor(Shift(x), Shift(y))
  {
    hide Xor;
    var p := POLY64REV;
    var a, b := x / 2, y / 2;
    XorHalves(x, y);
    XorAssociative(a, b, p);
    XorAssociative(a, p, b);
    XorSymmetric(b, p);
    XorAssociative(Xor(a, p), b, p);
    XorAssociative(a, p, Xor(b, p));
    XorAssociative(p, b, p);
    XorAssociative(b, p, p);
    XorSymmetric(p, b);
    XorSymmetric(p, Xor(b, p));
    XorSelf(p);
    XorZero(b);
  }

  lemma {:induction false} ShiftsLinear(x: nat, y: nat, n: nat)
    ensures Shifts(Xor(x, y), n) == Xor(Shifts(x, n), Shifts(y, n))
    decreases n
  {
    hide Xor, Shift;
    if n > 0 {
      ShiftLinear(x, y);
      ShiftsLinear(Shift(x), Shift(y), n - 1);
    }
  }

  /** The low bit of a message can be taken in at once while the others wait. */
  lemma TakeBitIs(crc: nat, b: nat)
    ensures Shift(Xor(crc, b)) == Xor(TakeBit(crc, b % 2), b / 2)
  {
    hide Xor;
    var p := POLY64REV;
    XorHalves(crc, b);
    XorAssociative(crc / 2, b / 2, p);
    XorSymmetric(b / 2, p);
    XorAssociative(crc / 2, p, b / 2);
  }

  /** Taking in bits one by one is adding them all and shifting. */
  lemma {:induction false} TakeBitsIs(crc: nat, b: nat, n: nat)
    requires b < Pow2(n)
    ensures TakeBits(crc, b, n) == Shifts(Xor(crc, b), n)
    decreases n
  {
    hide Xor, Shift, TakeBit;
    if n > 0 {
      TakeBitIs(crc, b);
      TakeBitsIs(TakeBit(crc, b % 2), b / 2, n - 1);
    } else {
      XorZero(crc);
    }
  }

  /** Words shifted up come back down untouched by the polynomial. */
  lemma {:induction false} ShiftsUp(h: nat, n: nat)
    ensures Shifts(Up(h, n), n) == h
  {
    if n > 0 { ShiftsUp(h, n - 1); }
  }

  lemma {:induction false} XorOfParts(y: nat, n: nat)
    ensures Xor(Up(Down(y, n), n), Low(y, n)) == y
  {
    if n > 0 {
      XorOfParts(y / 2, n - 1);
      OneStep(y, n);
      hide Xor, Up, Down, Low;
      XorHalves(Up(Down(y, n), n), Low(y, n));
    } else {
      XorZero(y);
    }
  }

  lemma OneStep(y: nat, n: nat)
    requires n > 0
    ensures Up(Down(y, n), n) % 2 == 0 && Up(Down(y, n), n) / 2 == Up(Down(y / 2, n - 1), n - 1)
    ensures Low(y, n) % 2 == y % 2 && Low(y, n) / 2 == Low(y / 2, n - 1)
  {
    hide Up, Down, Low;
    OneMore(y, n);
    OneUp(Down(y, n), n);
  }

  lemma OneMore(y: nat, n: nat)
    requires n > 0
    ensures Low(y, n) == 2 * Low(y / 2, n - 1) + y % 2 && Down(y, n) == Down(y / 2, n - 1)
  {
  }

  lemma OneUp(a: nat, n: nat)
    requires n > 0
    ensures Up(a, n) == 2 * Up(a, n - 1)
  {
  }

  lemma {:induction false} XorDown(a: nat, b: nat, n: nat)
    ensures Down(Xor(a, b), n) == Xor(Down(a, n), Down(b, n))
  {
    if n > 0 {
      XorHalves(a, b);
      XorDown(a / 2, b / 2, n - 1);
    }
  }

  /** One byte by the table is the same byte bit by bit. */
  lemma TableStep(crc: nat, b: nat)
    requires b < Pow2(8)
    ensures Xor(TableEntry(Low(Xor(crc, b), 8)), Down(crc, 8)) == TakeBits(crc, b, 8)
  {
    hide Xor, Shifts, Up, Down, Low, TakeBits, Pow2;
    var y := Xor(crc, b);
    TakeBitsIs(crc, b, 8);
    XorOfParts(y, 8);
    ShiftsLinear(Up(Down(y, 8), 8), Low(y, 8), 8);
    ShiftsUp(Down(y, 8), 8);
    XorDown(crc, b, 8);
    LowSmall(b, 8);
    XorZero(Down(crc, 8));
    XorSymmetric(Down(crc, 8), Shifts(Low(y, 8), 8));
  }

  /** What the byte `i` makes of an empty register. */
  function TableEntry(i: nat): nat { Shifts(i, 8) }

  /** The table holds it for every byte. */
  method InitTable(tab: array<nat>)
    requires tab.Length == 256
    modifies tab
    ensures Filled(tab[..], 256)
  {
    hide Shift;
    for i := 0 to 256
      invariant Filled(tab[..], i)
    {
      var part: nat := i;
      var j := 0;
      while j < 8
        invariant 0 <= j <= 8 && Shifts(part, 8 - j) == Shifts(i, 8)
        invariant Filled(tab[..], i)
      {
        FirstShift(part, 8 - j);
        part := if part % 2 == 1 then Xor(part / 2, POLY64REV) else part / 2;
        j := j + 1;
      }
      NoShifts(part);
      Extended(tab[..], i, part);
      tab[i] := part;
    }
  }

  /** The entries below `i` are there. */
  ghost predicate Filled(t: seq<nat>, i: nat) {
    i <= |t| && forall k :: 0 <= k < i ==> t[k] == TableEntry(k)
  }

  lemma Extended(t: seq<nat>, i: nat, x: nat)
    requires Filled(t, i) && i < |t| && x == TableEntry(i)
    ensures Filled(t[i := x], i + 1)
  {
  }

  lemma NoShifts(x: nat)
    ensures Shifts(x, 0) == x
  {
  }

  lemma FirstShift(x: nat, n: nat)
    requires n > 0
    ensures Shifts(x, n) == Shifts(if x % 2 == 1 then Xor(x / 2, POLY64REV) else x / 2, n - 1)
  {
  }

  /** The table-driven loop computes the bit-by-bit checksum of any bytes from any start. */
  method Crc64(crc: nat, message: seq<nat>, tab: array<nat>) returns (r: nat)
    requires tab.Length == 256 && Filled(tab[..], 256)
    requires forall i :: 0 <= i < |message| ==> message[i] < 256
    ensures r == BitCrc(crc, message)
    ensures crc < Pow2(64) ==>
      Remains(Xor(Up(Reversed(crc, 64), 8 * |message|), Up(MessagePolynomial(message), 64)), 0x1_42F0_E1EB_A9EA_3693, Reversed(r, 64))
  {
    hide Xor, Shifts, TakeBits, And, Low, Down, Pow2, Up, Reversed, MessagePolynomial, Remains;
    r := crc;
    var i := 0;
    ByteBits();
    assert message[..0] == [];
    while i < |message|
      invariant 0 <= i <= |message| && r == BitCrc(crc, message[..i])
    {
      AndLow(Xor(r, message[i]), 8);
      Joined(Xor(r, message[i]), 8);
      TableStep(r, message[i]);
      assert message[..i + 1][..i] == message[..i];
      r := Xor(tab[And(Xor(r, message[i]), 0xFF)], Down(r, 8));
      i := i + 1;
    }
    assert message[..i] == message;
    if crc < Pow2(64) { CrcIsRemainder(crc, message); }
  }

  lemma ByteBits()
    ensures Pow2(8) == 256
  {
    SmallPowers();
  }

  // ---- the checksum as a remainder ------------------------------------------------

  /** The low `n` bits of `x` in reverse. */
  function Reversed(x: nat, n: nat): nat
    decreases n
  {
    if n == 0 then 0 else Up(x % 2, n - 1) + Reversed(x / 2, n - 1)
  }

  /** The product of two polynomials over the field of two elements; bit k of a number is the
      coefficient of x^k. */
  function Times(q: nat, g: nat): nat {
    if q == 0 then 0 else Xor(2 * Times(q / 2, g), if q % 2 == 1 then g else 0)
  }

  /** The message as a polynomial: the lowest bit of the first byte has the highest power. */
  function MessagePolynomial(message: seq<nat>): nat {
    if message == [] then 0
    else Up(MessagePolynomial(message[..|message| - 1]), 8) + Reversed(message[|message| - 1], 8)
  }

  /** `r` is what polynomial `a` leaves when it is divided by `g`, of degree 64. */
  ghost predicate Remains(a: nat, g: nat, r: nat) {
    r < Pow2(64) && exists q: nat :: a == Xor(Times(q, g), r)
  }

  lemma TimesStep(q: nat, g: nat, b: nat)
    requires b <= 1
    ensures Times(2 * q + b, g) == Xor(2 * Times(q, g), if b == 1 then g else 0)
  {
    hide Xor;
    if 2 * q + b == 0 { XorZero(0); }
  }

  lemma XorDouble(a: nat, b: nat)
    ensures Xor(2 * a, 2 * b) == 2 * Xor(a, b)
  {
    hide Xor;
    XorHalves(2 * a, 2 * b);
  }

  lemma {:induction false} XorUp(a: nat, b: nat, k: nat)
    ensures Xor(Up(a, k), Up(b, k)) == Up(Xor(a, b), k)
  {
    hide Xor;
    if k > 0 {
      XorUp(a, b, k - 1);
      XorDouble(Up(a, k - 1), Up(b, k - 1));
    }
  }

  /** A word shifted up by `k` places and one of `k` bits have no bit in common. */
  lemma {:induction false} XorDisjoint(a: nat, k: nat, b: nat)
    requires b < Pow2(k)
    ensures Xor(Up(a, k), b) == Up(a, k) + b
  {
    hide Xor;
    if k == 0 {
      XorZero(a);
    } else {
      XorDisjoint(a, k - 1, b / 2);
      XorHalves(Up(a, k), b);
    }
  }

  lemma {:induction false} XorBelow(a: nat, b: nat, k: nat)
    requires a < Pow2(k) && b < Pow2(k)
    ensures Xor(a, b) < Pow2(k)
  {
    if k > 0 {
      XorBelow(a / 2, b / 2, k - 1);
      hide Xor;
      XorHalves(a, b);
    }
  }

  lemma {:induction false} ReversedBelow(x: nat, n: nat)
    ensures Reversed(x, n) < Pow2(n)
    decreases n
  {
    if n > 0 {
      ReversedBelow(x / 2, n - 1);
      BitUp(x % 2, n - 1);
    }
  }

  lemma {:induction false} ReversedXor(a: nat, b: nat, n: nat)
    ensures Reversed(Xor(a, b), n) == Xor(Reversed(a, n), Reversed(b, n))
    decreases n
  {
    if n == 0 {
      XorZero(0);
    } else {
      ReversedXor(a / 2, b / 2, n - 1);
      ReversedHead(a, n);
      ReversedHead(b, n);
      ReversedHead(Xor(a, b), n);
      hide Xor, Up, Reversed;
      XorHalves(a, b);
      XorUp(a % 2, b % 2, n - 1);
      XorOfBits(a % 2, b % 2);
      XorFour(Up(a % 2, n - 1), Reversed(a / 2, n - 1), Up(b % 2, n - 1), Reversed(b / 2, n - 1));
    }
  }

  lemma XorOfBits(a: nat, b: nat)
    requires a <= 1 && b <= 1
    ensures Xor(a, b) == if a != b then 1 else 0
  {
  }

  lemma XorFour(a: nat, b: nat, c: nat, d: nat)
    ensures Xor(Xor(a, b), Xor(c, d)) == Xor(Xor(a, c), Xor(b, d))
  {
    hide Xor;
    XorAssociative(a, b, Xor(c, d));
    XorAssociative(b, c, d);
    XorSymmetric(b, c);
    XorAssociative(c, b, d);
    XorAssociative(a, c, Xor(b, d));
  }

  /** The lowest bit comes first. */
  lemma ReversedHead(x: nat, n: nat)
    requires n > 0
    ensures Reversed(x, n) == Xor(Up(x % 2, n - 1), Reversed(x / 2, n - 1))
  {
    hide Xor, Up;
    ReversedBelow(x / 2, n - 1);
    XorDisjoint(x % 2, n - 1, Reversed(x / 2, n - 1));
  }

  /** One more bit makes room at the end. */
  lemma {:induction false} ReversedLonger(x: nat, n: nat)
    requires x < Pow2(n)
    ensures Reversed(x, n + 1) == 2 * Reversed(x, n)
    decreases n
  {
    if n > 0 { ReversedLonger(x / 2, n - 1); }
  }

  lemma {:induction false} ReversedParts(a: nat, b: nat, j: nat, k: nat)
    requires b < Pow2(k)
    ensures Reversed(Up(a, k) + b, j + k) == Up(Reversed(b, k), j) + Reversed(a, j)
    decreases k
  {
    if k > 0 {
      ReversedParts(a, b / 2, j, k - 1);
      SplitLow(a, b, k);
      hide Pow2;
      UpPlus(Up(b % 2, k - 1), Reversed(b / 2, k - 1), j);
      UpUp(b % 2, k - 1, j);
      assert k - 1 + j == j + k - 1;
    } else {
      LowOfZero(j);
    }
  }

  lemma SplitLow(a: nat, b: nat, k: nat)
    requires k > 0
    ensures (Up(a, k) + b) % 2 == b % 2 && (Up(a, k) + b) / 2 == Up(a, k - 1) + b / 2
  {
  }

  lemma {:induction false} UpPlus(a: nat, b: nat, k: nat)
    ensures Up(a + b, k) == Up(a, k) + Up(b, k)
  {
    if k > 0 { UpPlus(a, b, k - 1); }
  }

  lemma BitUp(b: nat, k: nat)
    requires b <= 1
    ensures Up(b, k) == if b == 1 then Pow2(k) else 0
  {
    hide Up, Pow2;
    UpIs(b, k);
  }

  /** The bits of half a byte in reverse. */
  lemma LowNibbles()
    ensures Reversed(2, 4) == 4 && Reversed(4, 4) == 2 && Reversed(0, 4) == 0 && Reversed(15, 4) == 15
  {
    hide Reversed;
    ReversedNibble(2);
    ReversedNibble(4);
    ReversedNibble(0);
    ReversedNibble(15);
  }

  lemma MoreNibbles()
    ensures Reversed(8, 4) == 1 && Reversed(7, 4) == 14 && Reversed(13, 4) == 11 && Reversed(9, 4) == 9
    ensures Reversed(5, 4) == 10 && Reversed(6, 4) == 6 && Reversed(12, 4) == 3
  {
    hide Reversed;
    ReversedNibble(8);
    ReversedNibble(7);
    ReversedNibble(13);
    ReversedNibble(9);
    ReversedNibble(5);
    ReversedNibble(6);
    ReversedNibble(12);
  }

  lemma ReversedNibble(x: nat)
    ensures Reversed(x, 4) == 8 * (x % 2) + 4 * (x / 2 % 2) + 2 * (x / 2 / 2 % 2) + x / 2 / 2 / 2 % 2
  {
  }

  lemma ReversedByte(hi: nat, lo: nat)
    requires hi < 16 && lo < 16
    ensures Reversed(16 * hi + lo, 8) == 16 * Reversed(lo, 4) + Reversed(hi, 4)
  {
    hide Reversed, Pow2;
    SmallTable();
    ReversedPair(hi, lo, 4, 16);
  }

  /** Two words of `j` bits side by side. */
  lemma ReversedPair(hi: nat, lo: nat, j: nat, p: nat)
    requires p == Pow2(j) && lo < p
    ensures Reversed(hi * p + lo, j + j) == Reversed(lo, j) * p + Reversed(hi, j)
  {
    hide Reversed;
    UpIs(hi, j);
    UpIs(Reversed(lo, j), j);
    ReversedParts(hi, lo, j, j);
  }

  lemma BigTable()
    ensures Pow2(8) == 0x100 && Pow2(16) == 0x1_0000 && Pow2(32) == 0x1_0000_0000
  {
    hide Pow2;
    SmallPowers();
    Pow2Add(8, 8);
    Pow2Add(16, 16);
  }

  /** The register word is the polynomial without its highest term, in reverse. */
  lemma ReversedRegister()
    ensures Reversed(POLY64REV, 64) == 0x42F0_E1EB_A9EA_3693
  {
    hide Reversed, Pow2;
    BigTable();
    LowHalfReversed();
    HighHalfReversed();
    ReversedPair(0xC96C_5795, 0xD787_0F42, 32, 0x1_0000_0000);
  }

  lemma LowHalfReversed()
    ensures Reversed(0xD787_0F42, 32) == 0x42F0_E1EB
  {
    hide Reversed, Pow2;
    BigTable();
    LowNibbles();
    MoreNibbles();
    ReversedByte(0x4, 0x2);
    ReversedByte(0x0, 0xF);
    ReversedByte(0x8, 0x7);
    ReversedByte(0xD, 0x7);
    ReversedPair(0x0F, 0x42, 8, 0x100);
    ReversedPair(0xD7, 0x87, 8, 0x100);
    ReversedPair(0xD787, 0x0F42, 16, 0x1_0000);
  }

  lemma HighHalfReversed()
    ensures Reversed(0xC96C_5795, 32) == 0xA9EA_3693
  {
    hide Reversed, Pow2;
    BigTable();
    LowNibbles();
    MoreNibbles();
    ReversedByte(0x9, 0x5);
    ReversedByte(0x5, 0x7);
    ReversedByte(0x6, 0xC);
    ReversedByte(0xC, 0x9);
    ReversedPair(0x57, 0x95, 8, 0x100);
    ReversedPair(0xC9, 0x6C, 8, 0x100);
    ReversedPair(0xC96C, 0x5795, 16, 0x1_0000);
  }

  /** The generator polynomial of ECMA-182, term by term. */
  lemma GeneratorIs()
    ensures 0x1_42F0_E1EB_A9EA_3693 ==
      Pow2(64) + Pow2(62) + Pow2(57) + Pow2(55) + Pow2(54) + Pow2(53) + Pow2(52) + Pow2(47) + Pow2(46) +
      Pow2(45) + Pow2(40) + Pow2(39) + Pow2(38) + Pow2(37) + Pow2(35) + Pow2(33) + Pow2(32) + Pow2(31) +
      Pow2(29) + Pow2(27) + Pow2(24) + Pow2(23) + Pow2(22) + Pow2(21) + Pow2(19) + Pow2(17) + Pow2(13) +
      Pow2(12) + Pow2(10) + Pow2(9) + Pow2(7) + Pow2(4) + Pow2(1) + Pow2(0)
  {
    hide Pow2;
    SmallTable();
    BigTable();
    Powers();
    PowersFrom(8);
    PowersFrom(16);
    PowersFrom(24);
    PowersFrom(32);
    PowersFrom(40);
    PowersFrom(48);
    PowersFrom(56);
  }

  lemma PowersFrom(k: nat)
    ensures Pow2(k + 1) == 2 * Pow2(k) && Pow2(k + 2) == 4 * Pow2(k) && Pow2(k + 3) == 8 * Pow2(k) && Pow2(k + 4) == 16 * Pow2(k)
    ensures Pow2(k + 5) == 32 * Pow2(k) && Pow2(k + 6) == 64 * Pow2(k) && Pow2(k + 7) == 128 * Pow2(k) && Pow2(k + 8) == 256 * Pow2(k)
  {
  }

  lemma SmallTable()
    ensures Pow2(0) == 1 && Pow2(1) == 2 && Pow2(2) == 4 && Pow2(3) == 8 && Pow2(4) == 16 && Pow2(5) == 32 && Pow2(6) == 64 && Pow2(7) == 128
  {
  }

  // ---- division bit by bit --------------------------------------------------------

  /** One message bit: the dividend gets a place more, and the bit at 64. */
  lemma BitDivides(a: nat, crc: nat, bit: nat, q: nat) returns (q1: nat)
    requires bit <= 1 && crc < Pow2(64)
    requires a == Xor(Times(q, 0x1_42F0_E1EB_A9EA_3693), Reversed(crc, 64))
    ensures TakeBit(crc, bit) < Pow2(64)
    ensures Xor(2 * a, Up(bit, 64)) == Xor(Times(q1, 0x1_42F0_E1EB_A9EA_3693), Reversed(TakeBit(crc, bit), 64))
  {
    hide Xor, Times, Reversed, Up, Pow2;
    var g, low := 0x1_42F0_E1EB_A9EA_3693, 0x42F0_E1EB_A9EA_3693;
    var rest := Reversed(crc / 2, 64);
    RegisterSmall(crc);
    ShiftedOut(crc, bit);
    ReversedRegister();
    ReversedXor(crc / 2, POLY64REV, 64);
    XorDouble(Times(q, g), Reversed(crc, 64));
    XorAssociative(2 * Times(q, g), 2 * Reversed(crc, 64), Up(bit, 64));
    XorZero(rest);
    XorZero(2 * Times(q, g));
    if crc % 2 == bit {
      q1 := 2 * q + 0;
      TimesStep(q, g, 0);
    } else {
      q1 := 2 * q + 1;
      TimesStep(q, g, 1);
      TopTerm();
      XorAssociative(2 * Times(q, g), g, Xor(rest, low));
      XorAssociative(Pow2(64), low, Xor(rest, low));
      XorSymmetric(rest, low);
      XorAssociative(low, low, rest);
      XorSelf(low);
      XorSymmetric(Pow2(64), rest);
    }
  }

  lemma TopTerm()
    ensures Xor(Pow2(64), 0x42F0_E1EB_A9EA_3693) == 0x1_42F0_E1EB_A9EA_3693
  {
    hide Xor, Up, Pow2;
    Powers();
    BitUp(1, 64);
    XorDisjoint(1, 64, 0x42F0_E1EB_A9EA_3693);
  }

  lemma RegisterSmall(crc: nat)
    requires crc < Pow2(64)
    ensures crc / 2 < Pow2(63) && POLY64REV < Pow2(64)
    ensures crc / 2 < Pow2(64) && Xor(crc / 2, POLY64REV) < Pow2(64)
  {
    hide Pow2, Xor;
    Powers();
    Pow2Add(1, 63);
    SmallPowers();
    XorBelow(crc / 2, POLY64REV, 64);
  }

  /** The bit that leaves the register meets the message bit. */
  lemma ShiftedOut(crc: nat, bit: nat)
    requires bit <= 1 && crc / 2 < Pow2(63)
    ensures Xor(2 * Reversed(crc, 64), Up(bit, 64)) == Xor(Reversed(crc / 2, 64), if crc % 2 == bit then 0 else Pow2(64))
  {
    hide Xor, Reversed, Up, Pow2;
    ReversedHead(crc, 64);
    ReversedLonger(crc / 2, 63);
    XorDouble(Up(crc % 2, 63), Reversed(crc / 2, 63));
    UpStep(crc % 2);
    var rest, c, b := Reversed(crc / 2, 64), Up(crc % 2, 64), Up(bit, 64);
    XorSymmetric(c, rest);
    XorAssociative(rest, c, b);
    XorUp(crc % 2, bit, 64);
    XorOfBits(crc % 2, bit);
    BitUp(Xor(crc % 2, bit), 64);
  }

  lemma UpStep(b: nat)
    ensures 2 * Up(b, 63) == Up(b, 64)
  {
  }

  /** `n` bits, lowest first. */
  lemma {:induction false} BitsDivide(a: nat, crc: nat, b: nat, n: nat, q: nat) returns (q1: nat)
    requires crc < Pow2(64) && a == Xor(Times(q, 0x1_42F0_E1EB_A9EA_3693), Reversed(crc, 64))
    ensures TakeBits(crc, b, n) < Pow2(64)
    ensures Xor(Up(a, n), Up(Reversed(b, n), 64)) == Xor(Times(q1, 0x1_42F0_E1EB_A9EA_3693), Reversed(TakeBits(crc, b, n), 64))
    decreases n
  {
    hide Xor, Times, Reversed, Up, Pow2, TakeBit, TakeBits;
    NoBitsTaken(a, crc, b);
    if n == 0 {
      q1 := q;
    } else {
      MoreBitsTaken(crc, b, n);
      var a1 := Xor(2 * a, Up(b % 2, 64));
      q1 := BitDivides(a, crc, b % 2, q);
      q1 := BitsDivide(a1, TakeBit(crc, b % 2), b / 2, n - 1, q1);
      BitsJoin(a, b, n);
    }
  }

  lemma NoBitsTaken(a: nat, crc: nat, b: nat)
    ensures TakeBits(crc, b, 0) == crc && Xor(Up(a, 0), Up(Reversed(b, 0), 64)) == a
  {
    LowOfZero(64);
    XorZero(a);
  }

  lemma MoreBitsTaken(crc: nat, b: nat, n: nat)
    requires n > 0
    ensures TakeBits(crc, b, n) == TakeBits(TakeBit(crc, b % 2), b / 2, n - 1)
  {
  }

  lemma BitsJoin(a: nat, b: nat, n: nat)
    requires n > 0
    ensures Xor(Up(Xor(2 * a, Up(b % 2, 64)), n - 1), Up(Reversed(b / 2, n - 1), 64)) == Xor(Up(a, n), Up(Reversed(b, n), 64))
  {
    hide Xor, Reversed, Up;
    var c, rest := b % 2, Reversed(b / 2, n - 1);
    XorUp(2 * a, Up(c, 64), n - 1);
    DoubleUp(a, n);
    UpUp(c, 64, n - 1);
    UpUp(c, n - 1, 64);
    assert 64 + (n - 1) == n - 1 + 64;
    XorAssociative(Up(a, n), Up(Up(c, n - 1), 64), Up(rest, 64));
    XorUp(Up(c, n - 1), rest, 64);
    ReversedHead(b, n);
  }

  lemma {:induction false} DoubleUp(a: nat, n: nat)
    requires n > 0
    ensures Up(2 * a, n - 1) == Up(a, n)
  {
    if n > 1 { DoubleUp(a, n - 1); }
  }

  /** From any register, the checksum is what the register and the message together leave when
      they are divided by x^64 + x^62 + x^57 + ... + x^4 + x + 1: for an empty register, the
      message times x^64. */
  lemma CrcIsRemainder(crc: nat, message: seq<nat>)
    requires crc < Pow2(64)
    ensures Remains(Xor(Up(Reversed(crc, 64), 8 * |message|), Up(MessagePolynomial(message), 64)),
                    0x1_42F0_E1EB_A9EA_3693, Reversed(BitCrc(crc, message), 64))
    ensures BitCrc(crc, message) < Pow2(64)
  {
    hide Xor, Reversed, Up, Pow2, BitCrc, MessagePolynomial, Times;
    var q := MessageDivides(crc, message);
    ReversedBelow(BitCrc(crc, message), 64);
  }

  lemma {:induction false} MessageDivides(crc: nat, message: seq<nat>) returns (q: nat)
    requires crc < Pow2(64)
    ensures BitCrc(crc, message) < Pow2(64)
    ensures Xor(Up(Reversed(crc, 64), 8 * |message|), Up(MessagePolynomial(message), 64)) ==
      Xor(Times(q, 0x1_42F0_E1EB_A9EA_3693), Reversed(BitCrc(crc, message), 64))
  {
    hide Xor, Reversed, Up, Pow2, TakeBits;
    if message == [] {
      q := 0;
      NothingUp(Reversed(crc, 64));
    } else {
      var n := |message| - 1;
      q := MessageDivides(crc, message[..n]);
      var a := Xor(Up(Reversed(crc, 64), 8 * n), Up(MessagePolynomial(message[..n]), 64));
      q := BitsDivide(a, BitCrc(crc, message[..n]), message[n], 8, q);
      ByteJoins(Reversed(crc, 64), n, MessagePolynomial(message[..n]), message[n]);
    }
  }

  lemma NothingUp(r: nat)
    ensures Up(r, 8 * 0) == r && Up(0, 64) == 0 && Xor(r, 0) == r == Xor(0, r)
  {
    LowOfZero(64);
  }

  lemma ByteJoins(r: nat, n: nat, p: nat, b: nat)
    ensures Xor(Up(Xor(Up(r, 8 * n), Up(p, 64)), 8), Up(Reversed(b, 8), 64)) == Xor(Up(r, 8 * (n + 1)), Up(Up(p, 8) + Reversed(b, 8), 64))
  {
    hide Xor, Reversed, Up, Pow2;
    XorUp(Up(r, 8 * n), Up(p, 64), 8);
    UpUp(r, 8 * n, 8);
    UpUp(p, 64, 8);
    UpUp(p, 8, 64);
    XorAssociative(Up(r, 8 * n + 8), Up(Up(p, 8), 64), Up(Reversed(b, 8), 64));
    XorUp(Up(p, 8), Reversed(b, 8), 64);
    ReversedBelow(b, 8);
    XorDisjoint(p, 8, Reversed(b, 8));
    assert 8 * (n + 1) == 8 * n + 8;
  }

  // ---- there is one remainder -----------------------------------------------------

  /** The bits of the larger word are not all lost. */
  lemma {:induction false} XorAbove(a: nat, b: nat, k: nat)
    requires a >= Pow2(k) && b < Pow2(k)
    ensures Xor(a, b) >= Pow2(k)
  {
    if k == 0 {
      XorZero(a);
    } else {
      XorAbove(a / 2, b / 2, k - 1);
      hide Xor;
      XorHalves(a, b);
    }
  }

  lemma {:induction false} TimesAbove(q: nat, g: nat, k: nat)
    requires q > 0 && Pow2(k) <= g < Pow2(k + 1)
    ensures Times(q, g) >= Pow2(k)
  {
    hide Xor;
    XorZero(g);
    if q > 1 {
      TimesAbove(q / 2, g, k);
      XorZero(2 * Times(q / 2, g));
      XorAbove(2 * Times(q / 2, g), g, k + 1);
    }
  }

  lemma {:induction false} TimesLinear(p: nat, q: nat, g: nat)
    ensures Times(Xor(p, q), g) == Xor(Times(p, g), Times(q, g))
  {
    XorHalves(p, q);
    TimesHalf(p, g);
    TimesHalf(q, g);
    TimesHalf(Xor(p, q), g);
    hide Xor, Times;
    if p == 0 || q == 0 {
      TimesZero(g);
      XorZero(p);
      XorZero(q);
      XorZero(Times(p, g));
      XorZero(Times(q, g));
    } else {
      TimesLinear(p / 2, q / 2, g);
      XorDouble(Times(p / 2, g), Times(q / 2, g));
      XorFour(2 * Times(p / 2, g), if p % 2 == 1 then g else 0, 2 * Times(q / 2, g), if q % 2 == 1 then g else 0);
      XorSelf(g);
      XorSelf(0);
      XorZero(g);
    }
  }

  lemma TimesHalf(q: nat, g: nat)
    ensures Times(q, g) == Xor(2 * Times(q / 2, g), if q % 2 == 1 then g else 0)
  {
    hide Xor;
    XorZero(0);
  }

  lemma TimesZero(g: nat)
    ensures Times(0, g) == 0
  {
  }

  /** What is left is determined by the polynomials. */
  lemma RemainderUnique(a: nat, g: nat, r: nat, s: nat)
    requires Pow2(64) <= g < Pow2(65) && Remains(a, g, r) && Remains(a, g, s)
    ensures r == s
  {
    hide Xor, Times, Pow2;
    var p: nat :| a == Xor(Times(p, g), r);
    var q: nat :| a == Xor(Times(q, g), s);
    var t, u := Times(p, g), Times(q, g);
    TimesLinear(p, q, g);
    XorFour(t, u, r, s);
    XorFour(t, r, u, s);
    XorSelf(a);
    XorBelow(r, s, 64);
    XorEqual(Xor(t, u), Xor(r, s));
    if Xor(p, q) > 0 {
      TimesAbove(Xor(p, q), g, 64);
    } else {
      TimesZero(g);
      XorEqual(r, s);
    }
  }

  lemma XorEqual(a: nat, b: nat)
    ensures Xor(a, b) == 0 ==> a == b
  {
    if Xor(a, b) == 0 {
      hide Xor;
      XorAssociative(a, b, b);
      XorSelf(b);
      XorZero(a);
      XorZero(b);
    }
  }
}
