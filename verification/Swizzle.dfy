/** Swizzle masks, physical addresses and segments
    (updown/common/include/memorySegments.h).  `Up`, `Down`, `And` and `Or` stand for
    `<<`, `>>`, `&` and `|`; a shift up that can leave the word is wrapped. */
module Swizzle {
  import opened Bits
  import opened Rects

  datatype Option<T> = None | Some(value: T)

  function Shl(a: nat, k: nat): nat { Wrap(Up(a, k)) }

  /** All bits of a word turned over. */
  function Not(w: nat): nat { Wrap(WORD - 1 - w) }

  /** Widths of the four fields of a swizzle mask. */
  datatype Mask = Mask(P: nat, F: nat, B: nat, C: nat)

  /** The mask word: `F` ones, `B` zeros, `C` ones. */
  function Encode(m: Mask): nat {
    Or(Shl(Pow2(m.F) - 1, m.B + m.C), Pow2(m.C) - 1)
  }

  function Ones(w: nat): nat {
    if w % 2 == 1 then 1 + Ones(w / 2) else 0
  }

  function Zeros(w: nat): nat
    requires w > 0
  {
    if w % 2 == 0 then 1 + Zeros(w / 2) else 0
  }

  /** The loop that counts zeros meets a one: without one it never ends. */
  predicate Decodable(w: nat) { Down(w, Ones(w)) != 0 }

  /** What the three counting loops find. */
  function Decoded(w: nat): Mask
    requires Decodable(w)
  {
    var C := Ones(w);
    var B := Zeros(Down(w, C));
    var F := Ones(Down(Down(w, C), B));
    Mask(Wrap(64 - C - B - F), F, B, C)
  }

  method Decode(w: nat) returns (m: Mask)
    requires Decodable(w)
    ensures m == Decoded(w)
  {
    var tmp, C := w, 0;
    while tmp % 2 == 1
      invariant Ones(w) == C + Ones(tmp) && Down(w, Ones(w)) == Down(tmp, Ones(tmp))
      decreases tmp
    {
      C, tmp := C + 1, tmp / 2;
    }
    ghost var rest := tmp;
    var B := 0;
    while tmp % 2 == 0
      invariant tmp > 0 && Zeros(rest) == B + Zeros(tmp) && Down(rest, Zeros(rest)) == Down(tmp, Zeros(tmp))
      decreases tmp
    {
      B, tmp := B + 1, tmp / 2;
    }
    ghost var last := tmp;
    var F := 0;
    while tmp % 2 == 1
      invariant Ones(last) == F + Ones(tmp)
      decreases tmp
    {
      F, tmp := F + 1, tmp / 2;
    }
    m := Mask(Wrap(64 - C - B - F), F, B, C);
  }

  lemma OneMore(v: nat)
    ensures Ones(2 * v + 1) == 1 + Ones(v)
  {
    hide Ones;
    OnesStep(2 * v + 1);
  }

  lemma OnesStep(w: nat)
    ensures Ones(w) == if w % 2 == 1 then 1 + Ones(w / 2) else 0
  {
  }

  lemma ZeroMore(v: nat)
    requires v > 0
    ensures Zeros(2 * v) == 1 + Zeros(v)
  {
  }

  lemma {:induction false} OnesOfField(a: nat, k: nat)
    ensures Ones(Up(2 * a, k) + Pow2(k) - 1) == k
  {
    hide Ones;
    var w := Up(2 * a, k) + Pow2(k) - 1;
    if k > 0 {
      var v := Up(2 * a, k - 1) + Pow2(k - 1) - 1;
      assert w == 2 * v + 1;
      OnesOfField(a, k - 1);
      OneMore(v);
    } else {
      assert w == 2 * a;
      OnesStep(w);
    }
  }

  lemma {:induction false} ZerosOfField(a: nat, k: nat)
    requires a % 2 == 1
    ensures Up(a, k) > 0 && Zeros(Up(a, k)) == k
  {
    if k > 0 {
      ZerosOfField(a, k - 1);
      ZeroMore(Up(a, k - 1));
    }
  }

  /** Decoding never ends exactly on a run of ones and nothing above it. */
  lemma {:induction false} DecodableIff(w: nat)
    ensures Decodable(w) <==> !IsPow2(w + 1)
  {
    if w % 2 == 1 {
      DecodableIff(w / 2);
      Pow2Double(w / 2 + 1);
    } else if w == 0 {
      assert w + 1 == Pow2(0);
    } else {
      OddPower(w + 1);
    }
  }

  /** The word is the two runs of ones, side by side. */
  lemma EncodeIs(m: Mask)
    requires m.P + m.F + m.B + m.C == 64 && m.F < 64 && m.C < 64
    ensures Encode(m) == Up(Pow2(m.F) - 1, m.B + m.C) + Pow2(m.C) - 1
  {
    hide Up, Pow2;
    Powers();
    UpOnes(m.F, m.B + m.C);
    Pow2Monotone(m.F + m.B + m.C, 64);
    UpUp(Pow2(m.F) - 1, m.B, m.C);
    OrDisjoint(Up(Pow2(m.F) - 1, m.B), m.C, Pow2(m.C) - 1);
  }

  /** Decoding an encoded mask ends exactly when both middle fields are there, and then
      it gives back the four widths. */
  lemma DecodeEncode(m: Mask)
    requires m.P + m.F + m.B + m.C == 64 && m.F < 64 && m.C < 64
    ensures Decodable(Encode(m)) <==> m.F >= 1 && m.B >= 1
    ensures m.F >= 1 && m.B >= 1 ==> Decoded(Encode(m)) == m
  {
    hide Up, Encode, Pow2, Decodable, Decoded;
    EncodeIs(m);
    if m.F == 0 {
      DecodableIff(Encode(m));
      NoOnes(m.B + m.C);
      assert IsPow2(Encode(m) + 1);
    } else if m.B == 0 {
      DecodableIff(Encode(m));
      UpOnes(m.F, m.C);
      assert IsPow2(Encode(m) + 1);
    } else {
      DecodeFields(m);
    }
  }

  lemma NoOnes(k: nat)
    ensures Up(Pow2(0) - 1, k) == 0
  {
    LowOfZero(k);
  }

  lemma DecodeFields(m: Mask)
    requires m.P + m.F + m.B + m.C == 64 && m.F >= 1 && m.B >= 1
    ensures var w := Up(Pow2(m.F) - 1, m.B + m.C) + Pow2(m.C) - 1;
      Decodable(w) && Decoded(w) == m
  {
    LowOfZero(m.F);
    FieldsDecode(0, m.F, m.B, m.C);
  }

  lemma FieldsDecode(h: nat, F: nat, B: nat, C: nat)
    requires F >= 1 && B >= 1
    ensures var w := Up(Up(2 * h, F) + Pow2(F) - 1, B + C) + Pow2(C) - 1;
      Decodable(w) && Decoded(w) == Mask(Wrap(64 - C - B - F), F, B, C)
  {
    hide Up, Down, Ones, Zeros, Pow2, Wrap;
    var ones := Up(2 * h, F) + Pow2(F) - 1;
    OddField(F);
    EvenField(2 * h, F);
    assert ones == 2 * (Up(2 * h, F - 1) + (Pow2(F) - 1) / 2) + 1;
    UpUp(ones, B, C);
    EvenField(ones, B);
    OnesOfField(Up(ones, B - 1), C);
    Split(Up(ones, B), Pow2(C) - 1, C);
    ZerosOfField(ones, B);
    Split(ones, 0, B);
    OnesOfField(h, F);
  }

  /** Of every word on which it ends, decoding yields the runs: from the low end `C` ones, `B`
      zeros, `F` ones and a zero, whatever stands above it. */
  lemma DecodesRuns(w: nat) returns (h: nat)
    requires Decodable(w)
    ensures var m := Decoded(w);
      && m.F >= 1 && m.B >= 1 && m.P == (64 - m.C - m.B - m.F) % 0x1_0000_0000_0000_0000
      && w == ((2 * h + 1) * Pow2(m.F) - 1) * Pow2(m.B + m.C) + Pow2(m.C) - 1
  {
    hide Up, Down, Ones, Zeros, Pow2;
    var C := Ones(w);
    var v := Down(w, C);
    OnesRun(w);
    var B := Zeros(v);
    var u := Down(v, B);
    ZerosRun(v);
    var F := Ones(u);
    OnesRun(u);
    h := Down(u, F) / 2;
    UpIs(2 * h, F);
    UpIs(u, B);
    UpIs(v, C);
    Pow2Add(B, C);
    RunsMultiply(w, v, u, h, Pow2(F), Pow2(B), Pow2(C));
  }

  lemma RunsMultiply(w: nat, v: nat, u: nat, h: nat, f: nat, b: nat, c: nat)
    requires w == v * c + c - 1 && v == u * b && u == 2 * h * f + f - 1
    ensures w == ((2 * h + 1) * f - 1) * (b * c) + c - 1
  {
    assert u == (2 * h + 1) * f - 1;
    assert v * c == u * (b * c);
  }

  /** And only these runs: the fields that a word is made of are the ones decoded. */
  lemma RunsDecode(h: nat, F: nat, B: nat, C: nat)
    requires F >= 1 && B >= 1
    ensures ((2 * h + 1) * Pow2(F) - 1) * Pow2(B + C) + Pow2(C) - 1 >= 0
    ensures var w := ((2 * h + 1) * Pow2(F) - 1) * Pow2(B + C) + Pow2(C) - 1;
      Decodable(w) && Decoded(w) == Mask((64 - C - B - F) % 0x1_0000_0000_0000_0000, F, B, C)
  {
    hide Up, Down, Ones, Zeros, Pow2;
    var field := Up(2 * h, F) + Pow2(F) - 1;
    UpIs(2 * h, F);
    assert field == (2 * h + 1) * Pow2(F) - 1;
    UpIs(field, B + C);
    FieldsDecode(h, F, B, C);
  }

  lemma {:induction false} OnesRun(w: nat)
    ensures var c := Ones(w);
      w == Up(Down(w, c), c) + Pow2(c) - 1 && Down(w, c) % 2 == 0 && (c >= 1 <==> w % 2 == 1)
  {
    if w % 2 == 1 { OnesRun(w / 2); }
  }

  lemma {:induction false} ZerosRun(w: nat)
    requires w > 0
    ensures var c := Zeros(w);
      w == Up(Down(w, c), c) && Down(w, c) % 2 == 1 && (c >= 1 <==> w % 2 == 0)
  {
    if w % 2 == 0 { ZerosRun(w / 2); }
  }

  lemma PowStep(k: nat)
    requires k >= 1
    ensures Pow2(k) == 2 * Pow2(k - 1)
  {
  }

  lemma OddField(k: nat)
    requires k >= 1
    ensures (Pow2(k) - 1) % 2 == 1
  {
    hide Pow2;
    var half := Pow2(k - 1) - 1;
    PowStep(k);
    assert Pow2(k) - 1 == 2 * half + 1;
  }

  lemma EvenField(a: nat, k: nat)
    requires k >= 1
    ensures Up(a, k) == 2 * Up(a, k - 1)
  {
  }
}
