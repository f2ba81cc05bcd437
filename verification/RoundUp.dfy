/** Rounding up to a power of two, by smearing bits and on numbers. */
module RoundUp {
  /** The bit-smearing form. */
  function RoundUpBits(val: bv32): bv32 {
    var v := val - 1;
    var v := v | (v >> 1);
    var v := v | (v >> 2);
    var v := v | (v >> 4);
    var v := v | (v >> 8);
    var v := v | (v >> 16);
    v + 1
  }

  predicate OneBit(r: bv32) {
    r != 0 && r & (r - 1) == 0
  }

  /** It is a power of two, not below val, and no smaller power of two is. */
  lemma RoundUpBitsIsLeast(val: bv32, p: bv32)
    requires 1 <= val <= 0x8000_0000
    ensures var r := RoundUpBits(val); OneBit(r) && r >> 1 < val <= r
    ensures OneBit(p) && p >= val ==> p >= RoundUpBits(val)
  {
    assert RoundUpBits(val) >> 1 < val;
  }

  ghost predicate PowerOfTwo(n: nat) {
    n == 1 || (n > 1 && n % 2 == 0 && PowerOfTwo(n / 2))
  }

  /** The same on numbers: the least power of two from p on that reaches val. */
  function RoundUpPower2(val: nat, p: nat): (r: nat)
    requires 0 < p && PowerOfTwo(p)
    ensures PowerOfTwo(r) && r >= val && r >= p && (r == p || r < 2 * val)
    decreases val - p
  {
    if p >= val then p else RoundUpPower2(val, 2 * p)
  }

  lemma {:induction false} OnePower(m: nat, n: nat)
    requires PowerOfTwo(m) && PowerOfTwo(n) && m <= n < 2 * m
    ensures m == n
  {
    if m > 1 { OnePower(m / 2, n / 2); }
  }

  /** Only one power of two is at least val and below its double. */
  lemma OnlyPower(val: nat, r: nat)
    requires PowerOfTwo(r) && val <= r < 2 * val
    ensures r == RoundUpPower2(val, 1)
  {
    var q := RoundUpPower2(val, 1);
    if q <= r { OnePower(q, r); } else { OnePower(r, q); }
  }

  lemma Cases(r: bv32)
    requires OneBit(r)
    ensures r == 0x1 || r == 0x2 || r == 0x4 || r == 0x8 || r == 0x10 || r == 0x20 || r == 0x40 || r == 0x80 ||
            r == 0x100 || r == 0x200 || r == 0x400 || r == 0x800 || r == 0x1000 || r == 0x2000 || r == 0x4000 || r == 0x8000 ||
            r == 0x10000 || r == 0x20000 || r == 0x40000 || r == 0x80000 || r == 0x100000 || r == 0x200000 || r == 0x400000 || r == 0x800000 ||
            r == 0x1000000 || r == 0x2000000 || r == 0x4000000 || r == 0x8000000 || r == 0x10000000 || r == 0x20000000 || r == 0x40000000 || r == 0x80000000
  {
  }

  lemma CompareLow(val: bv32, r: bv32)
    requires OneBit(r) && r < 0x1_0000
    ensures val <= r ==> val as nat <= r as nat
    ensures val > r ==> val as nat > r as nat
  {
    Cases(r);
    hide *;
    if r == 0x1 { assert val <= 0x1 || val > 0x1; }
    else if r == 0x2 { assert val <= 0x2 || val > 0x2; }
    else if r == 0x4 { assert val <= 0x4 || val > 0x4; }
    else if r == 0x8 { assert val <= 0x8 || val > 0x8; }
    else if r == 0x10 { assert val <= 0x10 || val > 0x10; }
    else if r == 0x20 { assert val <= 0x20 || val > 0x20; }
    else if r == 0x40 { assert val <= 0x40 || val > 0x40; }
    else if r == 0x80 { assert val <= 0x80 || val > 0x80; }
    else if r == 0x100 { assert val <= 0x100 || val > 0x100; }
    else if r == 0x200 { assert val <= 0x200 || val > 0x200; }
    else if r == 0x400 { assert val <= 0x400 || val > 0x400; }
    else if r == 0x800 { assert val <= 0x800 || val > 0x800; }
    else if r == 0x1000 { assert val <= 0x1000 || val > 0x1000; }
    else if r == 0x2000 { assert val <= 0x2000 || val > 0x2000; }
    else if r == 0x4000 { assert val <= 0x4000 || val > 0x4000; }
    else if r == 0x8000 { assert val <= 0x8000 || val > 0x8000; }
  }

  lemma CompareHigh(val: bv32, r: bv32)
    requires OneBit(r) && r >= 0x1_0000
    ensures val <= r ==> val as nat <= r as nat
    ensures val > r ==> val as nat > r as nat
  {
    Cases(r);
    hide *;
    if r == 0x10000 { assert val <= 0x10000 || val > 0x10000; }
    else if r == 0x20000 { assert val <= 0x20000 || val > 0x20000; }
    else if r == 0x40000 { assert val <= 0x40000 || val > 0x40000; }
    else if r == 0x80000 { assert val <= 0x80000 || val > 0x80000; }
    else if r == 0x100000 { assert val <= 0x100000 || val > 0x100000; }
    else if r == 0x200000 { assert val <= 0x200000 || val > 0x200000; }
    else if r == 0x400000 { assert val <= 0x400000 || val > 0x400000; }
    else if r == 0x800000 { assert val <= 0x800000 || val > 0x800000; }
    else if r == 0x1000000 { assert val <= 0x1000000 || val > 0x1000000; }
    else if r == 0x2000000 { assert val <= 0x2000000 || val > 0x2000000; }
    else if r == 0x4000000 { assert val <= 0x4000000 || val > 0x4000000; }
    else if r == 0x8000000 { assert val <= 0x8000000 || val > 0x8000000; }
    else if r == 0x10000000 { assert val <= 0x10000000 || val > 0x10000000; }
    else if r == 0x20000000 { assert val <= 0x20000000 || val > 0x20000000; }
    else if r == 0x40000000 { assert val <= 0x40000000 || val > 0x40000000; }
    else if r == 0x80000000 { assert val <= 0x80000000 || val > 0x80000000; }
  }

  /** A word and a power of two compare as their numbers do. */
  lemma Compare(val: bv32, r: bv32)
    requires OneBit(r)
    ensures val <= r ==> val as nat <= r as nat
    ensures val > r ==> val as nat > r as nat
  {
    hide *;
    if r < 0x1_0000 { CompareLow(val, r); } else { CompareHigh(val, r); }
  }

  lemma Half(r: bv32)
    requires OneBit(r) && r != 1
    ensures OneBit(r >> 1) && r as nat == 2 * (r >> 1) as nat && r >> 1 < r && (r >> 1) as nat > 0
  {
    Cases(r);
  }

  lemma {:induction false} OneBitIsPower(r: bv32)
    requires OneBit(r)
    ensures PowerOfTwo(r as nat)
  {
    if r != 1 { Half(r); OneBitIsPower(r >> 1); }
  }

  lemma MoreThanHalf(val: bv32, r: bv32)
    requires OneBit(r) && r != 1 && val > r >> 1
    ensures r as nat < 2 * (val as nat)
  {
    hide *;
    Half(r);
    var h := r >> 1;
    Compare(val, h);
  }

  lemma BetweenAgrees(val: bv32, r: bv32)
    requires OneBit(r) && r >> 1 < val <= r
    ensures r as nat == RoundUpPower2(val as nat, 1)
  {
    OneBitIsPower(r);
    Compare(val, r);
    if r != 1 { MoreThanHalf(val, r); }
    OnlyPower(val as nat, r as nat);
  }

  /** Smearing the bits of a word is rounding up its number. */
  lemma RoundUpAgrees(val: bv32)
    requires 1 <= val <= 0x8000_0000
    ensures RoundUpBits(val) as nat == RoundUpPower2(val as nat, 1)
  {
    RoundUpBitsIsLeast(val, 1);
    hide *;
    var r := RoundUpBits(val);
    BetweenAgrees(val, r);
  }
}
