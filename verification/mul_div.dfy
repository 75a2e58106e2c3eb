/** The 256-bit multiply-then-divide of src/math.rs and the weighted fee split that needs it. */
module MulDiv {
  import opened Numbers
  import opened ShareMath

  // ------------------------------------------------------------ powers of two

  function Pow2(k: nat): (r: nat)
    ensures r > 0
  {
    if k == 0 then 1 else 2 * Pow2(k - 1)
  }

  lemma DoubleFactor(x: nat, y: nat)
    ensures 2 * x * y == 2 * (x * y)
  {
  }

  lemma {:induction false} Pow2Add(j: nat, k: nat)
    ensures Pow2(j + k) == Pow2(j) * Pow2(k)
    decreases j
  {
    if j > 0 {
      Pow2Add(j - 1, k);
      DoubleFactor(Pow2(j - 1), Pow2(k));
    }
  }

  lemma Pow2Double(k: nat, p: nat)
    requires Pow2(k) == p
    ensures Pow2(2 * k) == p * p
  {
    Pow2Add(k, k);
  }

  lemma Pow2Values()
    ensures Pow2(64) == TWO_64
    ensures Pow2(128) == TWO_128
    ensures Pow2(256) == TWO_128 * TWO_128
  {
    assert Pow2(4) == 16;
    Pow2Double(4, 16);
    Pow2Double(8, 0x100);
    Pow2Double(16, 0x1_0000);
    Pow2Double(32, 0x1_0000_0000);
    Pow2Double(64, TWO_64);
    Pow2Double(128, TWO_128);
  }

  /** Bit i of n. */
  function Bit(n: nat, i: nat): nat {
    n / Pow2(i) % 2
  }

  /** `n | (1 << i)`. */
  function SetBit(n: nat, i: nat): nat {
    if Bit(n, i) == 0 then n + Pow2(i) else n
  }

  lemma Regroup(q: nat, j: nat, k: nat)
    ensures q * k * j == q * (j * k)
  {
  }

  lemma DivDiv(n: nat, j: nat, k: nat)
    requires j > 0 && k > 0
    ensures j * k > 0
    ensures n / (j * k) == n / j / k
  {
    var p := Quotient(n, j);
    var q := Quotient(p, k);
    MulMono(q * k, p, j);
    MulMono(p + 1, (q + 1) * k, j);
    Regroup(q, j, k);
    Regroup(q + 1, j, k);
    DivUnique(n, j * k, q);
  }

  /** Shifting one bit less brings in bit i at the bottom. */
  lemma ShiftStep(n: nat, i: nat)
    ensures n / Pow2(i) == 2 * (n / Pow2(i + 1)) + Bit(n, i)
  {
    DivDiv(n, Pow2(i), 2);
  }

  lemma QuotientSkips(hi: nat, lo: nat, p: nat, k: nat)
    requires lo < p && 0 < k
    ensures p * k > 0
    ensures (hi * p + lo) / (p * k) == hi / k
  {
    Distribute(hi, 1, p);
    DivUnique(hi * p + lo, p, hi);
    DivDiv(hi * p + lo, p, k);
  }

  lemma HighBit(hi: nat, lo: nat, w: nat, k: nat)
    requires lo < Pow2(w)
    ensures Bit(hi * Pow2(w) + lo, w + k) == Bit(hi, k)
  {
    Pow2Add(w, k);
    QuotientSkips(hi, lo, Pow2(w), Pow2(k));
  }

  lemma EvenMultiple(hi: nat, p: nat, h: nat)
    ensures hi * (p * (2 * h)) == 2 * (hi * h) * p
  {
    assert hi * (p * (2 * h)) == hi * (2 * h) * p;
  }

  lemma DivOfSum(e: nat, n: nat, p: nat)
    requires p > 0
    ensures (e * p + n) / p == e + n / p
  {
    var q := Quotient(n, p);
    Distribute(e, q, p);
    Distribute(e, q + 1, p);
    DivUnique(e * p + n, p, e + q);
  }

  lemma EvenPlus(e: nat, x: nat)
    ensures (2 * e + x) % 2 == x % 2
  {
  }

  lemma EvenPrefix(m: nat, n: nat, p: nat)
    requires p > 0
    ensures (2 * m * p + n) / p % 2 == n / p % 2
  {
    DivOfSum(2 * m, n, p);
    EvenPlus(m, n / p);
  }

  lemma LowBit(hi: nat, lo: nat, w: nat, i: nat)
    requires i < w
    ensures Bit(hi * Pow2(w) + lo, i) == Bit(lo, i)
  {
    var p, h := Pow2(i), Pow2(w - i - 1);
    Pow2Add(i, w - i);
    EvenMultiple(hi, p, h);
    EvenPrefix(hi * h, lo, p);
  }

  /** Low bits of hi * 2^w + lo come from lo, the others from hi. */
  lemma BitOfSum(hi: nat, lo: nat, w: nat, i: nat)
    requires lo < Pow2(w)
    ensures Bit(hi * Pow2(w) + lo, i) == if i >= w then Bit(hi, i - w) else Bit(lo, i)
  {
    if i >= w {
      HighBit(hi, lo, w, i - w);
    } else {
      LowBit(hi, lo, w, i);
    }
  }

  /** A multiple of 2^(i+1) has bit i clear, so `|` adds it. */
  lemma SetBitAdds(m: nat, i: nat)
    ensures SetBit(m * Pow2(i + 1), i) == m * Pow2(i + 1) + Pow2(i)
  {
    DivUnique(m * Pow2(i + 1), Pow2(i), 2 * m);
  }

  // ----------------------------------------------------------- mul_div_floor

  lemma LimbProduct(x: nat, y: nat, w: nat)
    requires x < w && y < w
    ensures x * y <= (w - 1) * (w - 1)
  {
    MulMono(x, w - 1, y);
    MulMono(y, w - 1, w - 1);
  }

  /** Schoolbook product of two-limb numbers in base w, with the cross terms summed. */
  lemma LimbSum(a0: nat, a1: nat, b0: nat, b1: nat, w: nat, cross: nat)
    requires cross == a0 * b1 + a1 * b0
    ensures (a1 * w + a0) * (b1 * w + b0) == a1 * b1 * (w * w) + cross * w + a0 * b0
  {
    calc {
      (a1 * w + a0) * (b1 * w + b0);
    ==
      a1 * w * (b1 * w) + a1 * w * b0 + a0 * (b1 * w) + a0 * b0;
    == { assert a1 * w * (b1 * w) == a1 * b1 * (w * w); }
      a1 * b1 * (w * w) + a1 * b0 * w + a0 * b1 * w + a0 * b0;
    ==
      a1 * b1 * (w * w) + cross * w + a0 * b0;
    }
  }

  lemma MulBelow(a: u128, b: u128)
    ensures a * b < TWO_128 * TWO_128
  {
    MulMono(a, TWO_128 - 1, b);
    MulMono(b, TWO_128 - 1, TWO_128 - 1);
  }

  /** Full 256-bit product by 64-bit limbs: hi * 2^128 + lo == a * b, no intermediate overflows. */
  method WideMul(a: u128, b: u128) returns (hi: u128, lo: u128)
    ensures hi * TWO_128 + lo == a * b
  {
    var a0, a1 := a % TWO_64, a / TWO_64;
    var b0, b1 := b % TWO_64, b / TWO_64;
    LimbProduct(a0, b0, TWO_64);
    LimbProduct(a0, b1, TWO_64);
    LimbProduct(a1, b0, TWO_64);
    LimbProduct(a1, b1, TWO_64);
    var m0: u128, m1: u128, m2: u128, m3: u128 := a0 * b0, a0 * b1, a1 * b0, a1 * b1;
    var mid: u128, midCarry := (m1 + m2) % TWO_128, (m1 + m2) / TWO_128;
    var midLow: u128 := mid % TWO_64 * TWO_64;
    var c1 := (m0 + midLow) / TWO_128;
    lo := (m0 + midLow) % TWO_128;
    LimbSum(a0, a1, b0, b1, TWO_64, m1 + m2);
    assert (m3 + mid / TWO_64 + midCarry * TWO_64 + c1) * TWO_128 + lo == a * b;
    MulBelow(a, b);
    hi := m3 + mid / TWO_64 + midCarry * TWO_64 + c1;
  }

  /** What the division loop keeps once the bits of `n` above i are consumed: the prefix
      is q * d + rem with a proper remainder, and `quo` holds the low 128 bits of q,
      already placed at bit i (`over` is the part of q that does not fit). */
  ghost predicate DivisionState(n: nat, d: nat, i: nat, rem: nat, quo: nat, q: nat, over: nat, low: nat)
    requires d > 0
  {
    && n / Pow2(i) == q * d + rem
    && rem < d
    && quo == low * Pow2(i)
    && (if i >= 128 then low == 0 else q == over * Pow2(128 - i) + low && low < Pow2(128 - i))
  }

  lemma RemainderStep(p: nat, q: nat, d: nat, rem: nat, bit: nat)
    requires p == q * d + rem
    ensures 2 * p + bit == 2 * q * d + (2 * rem + bit)
    ensures 2 * p + bit == (2 * q + 1) * d + (2 * rem + bit - d)
  {
    Distribute(2 * q, 1, d);
  }

  lemma PlaceBit(low: nat, i: nat)
    ensures low * Pow2(i + 1) == 2 * low * Pow2(i)
    ensures (2 * low + 1) * Pow2(i) == low * Pow2(i + 1) + Pow2(i)
  {
    Distribute(2 * low, 1, Pow2(i));
  }

  lemma AppendBit(q: nat, over: nat, low: nat, h: nat)
    requires q == over * h + low && low < h
    ensures 2 * q == over * (2 * h) + 2 * low
    ensures 2 * low + 1 < 2 * h
  {
  }

  lemma DivisionStep(n: nat, d: nat, i: nat, rem: nat, quo: nat, q: nat, over: nat, low: nat)
    requires d > 0
    requires DivisionState(n, d, i + 1, rem, quo, q, over, low)
    ensures var r := 2 * rem + Bit(n, i);
            var over' := if i == 127 then q else over;
            if r >= d
            then DivisionState(n, d, i, r - d, if i < 128 then SetBit(quo, i) else quo,
                               2 * q + 1, over', if i < 128 then 2 * low + 1 else low)
            else DivisionState(n, d, i, r, quo, 2 * q, over', 2 * low)
  {
    ShiftStep(n, i);
    RemainderStep(n / Pow2(i + 1), q, d, rem, Bit(n, i));
    SetBitAdds(low, i);
    PlaceBit(low, i);
    if i < 127 {
      AppendBit(q, over, low, Pow2(127 - i));
    } else if i == 127 {
      assert Pow2(0) == 1 && Pow2(1) == 2;
    }
  }

  /** floor(f * p / w). */
  function Share(f: nat, p: nat, w: nat): nat
    requires w > 0
  {
    f * p / w
  }

  lemma ModSmall(x: nat, m: nat)
    requires x < m
    ensures x % m == x
  {
  }

  lemma TimesPositive(q: nat, d: nat)
    requires d > 0
    ensures q <= q * d
  {
    MulMono(1, d, q);
  }

  lemma DivisionStart(hi: u128, lo: u128, d: nat)
    requires d > 0
    ensures DivisionState(hi * TWO_128 + lo, d, 256, 0, 0, 0, 0, 0)
  {
    Pow2Values();
    MulMono(hi, TWO_128 - 1, TWO_128);
    DivUnique(hi * TWO_128 + lo, TWO_128 * TWO_128, 0);
  }

  lemma BitOfHalves(hi: u128, lo: u128, i: nat)
    ensures Bit(hi * TWO_128 + lo, i) == if i >= 128 then Bit(hi, i - 128) else Bit(lo, i)
  {
    Pow2Values();
    BitOfSum(hi, lo, 128, i);
  }

  lemma ModWrap(x: nat, m: nat)
    requires x < m
    ensures (x + m) % m == x
  {
  }

  lemma ModUnwrap(x: nat, m: nat)
    requires x < m
    ensures (x - m) % m == x
  {
  }

  /** A remainder below d, shifted left by one with the new bit, in a word of 2 * h: the
      bit shifted out restores the true value, and one wrapping subtraction of d reduces it. */
  lemma ShiftOut(rem: nat, bit: nat, d: nat, h: nat)
    requires rem < d <= 2 * h && bit < 2
    ensures var top, word := rem / h, rem * 2 % (2 * h) + bit;
            && top < 2 && word < 2 * h
            && (top == 1 || word >= d <==> 2 * rem + bit >= d)
            && (2 * rem + bit >= d ==> (word - d) % (2 * h) == 2 * rem + bit - d)
            && (2 * rem + bit < d ==> word == 2 * rem + bit)
  {
    if rem < h {
      DivUnique(rem, h, 0);
      ModSmall(rem * 2, 2 * h);
    } else {
      DivUnique(rem, h, 1);
      DivUnique(rem * 2, 2 * h, 1);
      ModWrap(rem * 2 - 2 * h, 2 * h);
      if rem * 2 + bit - 2 * h < d {
        ModUnwrap(rem * 2 + bit - d, 2 * h);
      }
    }
    if 2 * rem + bit >= d {
      ModSmall(2 * rem + bit - d, 2 * h);
    }
  }

  lemma PlacedFits(n: nat, d: nat, i: nat, rem: nat, quo: nat, q: nat, over: nat, low: nat)
    requires d > 0 && i < 128
    requires DivisionState(n, d, i, rem, quo, q, over, low)
    ensures quo < TWO_128
  {
    Pow2Values();
    Pow2Add(128 - i, i);
    MulMono(low + 1, Pow2(128 - i), Pow2(i));
    Distribute(low, 1, Pow2(i));
  }

  /** One iteration in the machine's own terms. */
  lemma LoopStep(hi: u128, lo: u128, d: u128, i: nat, rem: u128, quo: u128, q: nat, over: nat, low: nat)
    requires d > 0 && i < 256
    requires DivisionState(hi * TWO_128 + lo, d, i + 1, rem, quo, q, over, low)
    ensures var n, bit := hi * TWO_128 + lo, if i >= 128 then Bit(hi, i - 128) else Bit(lo, i);
            var top, word, over' := rem / (TWO_128 / 2), rem * 2 % TWO_128 + bit, if i == 127 then q else over;
            && 0 <= word < TWO_128
            && (if top == 1 || word >= d
                then if i < 128
                     then SetBit(quo, i) < TWO_128 &&
                          DivisionState(n, d, i, (word - d) % TWO_128, SetBit(quo, i), 2 * q + 1, over', 2 * low + 1)
                     else DivisionState(n, d, i, (word - d) % TWO_128, quo, 2 * q + 1, over', low)
                else DivisionState(n, d, i, word, quo, 2 * q, over', 2 * low))
  {
    var n, over' := hi * TWO_128 + lo, if i == 127 then q else over;
    BitOfHalves(hi, lo, i);
    ShiftOut(rem, Bit(n, i), d, TWO_128 / 2);
    DivisionStep(n, d, i, rem, quo, q, over, low);
    if 2 * rem + Bit(n, i) >= d && i < 128 {
      PlacedFits(n, d, i, 2 * rem + Bit(n, i) - d, SetBit(quo, i), 2 * q + 1, over', 2 * low + 1);
    }
  }

  lemma DivisionEnd(n: nat, d: nat, rem: nat, quo: nat, q: nat, over: nat, low: nat)
    requires d > 0
    requires DivisionState(n, d, 0, rem, quo, q, over, low)
    ensures quo == n / d % TWO_128
  {
    Pow2Values();
    assert Pow2(0) == 1;
    Distribute(q, 1, d);
    DivUnique(n, d, q);
    Distribute(over, 1, TWO_128);
    DivUnique(q, TWO_128, over);
  }

  /** Shift-subtract division of the 256-bit (hi:lo), one bit at a time. */
  method LongDivide(hi: u128, lo: u128, d: u128) returns (quo: u128)
    requires d != 0
    ensures quo == (hi * TWO_128 + lo) / d % TWO_128
  {
    ghost var n := hi * TWO_128 + lo;
    ghost var q: nat, over: nat, low: nat := 0, 0, 0;
    var rem: u128 := 0;
    quo := 0;
    var i := 256;
    DivisionStart(hi, lo, d);
    while i > 0
      invariant 0 <= i <= 256
      invariant DivisionState(n, d, i, rem, quo, q, over, low)
    {
      i := i - 1;
      var bit := if i >= 128 then Bit(hi, i - 128) else Bit(lo, i);
      LoopStep(hi, lo, d, i, rem, quo, q, over, low);
      over := if i == 127 then q else over;
      var remTop := rem / (TWO_128 / 2);
      var shifted: u128 := rem * 2 % TWO_128 + bit;
      if remTop == 1 || shifted >= d {
        rem := (shifted - d) % TWO_128;
        q := 2 * q + 1;
        if i < 128 {
          low := 2 * low + 1;
          quo := SetBit(quo, i);
        }
      } else {
        rem := shifted;
        q, low := 2 * q, 2 * low;
      }
    }
    DivisionEnd(n, d, rem, quo, q, over, low);
  }

  /** Exact for every operand: floor(a * b / d) when that fits 128 bits, else its low 128 bits. */
  method MulDivFloor(a: u128, b: u128, d: u128) returns (quo: u128)
    requires d != 0
    ensures quo == Share(a, b, d) % TWO_128
    ensures Share(a, b, d) < TWO_128 ==> quo == Share(a, b, d)
  {
    ghost var exact := Quotient(a * b, d);
    if exact < TWO_128 {
      ModSmall(exact, TWO_128);
    }
    if a * b < TWO_128 {
      TimesPositive(exact, d);
      quo := a * b / d;
    } else {
      var hi, lo := WideMul(a, b);
      quo := LongDivide(hi, lo, d);
    }
  }

  lemma QuotientSmaller(n: nat, d: nat)
    requires d > 0
    ensures n / d <= n
  {
    var q := Quotient(n, d);
    TimesPositive(q, d);
  }

  // --------------------------------------------------------- distribute_fees

  /** Junior's share of a fee: floor(fee * jw / (jw + sw)), with junior weighted by its
      multiplier and senior by 10000; nothing when there is no weight. */
  function JuniorFee(junior: nat, senior: nat, mult: nat, fee: nat): nat {
    var jw, sw := junior * mult, senior * 10_000;
    if jw + sw == 0 then 0 else Share(fee, jw, jw + sw)
  }

  lemma ShareAtMostWhole(fee: nat, part: nat, whole: nat)
    requires part <= whole && whole > 0
    ensures Share(fee, part, whole) <= fee
  {
    var q := Quotient(fee * part, whole);
    MulMono(part, whole, fee);
    MulCancel(q, fee, whole);
  }

  /** Junior's fee is the largest number n with n * (total weight) <= fee * (junior weight); with no
      weight at all it is zero. */
  lemma JuniorFeeExact(junior: nat, senior: nat, mult: nat, fee: nat)
    ensures var n := JuniorFee(junior, senior, mult, fee);
            var jw, tw := junior * mult, junior * mult + senior * 10_000;
            && (tw > 0 ==> n * tw <= fee * jw < (n + 1) * tw)
            && (tw == 0 ==> n == 0)
  {
    var jw, tw := junior * mult, junior * mult + senior * 10_000;
    if tw > 0 {
      var n := Quotient(fee * jw, tw);
    }
  }

  lemma JuniorFeeAtMostFee(junior: nat, senior: nat, mult: nat, fee: nat)
    ensures JuniorFee(junior, senior, mult, fee) <= fee
  {
    var jw, sw := junior * mult, senior * 10_000;
    if jw + sw != 0 {
      ShareAtMostWhole(fee, jw, jw + sw);
    }
  }

  lemma WeightBound(x: u64, m: u16)
    ensures 0 <= x * m < TWO_64 * 0x1_0000
  {
    MulMono(x, U64_MAX, m);
    assert U64_MAX * m <= U64_MAX * 0xFFFF;
  }

  /** floor(f * p / w) == (f / w) * p + floor((f % w) * p / w). */
  lemma SplitShare(f: nat, p: nat, w: nat)
    requires w > 0
    ensures f * p / w == f / w * p + f % w * p / w
  {
    var q, r := f / w, f % w;
    assert f == q * w + r;
    Distribute(q * w, r, p);
    assert q * w * p == q * p * w;
    DivOfSum(q * p, r * p, w);
  }

  /** Both parts of the split stay within the fee, so neither overflows. */
  method QuotientAndRest(fee: u64, jw: u128, tw: u128) returns (q: u128, r: u128)
    requires jw <= tw && 0 < tw
    ensures q == fee / tw && r == fee % tw
    ensures 0 <= q * jw
    ensures q * jw + Share(r, jw, tw) == Share(fee, jw, tw) <= fee
  {
    QuotientSmaller(fee, tw);
    q, r := fee / tw, fee % tw;
    SplitShare(fee, jw, tw);
    ShareAtMostWhole(fee, jw, tw);
  }

  /** floor(fee * jw / tw): directly when the product fits, else by splitting the fee into
      quotient and remainder of the total weight. */
  method WeightedShare(fee: u64, jw: u128, tw: u128) returns (share: u128)
    requires jw <= tw && 0 < tw
    ensures share == Share(fee, jw, tw) <= fee
  {
    hide Share;
    ShareAtMostWhole(fee, jw, tw);
    if fee * jw < TWO_128 {
      share := Share(fee, jw, tw);
    } else {
      var q, r := QuotientAndRest(fee, jw, tw);
      var part1: u128 := q * jw;
      var part2 := MulDivFloor(r, jw, tw);
      share := part1 + part2;
    }
  }

  /** The exact split on the whole u64 range, on the fast and on the overflow path; the
      fee is conserved to the unit whenever there is any weight. */
  method DistributeFees(junior: u64, senior: u64, mult: u16, fee: u64) returns (juniorFee: u64, seniorFee: u64)
    ensures juniorFee == JuniorFee(junior, senior, mult, fee)
    ensures var jw, tw := junior * mult, junior * mult + senior * 10_000;
            tw > 0 ==> juniorFee * tw <= fee * jw < (juniorFee + 1) * tw
    ensures junior * mult + senior * 10_000 > 0 ==> juniorFee + seniorFee == fee
    ensures junior * mult + senior * 10_000 == 0 ==> juniorFee == 0 && seniorFee == 0
  {
    JuniorFeeAtMostFee(junior, senior, mult, fee);
    JuniorFeeExact(junior, senior, mult, fee);
    if fee == 0 {
      return 0, 0;
    }
    var totalBalance: u128 := junior + senior;
    if totalBalance == 0 {
      return 0, 0;
    }
    WeightBound(junior, mult);
    WeightBound(senior, 10_000);
    var jw: u128 := junior * mult;
    var sw: u128 := senior * 10_000;
    var tw: u128 := jw + sw;
    if tw == 0 {
      return 0, 0;
    }
    var juniorFeeWide := WeightedShare(fee, jw, tw);
    juniorFee := Min(juniorFeeWide, fee);
    seniorFee := SaturatingSub(fee, juniorFee);
  }
}
