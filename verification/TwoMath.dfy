/**
 Power-of-two arithmetic on 32-bit unsigned words (pine/twomath.hpp).

 Words are natural numbers below `WORD`; every place where the C++ arithmetic can
 wrap is written out with `% WORD`.  Bitwise `&` and `~` are defined bit by bit, so
 that the masking tricks of the source can be proved equal to the arithmetic they
 stand for.
 */
module TwoMath {

  const WORD: nat := 0x1_0000_0000

  function Pow2(n: nat): (p: nat)
    ensures p >= 1
  {
    if n == 0 then 1 else 2 * Pow2(n - 1)
  }

  lemma {:induction false} Pow2Monotone(m: nat, n: nat)
    requires m <= n
    ensures Pow2(m) <= Pow2(n)
    decreases n
  {
    if m < n {
      Pow2Monotone(m, n - 1);
    }
  }

  lemma Pow2Strict(m: nat, n: nat)
    requires m < n
    ensures 2 * Pow2(m) <= Pow2(n)
  {
    Pow2Monotone(m + 1, n);
  }

  lemma Pow2Values()
    ensures Pow2(8) == 256 && Pow2(10) == 1024 && Pow2(12) == 4096
    ensures Pow2(14) == 0x4000 && Pow2(17) == 0x2_0000 && Pow2(18) == 0x4_0000
    ensures Pow2(20) == 0x10_0000 && Pow2(22) == 0x40_0000
    ensures Pow2(31) == 0x8000_0000 && Pow2(32) == WORD
  {
    assert Pow2(4) == 16;
    assert Pow2(8) == 256;
    assert Pow2(10) == 1024;
    assert Pow2(12) == 4096;
    assert Pow2(14) == 0x4000;
    assert Pow2(17) == 0x2_0000;
    assert Pow2(20) == 0x10_0000;
    assert Pow2(22) == 0x40_0000;
    assert Pow2(26) == 0x400_0000;
    assert Pow2(30) == 0x4000_0000;
    assert Pow2(32) == WORD;
  }

  // ---------------------------------------------------------------- division

  lemma MulDistributes(a: int, b: int, m: int)
    ensures (a - b) * m == a * m - b * m && (a + b) * m == a * m + b * m
  {
  }

  lemma MulAtLeast(a: int, m: int)
    requires a >= 1 && m > 0
    ensures a * m >= m
  {
  }

  /** Quotient and remainder are the only pair that divides. */
  lemma DivModUnique(x: int, m: int, q: int, r: int)
    requires m > 0 && 0 <= r < m && x == q * m + r
    ensures x / m == q && x % m == r
  {
    var p := x / m;
    MulDistributes(q, p, m);
    if q > p {
      MulAtLeast(q - p, m);
    } else if q < p {
      MulDistributes(p, q, m);
      MulAtLeast(p - q, m);
    }
  }

  lemma MultipleHasNoRemainder(q: int, m: int)
    requires m > 0
    ensures (q * m) % m == 0 && (q * m) / m == q
  {
    DivModUnique(q * m, m, q, 0);
  }

  /** Multiples of m stay multiples when added. */
  lemma SumOfMultiples(x: int, y: int, m: int)
    requires m > 0 && x % m == 0 && y % m == 0
    ensures (x + y) % m == 0 && (x - y) % m == 0
  {
    var a, b := x / m, y / m;
    assert x == a * m && y == b * m;
    assert x + y == (a + b) * m && x - y == (a - b) * m;
    MultipleHasNoRemainder(a + b, m);
    MultipleHasNoRemainder(a - b, m);
  }

  /** A multiple of 2m is a multiple of m. */
  lemma EvenMultiple(x: int, m: int)
    requires m > 0 && x % (2 * m) == 0
    ensures x % m == 0
  {
    var a := x / (2 * m);
    assert x == (2 * a) * m;
    MultipleHasNoRemainder(2 * a, m);
  }

  /** A multiple of a larger power of two is a multiple of each smaller one. */
  lemma {:induction false} Pow2Divides(x: nat, m: nat, n: nat)
    requires m <= n && x % Pow2(n) == 0
    ensures x % Pow2(m) == 0
    decreases n
  {
    if m < n {
      EvenMultiple(x, Pow2(n - 1));
      Pow2Divides(x, m, n - 1);
    }
  }

  /** Two different multiples of m are at least m apart. */
  lemma MultiplesApart(x: int, y: int, m: int)
    requires m > 0 && x % m == 0 && y % m == 0 && x < y
    ensures x + m <= y
  {
    var a, b := x / m, y / m;
    assert x == a * m && y == b * m;
    MulDistributes(b, a, m);
    if b - a >= 1 {
      MulAtLeast(b - a, m);
    } else if a - b >= 1 {
      MulDistributes(a, b, m);
      MulAtLeast(a - b, m);
    }
  }

  /** The remainder by 2m, bit by bit. */
  lemma ModDouble(v: nat, m: nat)
    requires m > 0
    ensures v % (2 * m) == 2 * (v / 2 % m) + v % 2
  {
    var q, r := v / 2 / m, v / 2 % m;
    assert v / 2 == q * m + r;
    assert v == q * (2 * m) + (2 * r + v % 2);
    DivModUnique(v, 2 * m, q, 2 * r + v % 2);
  }

  // --------------------------------------------------------------- bit width

  /** Number of bits up to and including the highest set bit. */
  function BitWidth(value: nat): nat {
    if value == 0 then 0 else 1 + BitWidth(value / 2)
  }

  /** The counting loop of the source. */
  method ComputeBitWidth(value: nat) returns (width: nat)
    ensures width == BitWidth(value)
  {
    var v := value;
    width := 0;
    var count := 1;
    while v != 0
      invariant count >= 1
      invariant v != 0 ==> BitWidth(value) == count - 1 + BitWidth(v)
      invariant v == 0 ==> BitWidth(value) == width
    {
      if v % 2 == 1 {
        width := count;
      }
      count := count + 1;
      v := v / 2;
    }
  }

  /** bit_width is the exponent of the least power of two above the value. */
  lemma {:induction false} BitWidthBounds(value: nat)
    requires value > 0
    ensures BitWidth(value) >= 1
    ensures Pow2(BitWidth(value) - 1) <= value < Pow2(BitWidth(value))
  {
    if value > 1 {
      BitWidthBounds(value / 2);
    }
  }

  lemma BitWidthUnique(value: nat, w: nat)
    requires Pow2(w) <= value < Pow2(w + 1)
    ensures BitWidth(value) == w + 1
  {
    BitWidthBounds(value);
    var b := BitWidth(value);
    if b < w + 1 {
      Pow2Monotone(b, w);
    } else if b > w + 1 {
      Pow2Monotone(w + 1, b - 1);
    }
  }

  // ----------------------------------------------------------------- masking

  /** Bitwise and. */
  function And(x: nat, y: nat): nat {
    if x == 0 || y == 0 then 0 else 2 * And(x / 2, y / 2) + (x % 2) * (y % 2)
  }

  /** 32-bit bitwise complement. */
  function Not(x: nat): nat
    requires x < WORD
  {
    WORD - 1 - x
  }

  lemma {:induction false} AndAllOnes(v: nat, w: nat)
    requires v < Pow2(w)
    ensures And(v, Pow2(w) - 1) == v
  {
    if v > 0 {
      assert w > 0;
      AndAllOnes(v / 2, w - 1);
      assert (Pow2(w) - 1) / 2 == Pow2(w - 1) - 1;
    }
  }

  lemma AndZero(v: nat)
    ensures And(v, 0) == 0
  {
  }

  /** An even mask drops the lowest bit. */
  lemma AndEven(v: nat, half: nat)
    ensures And(v, 2 * half) == 2 * And(v / 2, half)
  {
    if v > 0 && half > 0 {
      assert 2 * half / 2 == half && 2 * half % 2 == 0;
    }
  }

  /** Masking off the low k bits drops exactly the remainder by 2^k. */
  lemma {:induction false} AndHighMask(v: nat, k: nat, w: nat)
    requires k <= w && v < Pow2(w)
    ensures Pow2(k) <= Pow2(w)
    ensures And(v, Pow2(w) - Pow2(k)) == v - v % Pow2(k)
    decreases w
  {
    hide And;
    Pow2Monotone(k, w);
    if k == 0 {
      AndAllOnes(v, w);
    } else if k == w {
      DivModUnique(v, Pow2(k), 0, v);
      AndZero(v);
    } else {
      AndHighMask(v / 2, k - 1, w - 1);
      ModDouble(v, Pow2(k - 1));
      AndEven(v, Pow2(w - 1) - Pow2(k - 1));
    }
  }

  function AlignDownTwo(value: nat, alignment: nat): nat
    requires value < WORD && alignment < WORD
  {
    if value == 0 || alignment == 0 then 0 else And(value, Not(alignment - 1))
  }

  function AlignUpTwo(value: nat, alignment: nat): nat
    requires value < WORD && alignment < WORD
  {
    if value == 0 then alignment
    else if alignment == 0 then value
    else And((value + (alignment - 1)) % WORD, Not(alignment - 1))
  }

  lemma MaskFloors(value: nat, k: nat)
    requires value < WORD && k < 32
    ensures Pow2(k) < WORD
    ensures And(value, Not(Pow2(k) - 1)) == value - value % Pow2(k)
  {
    assert Pow2(32) == WORD by { Pow2Values(); }
    Pow2Strict(k, 32);
    AndHighMask(value, k, 32);
    assert Not(Pow2(k) - 1) == Pow2(32) - Pow2(k);
  }

  /** align_down_two is rounding down to a multiple. */
  lemma AlignDownTwoFloors(value: nat, k: nat)
    requires value < WORD && k < 32
    ensures Pow2(k) < WORD
    ensures AlignDownTwo(value, Pow2(k)) == value - value % Pow2(k)
  {
    MaskFloors(value, k);
    DivModUnique(0, Pow2(k), 0, 0);
  }

  /** What align_up_two promises for a value and a power-of-two alignment. */
  ghost predicate RoundsUp(value: nat, a: nat, r: nat)
    requires a > 0
  {
    && (value == 0 ==> r == a)
    && (0 < value && value + (a - 1) < WORD ==> r % a == 0 && value <= r < value + a)
    && (value + (a - 1) >= WORD ==> r == 0)
    && (r >= value <==> value + (a - 1) < WORD)
  }

  /**
   align_up_two rounds a nonzero value up to the next multiple exactly when the
   rounding addition does not wrap; when it wraps the result is 0.  A zero value is
   rounded up to the alignment itself, not to zero.
   */
  lemma AlignUpTwoCeils(value: nat, k: nat)
    requires value < WORD && k < 32
    ensures Pow2(k) < WORD
    ensures RoundsUp(value, Pow2(k), AlignUpTwo(value, Pow2(k)))
  {
    MaskFloors(0, k);
    if value > 0 {
      var sum := (value + (Pow2(k) - 1)) % WORD;
      MaskFloors(sum, k);
      FloorOfSum(value, Pow2(k), AlignUpTwo(value, Pow2(k)));
    }
  }

  lemma FloorOfSum(value: nat, a: nat, r: nat)
    requires 0 < value < WORD && 0 < a < WORD
    requires var sum := (value + (a - 1)) % WORD; r == sum - sum % a
    ensures RoundsUp(value, a, r)
  {
    var sum := (value + (a - 1)) % WORD;
    FloorIsMultiple(sum, a);
    if value + (a - 1) >= WORD {
      DivModUnique(sum, a, 0, sum);
    }
  }

  lemma FloorIsMultiple(x: nat, m: nat)
    requires m > 0
    ensures (x - x % m) % m == 0 && x - m < x - x % m <= x
  {
    MultipleHasNoRemainder(x / m, m);
    assert x - x % m == (x / m) * m;
  }

  lemma RemainderAtMost(x: nat, m: nat)
    requires m > 0
    ensures x % m <= x
  {
    if x < m {
      DivModUnique(x, m, 0, x);
    }
  }

  function AlignDownToPower(value: nat): nat {
    if value == 0 then 0 else Pow2(BitWidth(value) - 1)
  }

  function AlignUpToPower(value: nat): nat {
    if value == 0 then 1
    else
      var down := AlignDownToPower(value);
      if down == value then value else down * 2 % WORD
  }

  /** align_down_to_power is the greatest power of two not above a nonzero value. */
  lemma AlignDownToPowerIsGreatest(value: nat, k: nat)
    requires value > 0
    ensures AlignDownToPower(value) <= value
    ensures Pow2(k) <= value ==> Pow2(k) <= AlignDownToPower(value)
  {
    BitWidthBounds(value);
    var w := BitWidth(value);
    if Pow2(k) <= value && k > w - 1 {
      Pow2Monotone(w, k);
    } else if k <= w - 1 {
      Pow2Monotone(k, w - 1);
    }
  }

  /** The exponent of the least power of two that is at least the value. */
  function CeilLog(value: nat): (k: nat)
  {
    if value <= 1 then 0 else BitWidth(value - 1)
  }

  lemma CeilLogIsLeast(value: nat, k: nat)
    ensures value <= Pow2(CeilLog(value))
    ensures value <= Pow2(k) <==> CeilLog(value) <= k
  {
    if value > 1 {
      BitWidthBounds(value - 1);
      var c := CeilLog(value);
      if k < c {
        Pow2Monotone(k, c - 1);
      } else {
        Pow2Monotone(c, k);
      }
    }
  }

  /**
   align_up_to_power gives the least power of two that is at least the value
   exactly for values up to 2^31; above that the shift drops the only set bit.
   */
  lemma AlignUpToPowerIsLeast(value: nat)
    requires value < WORD
    ensures AlignUpToPower(value) == Pow2(CeilLog(value)) <==> value <= 0x8000_0000
    ensures value > 0x8000_0000 ==> AlignUpToPower(value) == 0
  {
    if value > 0 {
      BitWidthBounds(value);
      var w := BitWidth(value);
      CeilLogBetween(value, w);
      WidthOfWord(value);
    }
  }

  lemma CeilLogBetween(value: nat, w: nat)
    requires w >= 1 && Pow2(w - 1) <= value < Pow2(w)
    ensures CeilLog(value) == if value == Pow2(w - 1) then w - 1 else w
  {
    var c := CeilLog(value);
    CeilLogIsLeast(value, w - 1);
    CeilLogIsLeast(value, w);
    if c < w - 1 {
      Pow2Strict(c, w - 1);
    }
  }

  lemma WidthOfWord(value: nat)
    requires 0 < value < WORD
    ensures var w := BitWidth(value);
            && 1 <= w <= 32
            && (w == 32 ==> Pow2(w - 1) == 0x8000_0000)
            && (w < 32 ==> 2 * Pow2(w - 1) <= 0x8000_0000)
  {
    assert Pow2(31) == 0x8000_0000 by { Pow2Values(); }
    BitWidthBounds(value);
    var w := BitWidth(value);
    if w > 32 {
      Pow2Monotone(32, w - 1);
    } else if w < 32 {
      Pow2Monotone(w, 31);
    }
  }
}
