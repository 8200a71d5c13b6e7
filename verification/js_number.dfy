/**
 JavaScript numbers are IEEE 754 doubles. Unary `+` on the decimal text of
 an integer yields the double nearest that integer: magnitudes up to 2^53
 come through exactly, larger ones are rounded to the nearest double (a tie
 going to the even significand), and a magnitude that rounds to 2^1024 or
 beyond becomes an infinity of the same sign.
 */
module JsNumber {
  import opened JsValues

  /** 2^53: a double's significand has 53 bits. */
  const SignificandBound: nat := 0x20_0000_0000_0000

  /** 2^1024, the first power of two beyond the largest finite double. */
  const OverflowBound: nat := 0x1_0000000000000000_0000000000000000_0000000000000000_0000000000000000_0000000000000000_0000000000000000_0000000000000000_0000000000000000_0000000000000000_0000000000000000_0000000000000000_0000000000000000_0000000000000000_0000000000000000_0000000000000000_0000000000000000

  function Abs(i: int): nat {
    if i < 0 then -i else i
  }

  function Pow2(e: nat): (p: nat)
    ensures p > 0
  {
    if e == 0 then 1 else 2 * Pow2(e - 1)
  }

  /** `q` scaled by `2^e`. */
  function Scaled(q: nat, e: nat): nat {
    q * Pow2(e)
  }

  /** The non-negative integers a double holds, before the exponent range is
      taken into account: a significand below 2^53 scaled by a power of two. */
  ghost predicate IsDouble(m: nat) {
    exists q: nat, e: nat :: q < Pow2(53) && m == Scaled(q, e)
  }

  /** The binade of `n`: the least `e` with `n < 2^53 * 2^e`. From `2^52 * 2^e`
      up to `2^53 * 2^e` the doubles are exactly the multiples of `2^e`. */
  function Binade(n: nat): (e: nat)
    ensures n < Pow2(53 + e)
    ensures e > 0 ==> Pow2(52 + e) <= n
    decreases n
  {
    if n < Pow2(53) then 0
    else
      var e := Binade(n / 2);
      assert Pow2(53 + e + 1) == 2 * Pow2(53 + e);
      1 + e
  }

  /** The multiple of `s` nearest `n`, given by its quotient; a tie goes to
      the even quotient. */
  function RoundedQuotient(n: nat, s: nat): nat
    requires s > 0
  {
    var q := n / s;
    var r := n % s;
    if 2 * r < s || (2 * r == s && q % 2 == 0) then q else q + 1
  }

  /** The double nearest `n`, with an unbounded exponent. */
  function NearestDouble(n: nat): nat {
    Scaled(RoundedQuotient(n, Pow2(Binade(n))), Binade(n))
  }

  /** The number unary `+` yields for the decimal text of `i`. */
  function NumberValue(i: int): (r: Value)
    ensures r.Int? || r.Infinity?
    ensures r.Int? ==> Abs(r.i) < OverflowBound && (r.i < 0 ==> i < 0) && (i < 0 ==> r.i <= 0)
    ensures r.Infinity? ==> r.negative == (i < 0) && Abs(i) >= OverflowBound / 2
  {
    var m := NearestDouble(Abs(i));
    NearestDoubleBelowTwice(Abs(i));
    if m >= OverflowBound then Infinity(i < 0)
    else
      var v: int := if i < 0 then 0 - m else m;
      Int(v)
  }

  lemma {:induction false} Pow2Add(a: nat, b: nat)
    ensures Pow2(a + b) == Pow2(a) * Pow2(b)
    decreases a
  {
    if a > 0 {
      Pow2Add(a - 1, b);
      MulSucc(Pow2(a - 1), Pow2(b));
    }
  }

  lemma {:induction false} Pow2Monotone(a: nat, b: nat)
    requires a <= b
    ensures Pow2(a) <= Pow2(b)
    decreases b
  {
    if a < b {
      Pow2Monotone(a, b - 1);
    }
  }

  lemma MulMonotone(a: nat, b: nat, s: nat)
    requires a <= b
    ensures a * s <= b * s
  {
  }

  lemma MulSucc(a: nat, s: nat)
    ensures (a + 1) * s == a * s + s
    ensures 2 * a * s == a * (2 * s)
  {
  }

  /** Rounding moves `n` by at most half of `s`. */
  lemma RoundedQuotientClose(n: nat, s: nat)
    requires s > 0
    ensures 2 * Abs(RoundedQuotient(n, s) * s - n) <= s
  {
    var q := n / s;
    assert n == q * s + n % s;
    MulSucc(q, s);
  }

  /** No multiple of `s` is nearer `n` than the rounded one, and one as near
      is the rounded one itself or else the rounded quotient is even. */
  lemma RoundedQuotientIsNearest(n: nat, s: nat, k: nat)
    requires s > 0
    ensures Abs(RoundedQuotient(n, s) * s - n) <= Abs(k * s - n)
    ensures Abs(RoundedQuotient(n, s) * s - n) == Abs(k * s - n)
            ==> k == RoundedQuotient(n, s) || RoundedQuotient(n, s) % 2 == 0
  {
    var q := n / s;
    var a := q * s;
    assert n == a + n % s;
    MulSucc(q, s);
    var m := RoundedQuotient(n, s);
    assert m * s == if m == q then a else a + s;
    var x := k * s;
    if k < q {
      MulMonotone(k + 1, q, s);
      MulSucc(k, s);
    } else if k > q + 1 {
      MulMonotone(q + 2, k, s);
      MulSucc(q + 1, s);
    }
    assert x <= a - s || x == a || x == a + s || x >= a + 2 * s;
    NearestCandidate(n, a, s, m * s, x);
  }

  /** Between the multiples `a` and `a + s` around `n`, the rounded one is
      no farther from `n` than any multiple `x`. */
  lemma NearestCandidate(n: int, a: int, s: int, chosen: int, x: int)
    requires s > 0 && a <= n < a + s
    requires chosen == a || chosen == a + s
    requires chosen == a ==> 2 * (n - a) <= s
    requires chosen == a + s ==> 2 * (n - a) >= s
    requires x <= a - s || x == a || x == a + s || x >= a + 2 * s
    ensures Abs(chosen - n) <= Abs(x - n)
    ensures Abs(chosen - n) == Abs(x - n) ==> x == chosen || 2 * (n - a) == s
  {
  }

  /** A quotient below `b`, for a dividend below `b * s`. */
  lemma QuotientBelow(n: nat, s: nat, b: nat)
    requires s > 0 && n < b * s
    ensures n / s < b
  {
    var q := n / s;
    assert q * s <= n;
    if q >= b {
      MulMonotone(b, q, s);
    }
  }

  /** The quotient of the nearest double is at most `2^53`. */
  lemma RoundedQuotientBound(n: nat)
    ensures RoundedQuotient(n, Pow2(Binade(n))) <= Pow2(53)
  {
    Pow2Add(53, Binade(n));
    QuotientBelow(n, Pow2(Binade(n)), Pow2(53));
  }

  /** The nearest double is a double. */
  lemma NearestDoubleIsDouble(n: nat)
    ensures IsDouble(NearestDouble(n))
  {
    var e := Binade(n);
    var k := RoundedQuotient(n, Pow2(e));
    RoundedQuotientBound(n);
    if k < Pow2(53) {
      assert NearestDouble(n) == Scaled(k, e);
    } else {
      Pow2Add(52, e + 1);
      Pow2Add(53, e);
      assert 52 + (e + 1) == 53 + e;
      assert NearestDouble(n) == Scaled(Pow2(52), e + 1);
    }
  }

  /** A double whose exponent is below `e` lies below `2^52 * 2^e`. */
  lemma LowerBinadeBelow(q: nat, f: nat, e: nat)
    requires q < Pow2(53) && f < e
    ensures Scaled(q, f) < Pow2(52 + e)
  {
    Pow2Add(53, f);
    MulMonotone(q + 1, Pow2(53), Pow2(f));
    MulSucc(q, Pow2(f));
    Pow2Monotone(53 + f, 52 + e);
  }

  /** A multiple of `2^f` is a multiple of `2^e` for `e <= f`. */
  lemma HigherBinadeMultiple(q: nat, f: nat, e: nat)
    requires e <= f
    ensures Scaled(q, f) == Scaled(q * Pow2(f - e), e)
  {
    Pow2Add(f - e, e);
    assert f - e + e == f;
  }

  /** No double is nearer `n` than `NearestDouble(n)`. */
  lemma NearestDoubleIsNearest(n: nat, d: nat)
    requires IsDouble(d)
    ensures Abs(NearestDouble(n) - n) <= Abs(d - n)
  {
    var q: nat, f: nat :| q < Pow2(53) && d == Scaled(q, f);
    if f < Binade(n) {
      NearerThanLowerBinade(n, q, f);
    } else {
      NearerThanHigherBinade(n, q, f);
    }
  }

  /** A double with a smaller exponent than `n`'s binade is no nearer. */
  lemma NearerThanLowerBinade(n: nat, q: nat, f: nat)
    requires q < Pow2(53) && f < Binade(n)
    ensures Abs(NearestDouble(n) - n) <= Abs(Scaled(q, f) - n)
  {
    var e := Binade(n);
    LowerBinadeBelow(q, f, e);
    Pow2Add(52, e);
    RoundedQuotientIsNearest(n, Pow2(e), Pow2(52));
  }

  /** A double with an exponent at least `n`'s binade is a multiple of the
      binade's spacing, so no nearer. */
  lemma NearerThanHigherBinade(n: nat, q: nat, f: nat)
    requires f >= Binade(n)
    ensures Abs(NearestDouble(n) - n) <= Abs(Scaled(q, f) - n)
  {
    var e := Binade(n);
    HigherBinadeMultiple(q, f, e);
    RoundedQuotientIsNearest(n, Pow2(e), q * Pow2(f - e));
  }

  /** A double is its own nearest double. */
  lemma NearestDoubleOfDouble(n: nat)
    requires IsDouble(n)
    ensures NearestDouble(n) == n
  {
    NearestDoubleIsNearest(n, n);
  }

  /** `2^53`, computed. */
  lemma SignificandBoundIsPow2()
    ensures Pow2(53) == SignificandBound
  {
    assert Pow2(4) == 16;
    Pow2Add(4, 4);
    Pow2Add(8, 8);
    Pow2Add(16, 16);
    Pow2Add(32, 16);
    Pow2Add(48, 4);
    assert Pow2(53) == 2 * Pow2(52);
  }

  /** Every integer of magnitude up to `2^53` is a double. */
  lemma SafeIntegerIsDouble(n: nat)
    requires n <= SignificandBound
    ensures IsDouble(n)
  {
    SignificandBoundIsPow2();
    if n < SignificandBound {
      assert n == Scaled(n, 0);
    } else {
      Pow2Add(52, 1);
      assert n == Scaled(Pow2(52), 1);
    }
  }

  /** Rounding at most doubles a magnitude. */
  lemma NearestDoubleBelowTwice(n: nat)
    ensures NearestDouble(n) <= 2 * n
  {
    var e := Binade(n);
    RoundedQuotientClose(n, Pow2(e));
    if e > 0 {
      Pow2Add(52, e);
      Pow2Monotone(0, 52);
      MulMonotone(1, Pow2(52), Pow2(e));
    }
  }

  /** A finite double comes through unary `+` unchanged, and so does every
      integer of magnitude up to `2^53`. */
  lemma NumberValueOfDouble(i: int)
    ensures IsDouble(Abs(i)) && Abs(i) < OverflowBound ==> NumberValue(i) == Int(i)
    ensures Abs(i) <= SignificandBound ==> NumberValue(i) == Int(i)
  {
    if Abs(i) <= SignificandBound {
      SafeIntegerIsDouble(Abs(i));
    }
    if IsDouble(Abs(i)) {
      NearestDoubleOfDouble(Abs(i));
    }
  }

  /** The number unary `+` yields is finite exactly when the nearest double
      is below `2^1024`; it is then a double, and no double of the same sign
      is nearer `i`. */
  lemma NumberValueIsNearest(i: int, d: int)
    ensures NumberValue(i).Int? <==> NearestDouble(Abs(i)) < OverflowBound
    ensures NumberValue(i).Int? ==> IsDouble(Abs(NumberValue(i).i))
    ensures NumberValue(i).Int? && IsDouble(Abs(d)) && (d < 0 <==> i < 0)
            ==> Abs(NumberValue(i).i - i) <= Abs(d - i)
  {
    NearestDoubleIsDouble(Abs(i));
    if IsDouble(Abs(d)) {
      NearestDoubleIsNearest(Abs(i), Abs(d));
    }
  }

  /** `+"9007199254740993"` is `9007199254740992`: 2^53 + 1 lies halfway
      between two doubles, and the tie goes to the even significand. */
  lemma TwoToFiftyThreePlusOneRounds()
    ensures NumberValue(9007199254740993) == Int(9007199254740992)
  {
    SignificandBoundIsPow2();
    assert Binade(4503599627370496) == 0;
    assert Binade(9007199254740993) == 1;
    assert Pow2(1) == 2;
    assert RoundedQuotient(9007199254740993, 2) == 4503599627370496;
    assert NearestDouble(9007199254740993) == 9007199254740992;
  }
}
