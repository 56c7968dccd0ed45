/** `Speed_degree_with_mod`: the recursive square-and-multiply power, over the
    integers and over 64-bit words, with its cost, and the algebra that makes two
    parties who exchange powers agree.
 */
module ModularPower {

  const WORD: nat := 0x1_0000_0000_0000_0000

  function Power(g: nat, x: nat): nat {
    if x == 0 then 1 else g * Power(g, x - 1)
  }

  /** The recursion of the source over unbounded integers. */
  function Speed(g: nat, x: nat, p: nat): nat
    requires p > 0
  {
    if x == 0 then 1
    else if x % 2 != 0 then (Speed(g, x - 1, p) * g) % p
    else
      var y := Speed(g, x / 2, p);
      (y * y) % p
  }

  /** The same recursion on `size_t`: every product is reduced modulo 2^64 first.
      Beside the value it reports the number of calls made and the largest product
      that was formed before that reduction. */
  datatype Trace = Trace(value: nat, calls: nat, peak: nat)

  function Max(a: nat, b: nat): nat { if a < b then b else a }

  function WordSpeed(g: nat, x: nat, p: nat): Trace
    requires p > 0
  {
    if x == 0 then Trace(1, 1, 0)
    else if x % 2 != 0 then
      var t := WordSpeed(g, x - 1, p);
      Trace((t.value * g) % WORD % p, t.calls + 1, Max(t.peak, t.value * g))
    else
      var t := WordSpeed(g, x / 2, p);
      Trace((t.value * t.value) % WORD % p, t.calls + 1, Max(t.peak, t.value * t.value))
  }

  // ---------------------------------------------------------------- arithmetic

  lemma ModOfMultiple(q: int, p: nat, r: int)
    requires p > 0
    ensures (q * p + r) % p == r % p
  {
    var k := r / p;
    var m := r % p;
    assert r == k * p + m;
    assert q * p + r == (q + k) * p + m by {
      assert (q + k) * p == q * p + k * p;
    }
    UniqueRemainder(q * p + r, p, q + k, m);
  }

  lemma UniqueRemainder(a: int, p: nat, q: int, m: int)
    requires p > 0 && 0 <= m < p && a == q * p + m
    ensures a % p == m
  {
    var d := a / p - q;
    var r := a % p;
    assert a == (a / p) * p + r;
    assert d * p == m - r by {
      assert d * p == (a / p) * p - q * p;
    }
    SmallMultiple(d, p);
  }

  lemma SmallMultiple(d: int, p: int)
    requires p > 0
    ensures -p < d * p < p ==> d == 0
  {
    assert d >= 1 ==> d * p >= p;
    assert d <= -1 ==> d * p <= -p;
  }

  lemma ModMul(a: nat, b: nat, p: nat)
    requires p > 0
    ensures (a % p * b) % p == (a * b) % p
  {
    var q := a / p;
    assert a == q * p + a % p;
    assert a * b == (q * b) * p + a % p * b by {
      assert a * b == (q * p + a % p) * b == q * p * b + a % p * b;
      assert q * p * b == (q * b) * p;
    }
    ModOfMultiple(q * b, p, a % p * b);
  }

  lemma ModMulBoth(a: nat, b: nat, p: nat)
    requires p > 0
    ensures ((a % p) * (b % p)) % p == (a * b) % p
  {
    ModMul(a, b % p, p);
    ModMul(b, a, p);
  }

  lemma {:induction false} PowerAdd(g: nat, x: nat, y: nat)
    ensures Power(g, x + y) == Power(g, x) * Power(g, y)
  {
    if x > 0 {
      calc {
        Power(g, x + y);
        g * Power(g, (x - 1) + y);
        { PowerAdd(g, x - 1, y); }
        g * (Power(g, x - 1) * Power(g, y));
        { ProductRegrouped(g, Power(g, x - 1), Power(g, y)); }
        (g * Power(g, x - 1)) * Power(g, y);
        Power(g, x) * Power(g, y);
      }
    }
  }

  lemma ProductRegrouped(a: nat, b: nat, c: nat)
    ensures a * (b * c) == (a * b) * c
  {
  }

  lemma {:induction false} PowerOfPower(g: nat, x: nat, y: nat)
    ensures Power(Power(g, x), y) == Power(g, x * y)
  {
    if y == 0 {
      assert x * y == 0;
    } else {
      PowerOfPower(g, x, y - 1);
      assert x * y == x + x * (y - 1);
      PowerAdd(g, x, x * (y - 1));
    }
  }

  /** Only the residue of the base matters. */
  lemma {:induction false} PowerOfResidue(g: nat, x: nat, p: nat)
    requires p > 0
    ensures Power(g % p, x) % p == Power(g, x) % p
  {
    if x > 0 {
      PowerOfResidue(g, x - 1, p);
      var a, b := Power(g % p, x - 1), Power(g, x - 1);
      ModMul(g, a, p);
      assert (g % p * a) % p == (g * a) % p;
      ModMul(a, g, p);
      ModMul(b, g, p);
      assert g * a == a * g && g * b == b * g;
    }
  }

  // ---------------------------------------------------------------- correctness

  /** Square-and-multiply computes the power, except that for the modulus 1 an exponent
      of 0 yields 1 where the residue is 0. */
  lemma {:induction false} SpeedIsPower(g: nat, x: nat, p: nat)
    requires p > 0
    ensures Speed(g, x, p) == Power(g, x) % p <==> (p >= 2 || x > 0)
  {
    if x == 0 {
      assert p >= 2 ==> 1 % p == 1;
      assert p == 1 ==> 1 % p == 0;
    } else {
      SpeedIsPowerWhenPositive(g, x, p);
    }
  }

  lemma {:induction false} SpeedIsPowerWhenPositive(g: nat, x: nat, p: nat)
    requires p > 0 && x > 0
    ensures Speed(g, x, p) == Power(g, x) % p
  {
    if x % 2 != 0 {
      if x > 1 { SpeedIsPowerWhenPositive(g, x - 1, p); }
      MultiplyStep(Speed(g, x - 1, p), g, x - 1, p);
    } else {
      SpeedIsPowerWhenPositive(g, x / 2, p);
      SquareStep(g, x / 2, p);
      assert x / 2 + x / 2 == x;
    }
  }

  lemma MultiplyStep(y: nat, g: nat, x: nat, p: nat)
    requires p > 0 && (y == Power(g, x) % p || (x == 0 && y == 1))
    ensures (y * g) % p == Power(g, x + 1) % p
  {
    ModMul(Power(g, x), g, p);
    assert Power(g, x + 1) == Power(g, x) * g;
  }

  lemma SquareStep(g: nat, h: nat, p: nat)
    requires p > 0
    ensures ((Power(g, h) % p) * (Power(g, h) % p)) % p == Power(g, h + h) % p
  {
    ModMulBoth(Power(g, h), Power(g, h), p);
    PowerAdd(g, h, h);
  }

  lemma ProductFits(a: nat, b: nat)
    requires a < 0x1_0000_0000 && b <= 0x1_0000_0000
    ensures a * b < WORD && (a * b) % WORD == a * b
  {
    assert a * b <= a * 0x1_0000_0000;
  }

  /** On 64-bit words nothing wraps: for a modulus of at most 2^32 and a base of at most
      2^32 no product reaches 2^64, so the machine recursion is the integer one and its
      value is the modular power. */
  lemma WordSpeedExact(g: nat, x: nat, p: nat)
    requires 2 <= p <= 0x1_0000_0000 && g <= 0x1_0000_0000
    ensures WordSpeed(g, x, p).peak < WORD
    ensures WordSpeed(g, x, p).value == Speed(g, x, p) == Power(g, x) % p
  {
    WordSpeedNeverWraps(g, x, p);
    SpeedIsPower(g, x, p);
  }

  lemma {:induction false} WordSpeedNeverWraps(g: nat, x: nat, p: nat)
    requires 2 <= p <= 0x1_0000_0000 && g <= 0x1_0000_0000
    ensures WordSpeed(g, x, p).peak < WORD
    ensures WordSpeed(g, x, p).value == Speed(g, x, p) < p
  {
    if x == 0 {
    } else if x % 2 != 0 {
      WordSpeedNeverWraps(g, x - 1, p);
      ProductFits(Speed(g, x - 1, p), g);
    } else {
      WordSpeedNeverWraps(g, x / 2, p);
      ProductFits(Speed(g, x / 2, p), Speed(g, x / 2, p));
    }
  }

  /** Every product formed for bases below the modulus stays a machine word. */
  ghost predicate NeverOverflows(p: nat)
    requires p > 0
  {
    forall g: nat, x: nat :: g < p ==> WordSpeed(g, x, p).peak < WORD
  }

  /** The bound on the modulus is exact: whichever `size_t` the modulus is, no product
      overflows for any base below it if and only if it is at most 2^32. */
  lemma NeverOverflowsIff(p: nat)
    requires 2 <= p < WORD
    ensures NeverOverflows(p) <==> p <= 0x1_0000_0000
  {
    if p <= 0x1_0000_0000 {
      forall g: nat, x: nat | g < p
        ensures WordSpeed(g, x, p).peak < WORD
      {
        WordSpeedExact(g, x, p);
      }
    } else {
      SquareOf(p - 1, p);
      SquareReachesWord(p - 1);
      assert WordSpeed(p - 1, 2, p).peak >= WORD;
    }
  }

  /** A base squared: the two products formed are the base and its square. */
  lemma SquareOf(g: nat, p: nat)
    requires g < p <= WORD
    ensures WordSpeed(g, 2, p) == Trace(g * g % WORD % p, 3, Max(g, g * g))
    ensures Power(g, 2) == g * g
  {
    hide Power;
    BaseItself(g, p);
  }

  lemma BaseItself(g: nat, p: nat)
    requires g < p <= WORD
    ensures WordSpeed(g, 1, p) == Trace(g, 2, g)
    ensures Power(g, 2) == g * g
  {
    UniqueRemainder(g, WORD, 0, g);
    UniqueRemainder(g, p, 0, g);
    assert WordSpeed(g, 0, p) == Trace(1, 1, 0);
    assert Power(g, 1) == g;
  }

  lemma SquareReachesWord(n: nat)
    requires n >= 0x1_0000_0000
    ensures n * n >= WORD
  {
    assert n * n >= n * 0x1_0000_0000;
  }

  /** The machine power is the modular power for every base below the modulus. */
  ghost predicate PowersRight(p: nat)
    requires p > 0
  {
    forall g: nat, x: nat :: g < p ==> WordSpeed(g, x, p).value == Power(g, x) % p
  }

  /** When the value is right, whether or not a product overflows: exactly if the modulus is
      at least 2 and at most 2^32 or a divisor of 2^64. */
  lemma PowersRightIff(p: nat)
    requires 0 < p < WORD
    ensures PowersRight(p) <==> p >= 2 && (p <= 0x1_0000_0000 || WORD % p == 0)
  {
    if p == 1 {
      assert WordSpeed(0, 0, 1).value == 1 && Power(0, 0) % 1 == 0;
    } else if p <= 0x1_0000_0000 || WORD % p == 0 {
      forall g: nat, x: nat | g < p
        ensures WordSpeed(g, x, p).value == Power(g, x) % p
      {
        RightValue(g, x, p);
      }
    } else {
      SquareWrapsToZero(p);
      assert WordSpeed(0x1_0000_0000, 2, p).value != Power(0x1_0000_0000, 2) % p;
    }
  }

  lemma RightValue(g: nat, x: nat, p: nat)
    requires 2 <= p && g < p && (p <= 0x1_0000_0000 || WORD % p == 0)
    ensures WordSpeed(g, x, p).value == Power(g, x) % p
  {
    if p <= 0x1_0000_0000 {
      WordSpeedExact(g, x, p);
    } else {
      WrapIsHarmless(g, x, p);
      SpeedIsPower(g, x, p);
    }
  }

  /** The square of 2^32 wraps to 0, while its residue is that of 2^64. */
  lemma SquareWrapsToZero(p: nat)
    requires 0x1_0000_0000 < p < WORD
    ensures WordSpeed(0x1_0000_0000, 2, p).value == 0
    ensures Power(0x1_0000_0000, 2) == WORD
  {
    hide WordSpeed, Power, Max;
    SquareOf(0x1_0000_0000, p);
    WordWraps(0x1_0000_0000 * 0x1_0000_0000, p);
  }

  lemma WordWraps(n: nat, p: nat)
    requires n == WORD && p > 0
    ensures n % WORD % p == 0
  {
    UniqueRemainder(n, WORD, 1, 0);
    UniqueRemainder(0, p, 0, 0);
  }

  /** Modulo a divisor of 2^64 the machine recursion takes the values of the integer one. */
  lemma {:induction false} WrapIsHarmless(g: nat, x: nat, p: nat)
    requires p > 0 && WORD % p == 0
    ensures WordSpeed(g, x, p).value == Speed(g, x, p)
  {
    if x == 0 {
    } else if x % 2 != 0 {
      WrapIsHarmless(g, x - 1, p);
      WrappedResidue(Speed(g, x - 1, p) * g, p);
    } else {
      WrapIsHarmless(g, x / 2, p);
      WrappedResidue(Speed(g, x / 2, p) * Speed(g, x / 2, p), p);
    }
  }

  lemma WrappedResidue(n: nat, p: nat)
    requires p > 0 && WORD % p == 0
    ensures n % WORD % p == n % p
  {
    var q, k, r := WORD / p, n / WORD, n % WORD;
    assert WORD == q * p;
    assert n == k * WORD + r;
    ProductRegrouped(k, q, p);
    ModOfMultiple(k * q, p, r);
  }

  /** An overflow is not harmless: for every odd modulus above 2^32 it makes the square of
      p - 1, whose residue is 1, come out wrong. */
  lemma OverflowGivesWrongPower(p: nat)
    requires 0x1_0000_0000 < p < WORD && p % 2 == 1
    ensures Power(p - 1, 2) % p == 1
    ensures WordSpeed(p - 1, 2, p).value != 1
  {
    SquareOf(p - 1, p);
    LargestSquared(p);
    SquareReachesWord(p - 1);
    SquareBelow(p);
    WrappingShifts((p - 1) * (p - 1), p);
    hide WordSpeed;
  }

  lemma LargestSquared(p: nat)
    requires p >= 2
    ensures (p - 1) * (p - 1) % p == 1
  {
    UniqueRemainder((p - 1) * (p - 1), p, p - 2, 1);
  }

  lemma SmallerProduct(a: nat, b: nat, c: nat, d: nat)
    requires a <= c && b <= d
    ensures a * b <= c * d
  {
    assert a * b <= a * d;
    assert a * d <= c * d;
  }

  lemma SquareBelow(p: nat)
    requires 0 < p < WORD
    ensures (p - 1) * (p - 1) < WORD * p
  {
    SmallerProduct(p - 1, p - 1, WORD - 1, p);
    assert (WORD - 1) * p == WORD * p - p;
  }

  /** Cutting such an n to a word changes its residue modulo an odd number. */
  lemma WrappingShifts(n: nat, p: nat)
    requires 0 < p && WORD <= n < WORD * p && p % 2 == 1
    ensures n % WORD % p != n % p
  {
    var k, r := n / WORD, n % WORD;
    assert n == k * WORD + r;
    WordQuotient(n, k, r, p);
    Pow2Is64();
    OddNeverDivides(64, k, n / p - r / p, p);
    SameResidue(n, r, p);
  }

  lemma WordQuotient(n: nat, k: nat, r: nat, p: nat)
    requires n == k * WORD + r && r < WORD && WORD <= n < WORD * p
    ensures 0 < k < p
  {
    assert k >= p ==> k * WORD >= WORD * p;
  }

  lemma SameResidue(n: nat, r: nat, p: nat)
    requires p > 0
    ensures n % p == r % p ==> n - r == (n / p - r / p) * p
  {
    assert n == n / p * p + n % p && r == r / p * p + r % p;
    assert (n / p - r / p) * p == n / p * p - r / p * p;
  }

  /** An odd number that divides 2^m * k divides k, so it is not above k. */
  lemma {:induction false} OddNeverDivides(m: nat, k: nat, d: int, p: nat)
    requires 0 < k < p && p % 2 == 1
    ensures k * Pow2(m) != d * p
  {
    if m == 0 {
      SmallMultiple(d, p);
    } else {
      var h := k * Pow2(m - 1);
      ProductRegrouped(2, k, Pow2(m - 1));
      assert k * Pow2(m) == 2 * h by {
        ProductRegrouped(k, 2, Pow2(m - 1));
      }
      OddNeverDivides(m - 1, k, d / 2, p);
      EvenFactor(d, p, h);
    }
  }

  lemma EvenFactor(d: int, p: nat, h: int)
    requires p % 2 == 1
    ensures d * p == 2 * h ==> h == d / 2 * p
  {
    var q := p / 2;
    assert p == 2 * q + 1;
    assert d * p == 2 * (d * q) + d by {
      assert d * (2 * q) == 2 * (d * q);
    }
    if d * p == 2 * h {
      assert d == 2 * (h - d * q);
      assert d == 2 * (d / 2);
      assert d * p == 2 * (d / 2 * p);
    }
  }

  /** One above 2^32, the square wraps to 0. */
  lemma WordSpeedWrapsAbove()
    ensures var p := 0x1_0000_0001; var g := 0x1_0000_0000;
            && WordSpeed(g, 2, p).peak == WORD
            && WordSpeed(g, 2, p).value == 0
            && Power(g, 2) % p == 1
  {
    var p: nat := 0x1_0000_0001;
    var g: nat := 0x1_0000_0000;
    assert WordSpeed(g, 0, p) == Trace(1, 1, 0);
    assert WordSpeed(g, 1, p) == Trace(g, 2, g);
    assert WordSpeed(g, 2, p) == Trace(0, 3, WORD);
    assert Power(g, 0) == 1 && Power(g, 1) == g;
    assert Power(g, 2) == g * g == WORD;
  }

  // ---------------------------------------------------------------- agreement

  /** Diffie-Hellman: raising the other side's public value gives the same number on both
      sides, and it is g^(a*b) mod p. No primality of p is needed. */
  lemma Agreement(g: nat, a: nat, b: nat, p: nat)
    requires p >= 2
    ensures Speed(Speed(g, b, p), a, p) == Speed(Speed(g, a, p), b, p) == Power(g, a * b) % p
  {
    RaisedPublicValue(g, b, a, p);
    RaisedPublicValue(g, a, b, p);
    assert a * b == b * a;
  }

  lemma RaisedPublicValue(g: nat, x: nat, y: nat, p: nat)
    requires p >= 2
    ensures Speed(Speed(g, x, p), y, p) == Power(g, x * y) % p
  {
    SpeedIsPower(g, x, p);
    SpeedIsPower(Speed(g, x, p), y, p);
    PowerOfResidue(Power(g, x), y, p);
    PowerOfPower(g, x, y);
  }

  // ---------------------------------------------------------------- cost

  /** A binary numeral, least significant bit first. */
  function Numeral(bits: seq<bool>): nat {
    if bits == [] then 0 else (if bits[0] then 1 else 0) + 2 * Numeral(bits[1..])
  }

  function Ones(bits: seq<bool>): (n: nat)
    ensures n <= |bits|
  {
    if bits == [] then 0 else (if bits[0] then 1 else 0) + Ones(bits[1..])
  }

  /** For an exponent whose binary numeral has no leading zero, the call count is its
      length plus the number of ones in it. */
  lemma {:induction false} CallsOfNumeral(g: nat, bits: seq<bool>, p: nat)
    requires p > 0
    requires bits != [] && bits[|bits| - 1]
    ensures Numeral(bits) > 0
    ensures WordSpeed(g, Numeral(bits), p).calls == |bits| + Ones(bits)
  {
    var x := Numeral(bits);
    if |bits| == 1 {
      assert bits[1..] == [];
      assert x == 1;
      assert WordSpeed(g, 0, p).calls == 1;
    } else {
      CallsOfNumeral(g, bits[1..], p);
      var h := Numeral(bits[1..]);
      assert x / 2 == h && (2 * h) / 2 == h && (2 * h) % 2 == 0;
      if bits[0] {
        assert x - 1 == 2 * h;
      }
    }
  }

  /** Every positive number has such a numeral. */
  function Bits(x: nat): (bits: seq<bool>)
    ensures Numeral(bits) == x
    ensures x > 0 ==> bits != [] && bits[|bits| - 1]
  {
    if x == 0 then [] else
      var rest := Bits(x / 2);
      var bits := [x % 2 == 1] + rest;
      assert bits[1..] == rest;
      bits
  }

  function Pow2(n: nat): (r: nat)
    ensures r > 0
  {
    if n == 0 then 1 else 2 * Pow2(n - 1)
  }

  lemma {:induction false} NumeralBounds(bits: seq<bool>)
    ensures Numeral(bits) < Pow2(|bits|)
    ensures bits != [] && bits[|bits| - 1] ==> Numeral(bits) >= Pow2(|bits| - 1)
    ensures Ones(bits) == |bits| <==> Numeral(bits) == Pow2(|bits|) - 1
  {
    if bits != [] {
      NumeralBounds(bits[1..]);
      if |bits| > 1 {
        assert bits[1..][|bits| - 2] == bits[|bits| - 1];
      }
    }
  }

  lemma {:induction false} Pow2Monotone(m: nat, n: nat)
    requires m <= n
    ensures Pow2(m) <= Pow2(n)
  {
    if m < n { Pow2Monotone(m, n - 1); }
  }

  /** With exponents as `rand()` gives them, below 2^31, one power takes at most 62 calls,
      and only the exponent 2^31 - 1 takes that many. */
  lemma CallsBelow2To31(g: nat, x: nat, p: nat)
    requires p > 0 && x < 0x8000_0000
    ensures WordSpeed(g, x, p).calls <= 62
    ensures WordSpeed(g, x, p).calls == 62 <==> x == 0x7FFF_FFFF
  {
    if x > 0 {
      var bits := Bits(x);
      CallsOfNumeral(g, bits, p);
      NumeralBounds(bits);
      assert Pow2(31) == 0x8000_0000 by { Pow2Is31(); }
      if |bits| > 31 {
        Pow2Monotone(31, |bits| - 1);
      }
      if |bits| < 31 {
        Pow2Monotone(|bits|, 30);
        assert Pow2(31) == 2 * Pow2(30);
      }
    }
  }

  lemma Pow2Is31()
    ensures Pow2(31) == 0x8000_0000
  {
    assert Pow2(8) == 0x100;
    assert Pow2(16) == 0x1_0000;
    assert Pow2(24) == 0x100_0000;
  }

  lemma Pow2Is64()
    ensures Pow2(64) == WORD
  {
    Pow2Is31();
    assert Pow2(40) == 0x100_0000_0000;
    assert Pow2(48) == 0x1_0000_0000_0000;
    assert Pow2(56) == 0x100_0000_0000_0000;
  }
}
