/**
 * Exact rational numbers as the Rational class keeps them: a numerator `n` and a
 * denominator `d`, reduced by the greatest common divisor and with the sign carried by
 * the numerator. Long values are modelled as unbounded integers; Kotlin's truncating
 * `/` and `%` on Long are written out as `Quot` and `Rem`.
 */
module Rationals {
  import opened Outcome

  datatype RationalError = ZeroDenominator

  /** Kotlin's `/` on Long: the quotient rounded toward zero. */
  function Quot(a: int, b: int): (q: int)
    requires b != 0
    ensures Abs(a - b * q) < Abs(b)
    ensures a - b * q == 0 || (a - b * q < 0 <==> a < 0)
  {
    var m := Abs(a) / Abs(b);
    TruncatedParts(a, b, m);
    if (a < 0) == (b < 0) then m else -m
  }

  /** The remainder left by the truncated quotient is the remainder of the magnitudes,
      with the sign of the dividend. */
  lemma TruncatedParts(a: int, b: int, m: int)
    requires b != 0 && m == Abs(a) / Abs(b)
    ensures var q := if (a < 0) == (b < 0) then m else -m;
            var r := Abs(a) % Abs(b);
            a - b * q == (if a < 0 then -r else r)
  {
    var bigA, bigB := Abs(a), Abs(b);
    var r := bigA % bigB;
    assert bigA == bigB * m + r;
    if a >= 0 && b > 0 {
      assert a - b * m == r;
    } else if a >= 0 {
      assert b * -m == bigB * m;
    } else if b > 0 {
      assert b * -m == -(bigB * m);
    } else {
      assert b * m == -(bigB * m);
    }
  }

  /** Kotlin's `%` on Long: the remainder takes the sign of the dividend. */
  function Rem(a: int, b: int): (r: int)
    requires b != 0
    ensures Abs(r) < Abs(b)
    ensures r == 0 || (r < 0 <==> a < 0)
  {
    a - b * Quot(a, b)
  }

  /** The private tail-recursive gcd of Rational: Euclid's algorithm on Kotlin's `%`. */
  function Gcd(a: int, b: int): (g: nat)
    ensures g == 0 <==> a == 0 && b == 0
    decreases Abs(b)
  {
    if b == 0 then Abs(a) else Gcd(b, Rem(a, b))
  }

  /** The gcd divides both arguments. */
  lemma {:induction false} GcdDivides(a: int, b: int) returns (i: int, j: int)
    ensures a == Gcd(a, b) * i && b == Gcd(a, b) * j
    decreases Abs(b)
  {
    if b == 0 {
      i, j := if a < 0 then -1 else 1, 0;
    } else {
      var q, r := Quot(a, b), Rem(a, b);
      var i', j' := GcdDivides(b, r);
      var g := Gcd(b, r);
      assert Gcd(a, b) == g;
      i, j := j' + i' * q, i';
      RecombineMultiple(a, b, q, r, g, i', j');
    }
  }

  lemma RecombineMultiple(a: int, b: int, q: int, r: int, g: int, i: int, j: int)
    requires r == a - b * q && b == g * i && r == g * j
    ensures a == g * (j + i * q)
  {
    assert b * q == g * (i * q);
    assert g * (j + i * q) == g * j + g * (i * q);
  }

  /** Bezout's identity: the gcd is an integer combination of the arguments. */
  lemma {:induction false} Bezout(a: int, b: int) returns (s: int, t: int)
    ensures Gcd(a, b) == s * a + t * b
    decreases Abs(b)
  {
    if b == 0 {
      s, t := if a < 0 then -1 else 1, 0;
    } else {
      var q, r := Quot(a, b), Rem(a, b);
      var s', t' := Bezout(b, r);
      assert Gcd(a, b) == s' * b + t' * r;
      s, t := t', s' - t' * q;
      RecombineCombination(a, b, q, r, s', t');
    }
  }

  lemma RecombineCombination(a: int, b: int, q: int, r: int, s: int, t: int)
    requires r == a - b * q
    ensures s * b + t * r == t * a + (s - t * q) * b
  {
    assert t * r == t * a - t * (b * q);
    assert (s - t * q) * b == s * b - (t * q) * b;
    assert t * (b * q) == (t * q) * b;
  }

  lemma MulNonnegative(x: int, y: int)
    requires x >= 0 && y >= 0
    ensures x * y >= 0
  {
  }

  lemma MulGrows(x: int, y: int)
    requires x >= 0 && y > 0
    ensures x * y >= x
  {
    assert x * y == x * (y - 1) + x;
    MulNonnegative(x, y - 1);
  }

  lemma AbsMul(x: int, y: int)
    ensures Abs(x * y) == Abs(x) * Abs(y)
  {
    if x < 0 && y < 0 {
      assert x * y == (-x) * (-y);
    } else if x < 0 {
      assert -(x * y) == (-x) * y;
      MulNonnegative(-x, y);
    } else if y < 0 {
      assert -(x * y) == x * (-y);
      MulNonnegative(x, -y);
    } else {
      MulNonnegative(x, y);
    }
  }

  lemma AbsMulAtLeast(x: int, y: int)
    requires y != 0
    ensures Abs(x * y) >= Abs(x)
  {
    AbsMul(x, y);
    MulGrows(Abs(x), Abs(y));
  }

  lemma ProductZero(x: int, y: int)
    requires x > 0
    ensures x * y == 0 <==> y == 0
  {
    if y != 0 {
      AbsMulAtLeast(x, y);
    }
  }

  lemma PositiveProduct(x: int, y: int)
    requires x > 0 && y > 0
    ensures x * y > 0
  {
    MulGrows(x, y);
  }

  /** A positive number that is a multiple of a positive number is at least as large. */
  lemma MultipleAtLeast(x: int, y: int, k: int)
    requires x > 0 && y > 0 && y == x * k
    ensures y >= x
  {
    AbsMulAtLeast(x, k);
  }

  lemma Cancel(a: int, b: int, c: int)
    requires c > 0 && a * c == b * c
    ensures a == b
  {
    assert c * (a - b) == a * c - b * c;
    ProductZero(c, a - b);
  }

  lemma MulLess(a: int, b: int, c: int)
    requires a < b && c > 0
    ensures a * c < b * c
  {
    PositiveProduct(b - a, c);
    assert (b - a) * c == b * c - a * c;
  }

  /** Dividing an exact multiple truncates nothing. */
  lemma QuotExact(g: int, k: int)
    requires g != 0
    ensures Quot(g * k, g) == k
  {
    var q := Quot(g * k, g);
    assert Abs(g * k - g * q) < Abs(g);
    assert g * k - g * q == g * (k - q);
    if k - q != 0 {
      AbsMulAtLeast(g, k - q);
    }
  }

  /** A multiple of a positive modulus leaves no remainder. */
  lemma MultipleMod(m: int, k: int)
    requires m > 0
    ensures (m * k) % m == 0
  {
    var q, r := (m * k) / m, (m * k) % m;
    assert m * k == m * q + r;
    assert m * (k - q) == r;
    if k - q != 0 {
      AbsMulAtLeast(m, k - q);
    }
  }

  /** Two integers with a combination equal to one have gcd one. */
  lemma CoprimeByCombination(a: int, b: int, s: int, t: int)
    requires s * a + t * b == 1
    ensures Gcd(a, b) == 1
  {
    var g := Gcd(a, b);
    var i, j := GcdDivides(a, b);
    FactorCombination(g, i, j, s, t);
    assert g * (s * i + t * j) == 1;
    assert g != 0;
    MultipleAtLeast(g, 1, s * i + t * j);
  }

  lemma FactorCombination(g: int, i: int, j: int, s: int, t: int)
    ensures s * (g * i) + t * (g * j) == g * (s * i + t * j)
  {
    assert s * (g * i) == g * (s * i);
    assert t * (g * j) == g * (t * j);
  }

  /** The signed divisor of the constructor: the gcd, negated when the denominator is
      negative so that the reduced denominator comes out positive. */
  function Scale(numerator: int, denominator: int): (g: int)
    requires denominator != 0
    ensures g != 0 && (g < 0 <==> denominator < 0)
    ensures Abs(g) == Gcd(numerator, denominator)
  {
    Gcd(numerator, denominator) * (if denominator < 0 then -1 else 1)
  }

  /** The signed divisor divides numerator and denominator exactly. */
  lemma ScaleDivides(numerator: int, denominator: int)
    requires denominator != 0
    ensures var g := Scale(numerator, denominator);
            numerator == g * Quot(numerator, g) && denominator == g * Quot(denominator, g)
  {
    var big := Gcd(numerator, denominator);
    var sign := if denominator < 0 then -1 else 1;
    var g := Scale(numerator, denominator);
    assert g == big * sign;
    var i, j := GcdDivides(numerator, denominator);
    SignSwap(big, i, sign);
    SignSwap(big, j, sign);
    QuotExact(g, sign * i);
    QuotExact(g, sign * j);
  }

  lemma SignSwap(big: int, i: int, sign: int)
    requires sign == 1 || sign == -1
    ensures big * i == (big * sign) * (sign * i)
  {
    if sign == -1 {
      assert (big * -1) * (-1 * i) == big * i;
    }
  }

  /** Two numbers whose product has the sign of the first have a positive second. */
  lemma SameSignQuotient(g: int, d: int)
    requires g != 0 && g * d != 0 && (g < 0 <==> g * d < 0)
    ensures d > 0
  {
    if g > 0 && d < 0 {
      MulLess(d, 0, g);
    } else if g < 0 && d < 0 {
      assert g * d == (-g) * (-d);
      PositiveProduct(-g, -d);
    }
  }

  /** A combination of the reduced numerator and denominator is one, so the reduced
      fraction has no common factor. */
  lemma ReducedCoprime(numerator: int, denominator: int, g: int, n: int, d: int)
    requires denominator != 0 && g == Scale(numerator, denominator)
    requires numerator == g * n && denominator == g * d
    ensures Gcd(n, d) == 1
  {
    var s, t := Bezout(numerator, denominator);
    var sign := if denominator < 0 then -1 else 1;
    UnitCombination(Gcd(numerator, denominator), sign, g, n, d, s, t, numerator, denominator);
    CoprimeByCombination(n, d, sign * s, sign * t);
  }

  lemma UnitCombination(big: int, sign: int, g: int, n: int, d: int, s: int, t: int, x: int, y: int)
    requires big > 0 && (sign == 1 || sign == -1) && g == big * sign
    requires x == g * n && y == g * d && big == s * x + t * y
    ensures (sign * s) * n + (sign * t) * d == 1
  {
    FactorCombination(g, n, d, s, t);
    UnitFactor(big, sign, s * n + t * d);
    assert (sign * s) * n + (sign * t) * d == sign * (s * n + t * d);
  }

  lemma UnitFactor(big: int, sign: int, k: int)
    requires big > 0 && (sign == 1 || sign == -1) && (big * sign) * k == big
    ensures sign * k == 1
  {
    assert (big * sign) * k == big * (sign * k);
    assert big * (sign * k) == big * 1;
    Cancel(sign * k, 1, big);
  }

  datatype Rational = Rational(n: int, d: int) {
    /** What the constructor guarantees: a positive denominator and no common factor. */
    predicate Valid() {
      d > 0 && Gcd(n, d) == 1
    }

    /** The constructor: fails on a zero denominator, otherwise reduces the fraction. */
    static function New(numerator: int, denominator: int): (r: Result<Rational, RationalError>)
      ensures r.Err? <==> denominator == 0
      ensures r.Ok? ==> r.value.Valid() && r.value.n * denominator == numerator * r.value.d
    {
      if denominator == 0 then Err(ZeroDenominator)
      else
        var g := Scale(numerator, denominator);
        Reduce(numerator, denominator);
        Ok(Rational(Quot(numerator, g), Quot(denominator, g)))
    }

    static lemma Reduce(numerator: int, denominator: int)
      requires denominator != 0
      ensures var g := Scale(numerator, denominator);
              var r := Rational(Quot(numerator, g), Quot(denominator, g));
              r.Valid() && r.n * denominator == numerator * r.d
    {
      var g := Scale(numerator, denominator);
      var n, d := Quot(numerator, g), Quot(denominator, g);
      ScaleDivides(numerator, denominator);
      assert numerator == g * n && denominator == g * d;
      SameSignQuotient(g, d);
      ReducedCoprime(numerator, denominator, g, n, d);
      CrossValue(numerator, denominator, g, n, d);
    }

    static lemma CrossValue(x: int, y: int, g: int, n: int, d: int)
      requires x == g * n && y == g * d
      ensures n * y == x * d
    {
      assert n * (g * d) == (g * n) * d;
    }

    /** A valid rational is the only valid representation of its value. */
    static lemma CanonicalUnique(p: Rational, q: Rational)
      requires p.Valid() && q.Valid() && p.n * q.d == q.n * p.d
      ensures p == q
    {
      DenominatorDivides(p, q);
      DenominatorDivides(q, p);
      Cancel(p.n, q.n, p.d);
    }

    /** Euclid's lemma in the form used above: the reduced denominator of p divides the
        denominator of any fraction of the same value. */
    static lemma DenominatorDivides(p: Rational, q: Rational)
      requires p.Valid() && q.Valid() && p.n * q.d == q.n * p.d
      ensures p.d <= q.d
    {
      var s, t := Bezout(p.n, p.d);
      EuclidStep(p.n, p.d, q.n, q.d, s, t);
      MultipleAtLeast(p.d, q.d, s * q.n + t * q.d);
    }

    static lemma EuclidStep(pn: int, pd: int, qn: int, qd: int, s: int, t: int)
      requires s * pn + t * pd == 1 && pn * qd == qn * pd
      ensures qd == pd * (s * qn + t * qd)
    {
      calc {
        qd;
        (s * pn + t * pd) * qd;
        s * (pn * qd) + t * pd * qd;
        s * (qn * pd) + t * pd * qd;
        pd * (s * qn + t * qd);
      }
    }

    static function Zero(): (r: Rational)
      ensures r.Valid() && r.n == 0
    {
      Rational(0, 1)
    }

    /** `this + other`. */
    function Plus(other: Rational): (r: Rational)
      requires Valid() && other.Valid()
      ensures r.Valid() && r.n * (d * other.d) == (n * other.d + other.n * d) * r.d
    {
      PositiveProduct(d, other.d);
      New(n * other.d + other.n * d, d * other.d).value
    }

    /** `this - other`. */
    function Minus(other: Rational): (r: Rational)
      requires Valid() && other.Valid()
      ensures r.Valid() && r.n * (d * other.d) == (n * other.d - other.n * d) * r.d
    {
      PositiveProduct(d, other.d);
      New(n * other.d - other.n * d, d * other.d).value
    }

    /** `this * other`. */
    function Times(other: Rational): (r: Rational)
      requires Valid() && other.Valid()
      ensures r.Valid() && r.n * (d * other.d) == (n * other.n) * r.d
    {
      PositiveProduct(d, other.d);
      New(n * other.n, d * other.d).value
    }

    /** `this / other`: the constructor rejects the zero denominator a zero divisor gives. */
    function Div(other: Rational): (r: Result<Rational, RationalError>)
      requires Valid() && other.Valid()
      ensures r.Err? <==> other.n == 0
      ensures r.Ok? ==> r.value.Valid() && r.value.n * (d * other.n) == (n * other.d) * r.value.d
    {
      ProductZero(d, other.n);
      New(n * other.d, d * other.n)
    }

    /** `-this`: already reduced, so only the numerator's sign changes. */
    function UnaryMinus(): (r: Rational)
      requires Valid()
      ensures r.Valid() && r.n == -n && r.d == d
    {
      NegationValid();
      assert New(-n, d).value.n * d == -n * New(-n, d).value.d;
      CanonicalUnique(New(-n, d).value, Rational(-n, d));
      New(-n, d).value
    }

    lemma NegationValid()
      requires Valid()
      ensures Rational(-n, d).Valid()
    {
      var s, t := Bezout(n, d);
      NegatedCombination(s, n, t, d);
      CoprimeByCombination(-n, d, -s, t);
    }

    /** Order by cross-multiplication (done on BigInteger in the source, so exact). */
    function CompareTo(other: Rational): (c: int)
      ensures c == -1 || c == 0 || c == 1
      ensures c < 0 <==> n * other.d < other.n * d
      ensures c > 0 <==> n * other.d > other.n * d
    {
      var left, right := n * other.d, other.n * d;
      if left < right then -1 else if left > right then 1 else 0
    }

    /** `toLong()`: the quotient `n / d` rounded toward zero. */
    function ToLong(): (k: int)
      requires Valid()
      ensures 0 <= n ==> d * k <= n < d * (k + 1)
      ensures n < 0 ==> d * (k - 1) < n <= d * k
    {
      var k := Quot(n, d);
      assert d * (k + 1) == d * k + d && d * (k - 1) == d * k - d;
      k
    }

    /** `toInt()`: the truncated quotient, narrowed to 32 bits. */
    function ToInt(): (k: int)
      requires Valid()
      ensures -0x8000_0000 <= k < 0x8000_0000 && (ToLong() - k) % 0x1_0000_0000 == 0
    {
      Narrow(ToLong(), 0x8000_0000)
    }

    /** `toShort()`: the truncated quotient, narrowed to 16 bits. */
    function ToShort(): (k: int)
      requires Valid()
      ensures -0x8000 <= k < 0x8000 && (ToLong() - k) % 0x1_0000 == 0
    {
      Narrow(ToLong(), 0x8000)
    }

    /** `toByte()`: the truncated quotient, narrowed to 8 bits. */
    function ToByte(): (k: int)
      requires Valid()
      ensures -0x80 <= k < 0x80 && (ToLong() - k) % 0x100 == 0
    {
      Narrow(ToLong(), 0x80)
    }

    /** `toString()`: just the numerator for an integer, `n/d` otherwise; reading the text
        back gives the pair (see ToStringRoundTrip). */
    function ToString(): (s: string)
      ensures '/' in s <==> d != 1
      ensures d == 1 ==> s == Decimal(n)
      ensures d != 1 ==> s == Decimal(n) + "/" + Decimal(d)
    {
      if d == 1 then Decimal(n) else Decimal(n) + "/" + Decimal(d)
    }
  }

  /** Kotlin's narrowing conversion of a Long to a type of `2 * half` values. */
  function Narrow(x: int, half: int): (r: int)
    requires half > 0
    ensures -half <= r < half && (x - r) % (2 * half) == 0
    ensures -half <= x < half ==> r == x
  {
    NarrowFacts(x, half);
    var m := x % (2 * half);
    if m >= half then m - 2 * half else m
  }

  lemma NarrowFacts(x: int, half: int)
    requires half > 0
    ensures var m := x % (2 * half);
            (x - m) % (2 * half) == 0 && (x - (m - 2 * half)) % (2 * half) == 0 &&
            (-half <= x < half ==> x == (if m >= half then m - 2 * half else m))
  {
    var m := x % (2 * half);
    var q := x / (2 * half);
    assert x == (2 * half) * q + m;
    MultipleMod(2 * half, q);
    MultipleMod(2 * half, q + 1);
    assert (2 * half) * (q + 1) == (2 * half) * q + 2 * half;
    if -half <= x < half {
      SmallNarrow(x, half, q, m);
    }
  }

  lemma SmallNarrow(x: int, half: int, q: int, m: int)
    requires half > 0 && -half <= x < half && 0 <= m < 2 * half && x == (2 * half) * q + m
    ensures q == (if m >= half then -1 else 0)
  {
    if q > 0 {
      MulGrows(2 * half, q);
    } else if q < -1 {
      assert (2 * half) * q == -((2 * half) * -q);
      assert (2 * half) * -q == (2 * half) * (-q - 1) + 2 * half;
      MulGrows(2 * half, -q - 1);
    }
  }

  /** The number a string of decimal digits denotes, most significant digit first. */
  function DigitsValue(s: string): int {
    if s == [] then 0 else DigitsValue(s[..|s| - 1]) * 10 + (s[|s| - 1] as int - '0' as int)
  }

  /** The digits of x, most significant first, with no leading zero. */
  function Digits(x: nat): (s: string)
    ensures |s| > 0 && forall i :: 0 <= i < |s| ==> '0' <= s[i] <= '9'
    ensures DigitsValue(s) == x
    ensures x == 0 ==> s == "0"
    ensures x > 0 ==> s[0] != '0'
  {
    var last := ['0' + (x % 10) as char];
    if x < 10 then
      assert last[..0] == [];
      last
    else
      var front := Digits(x / 10);
      assert (front + last)[..|front|] == front;
      front + last
  }

  /** An integer read from decimal notation, a leading '-' negating it. */
  function ReadDecimal(s: string): int {
    if |s| > 0 && s[0] == '-' then -DigitsValue(s[1..]) else DigitsValue(s)
  }

  /** Decimal notation of an integer, with a leading '-' for a negative one. */
  function Decimal(x: int): (s: string)
    ensures '/' !in s && |s| > 0
    ensures ReadDecimal(s) == x
    ensures s[0] == '-' <==> x < 0
  {
    var digits := Digits(Abs(x));
    assert forall i :: 0 <= i < |digits| ==> digits[i] != '/';
    if x < 0 then
      assert ("-" + digits)[1..] == digits;
      "-" + digits
    else digits
  }

  /** The position of the first '/' in s, or |s| when there is none. */
  function SlashIndex(s: string): (i: nat)
    ensures i <= |s| && '/' !in s[..i]
    ensures i < |s| ==> s[i] == '/'
  {
    if s == [] then 0
    else if s[0] == '/' then 0
    else
      var i := 1 + SlashIndex(s[1..]);
      assert s[..i] == [s[0]] + s[1..][..i - 1];
      i
  }

  /** Reads `n` or `n/d` back into a numerator and a denominator. */
  function ReadRational(s: string): (int, int) {
    var i := SlashIndex(s);
    if i == |s| then (ReadDecimal(s), 1) else (ReadDecimal(s[..i]), ReadDecimal(s[i + 1..]))
  }

  lemma {:induction false} SlashAfter(a: string, b: string)
    requires '/' !in a
    ensures SlashIndex(a + "/" + b) == |a|
  {
    if a != [] {
      assert (a + "/" + b)[1..] == a[1..] + "/" + b;
      SlashAfter(a[1..], b);
    }
  }

  /** toString loses nothing: reading the text back gives the numerator and denominator. */
  lemma ToStringRoundTrip(r: Rational)
    ensures ReadRational(r.ToString()) == (r.n, r.d)
  {
    var s := r.ToString();
    if r.d == 1 {
      var i := SlashIndex(s);
      if i < |s| {
        assert s[i] in s;
      }
    } else {
      var a, b := Decimal(r.n), Decimal(r.d);
      SlashAfter(a, b);
      assert s[..|a|] == a;
      assert s[|a| + 1..] == b;
    }
  }

  /** compareTo agrees with equals: on valid rationals it is zero exactly when the two are
      equal, since the reduced form is unique. */
  lemma CompareToConsistentWithEquals(x: Rational, y: Rational)
    requires x.Valid() && y.Valid()
    ensures x.CompareTo(y) == 0 <==> x == y
  {
    if x.CompareTo(y) == 0 {
      Rational.CanonicalUnique(x, y);
    }
  }

  /** compareTo is antisymmetric. */
  lemma CompareToAntisymmetric(x: Rational, y: Rational)
    ensures x.CompareTo(y) == -y.CompareTo(x)
  {
  }

  /** compareTo is transitive on valid rationals. */
  lemma CompareToTransitive(x: Rational, y: Rational, z: Rational)
    requires x.Valid() && y.Valid() && z.Valid()
    requires x.CompareTo(y) < 0 && y.CompareTo(z) < 0
    ensures x.CompareTo(z) < 0
  {
    CrossTransitive(x.n, x.d, y.n, y.d, z.n, z.d);
  }

  lemma CrossTransitive(xn: int, xd: int, yn: int, yd: int, zn: int, zd: int)
    requires xd > 0 && yd > 0 && zd > 0
    requires xn * yd < yn * xd && yn * zd < zn * yd
    ensures xn * zd < zn * xd
  {
    MulLess(xn * yd, yn * xd, zd);
    MulLess(yn * zd, zn * yd, xd);
    assert (xn * yd) * zd == (xn * zd) * yd;
    assert (yn * xd) * zd == (yn * zd) * xd;
    assert (zn * yd) * xd == (zn * xd) * yd;
    if xn * zd >= zn * xd {
      assert (zn * xd - 1) * yd == (zn * xd) * yd - yd;
      MulLess(zn * xd - 1, xn * zd, yd);
    }
  }

  /** Subtraction is addition of the negation. */
  lemma MinusIsPlusNegated(x: Rational, y: Rational)
    requires x.Valid() && y.Valid()
    ensures x.Minus(y) == x.Plus(y.UnaryMinus())
  {
    var m := y.UnaryMinus();
    NegatedSum(x.n, x.d, y.n, y.d);
    assert x.n * m.d + m.n * x.d == x.n * y.d - y.n * x.d;
    assert x.d * m.d == x.d * y.d;
  }

  /** The numerator of x + (-y) before reduction is that of x - y. */
  lemma NegatedSum(xn: int, xd: int, yn: int, yd: int)
    ensures xn * yd + (-yn) * xd == xn * yd - yn * xd
  {
    assert (-yn) * xd == -(yn * xd);
  }

  /** Negating both a coefficient and its factor keeps the combination. */
  lemma NegatedCombination(s: int, n: int, t: int, d: int)
    ensures (-s) * (-n) + t * d == s * n + t * d
  {
    assert (-s) * (-n) == s * n;
  }

  /** A rational plus its negation is zero. */
  lemma PlusNegationIsZero(x: Rational)
    requires x.Valid()
    ensures x.Plus(x.UnaryMinus()) == Rational.Zero()
  {
    var r := x.Plus(x.UnaryMinus());
    ZeroSum(r.n, r.d, x.n, x.d);
    Rational.CanonicalUnique(r, Rational.Zero());
  }

  lemma ZeroSum(rn: int, rd: int, n: int, d: int)
    requires d > 0 && rn * (d * d) == (n * d + (-n) * d) * rd
    ensures rn == 0
  {
    assert (-n) * d == -(n * d);
    PositiveProduct(d, d);
    assert (d * d) * rn == 0;
    ProductZero(d * d, rn);
  }

  /** Adding then subtracting the same rational gives back the original. */
  lemma MinusUndoesPlus(x: Rational, y: Rational)
    requires x.Valid() && y.Valid()
    ensures x.Plus(y).Minus(y) == x
  {
    var s := x.Plus(y);
    var r := s.Minus(y);
    PositiveProduct(s.d, y.d);
    PositiveProduct(s.d * y.d, y.d);
    SumDifferenceAlgebra(x.n, x.d, y.n, y.d, s.n, s.d, r.n, r.d);
    Cancel(r.n * x.d, x.n * r.d, s.d * y.d * y.d);
    Rational.CanonicalUnique(r, x);
  }

  lemma SumDifferenceAlgebra(xn: int, xd: int, yn: int, yd: int, sn: int, sd: int, rn: int, rd: int)
    requires sn * (xd * yd) == (xn * yd + yn * xd) * sd
    requires rn * (sd * yd) == (sn * yd - yn * sd) * rd
    ensures (rn * xd) * (sd * yd * yd) == (xn * rd) * (sd * yd * yd)
  {
    calc {
      (rn * xd) * (sd * yd * yd);
      (rn * (sd * yd)) * (xd * yd);
      ((sn * yd - yn * sd) * rd) * (xd * yd);
      (sn * (xd * yd)) * (yd * rd) - (yn * sd * rd) * (xd * yd);
      ((xn * yd + yn * xd) * sd) * (yd * rd) - (yn * sd * rd) * (xd * yd);
      (xn * rd) * (sd * yd * yd);
    }
  }

  /** Dividing then multiplying by the same non-zero rational gives back the original. */
  lemma TimesUndoesDiv(x: Rational, y: Rational)
    requires x.Valid() && y.Valid() && y.n != 0
    ensures x.Div(y).Ok? && x.Div(y).value.Times(y) == x
  {
    var q := x.Div(y).value;
    var r := q.Times(y);
    PositiveProduct(q.d, y.d);
    QuotientProductAlgebra(x.n, x.d, y.n, y.d, q.n, q.d, r.n, r.d);
    Cancel(r.n * x.d, x.n * r.d, q.d * y.d);
    Rational.CanonicalUnique(r, x);
  }

  lemma QuotientProductAlgebra(xn: int, xd: int, yn: int, yd: int, qn: int, qd: int, rn: int, rd: int)
    requires qn * (xd * yn) == (xn * yd) * qd
    requires rn * (qd * yd) == (qn * yn) * rd
    ensures (rn * xd) * (qd * yd) == (xn * rd) * (qd * yd)
  {
    calc {
      (rn * xd) * (qd * yd);
      (rn * (qd * yd)) * xd;
      ((qn * yn) * rd) * xd;
      (qn * (xd * yn)) * rd;
      ((xn * yd) * qd) * rd;
      (xn * rd) * (qd * yd);
    }
  }

  /** An integer k converts to the rational k/1 and back. */
  lemma IntegerRoundTrip(k: int)
    ensures Rational.New(k, 1).Ok? && Rational.New(k, 1).value == Rational(k, 1)
    ensures Rational.New(k, 1).value.ToLong() == k
    ensures Rational.New(k, 1).value.ToString() == Decimal(k)
  {
    var r := Rational.New(k, 1).value;
    CoprimeByCombination(k, 1, 0, 1);
    Rational.CanonicalUnique(r, Rational(k, 1));
    QuotExact(1, k);
  }
}
