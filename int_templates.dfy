/**
 The integer helper templates at the top of the 29 score keeper: Euclid's gcd,
 lcm, max, min, and the two square-and-multiply loops power and bigmod.

 The templates are instantiated with C++ integer types, whose `/` and `%`
 truncate toward zero. Dafny's `/` and `%` are Euclidean, so the C++
 operators are written out as Quot and Rem. Integers are unbounded here.
 */
module IntTemplates {

  function Abs(x: int): nat
  {
    if x < 0 then -x else x
  }

  /** `d` divides `n`: some integer multiple of `d` is `n`. */
  ghost predicate Divides(d: int, n: int)
  {
    exists k :: n == d * k
  }

  /** C++ integer division `x / y`: the quotient truncated toward zero. */
  function Quot(x: int, y: int): (q: int)
    requires y != 0
    ensures Abs(q) == Abs(x) / Abs(y)
    ensures q == 0 || (q < 0 <==> (x < 0) != (y < 0))
  {
    var a := Abs(x) / Abs(y);
    DivNonneg(Abs(x), Abs(y));
    if (x < 0) == (y < 0) then a else -a
  }

  lemma DivNonneg(n: nat, d: nat)
    requires 0 < d
    ensures 0 <= n / d
  {
  }

  /** C++ remainder `x % y`: what is left after truncated division. It has
      the sign of `x`, is smaller than `y` in magnitude, and differs from `x`
      by a multiple of `y`; on non-negative operands it is Dafny's `%`. */
  function Rem(x: int, y: int): (r: int)
    requires y != 0
    ensures Abs(r) < Abs(y)
    ensures r == 0 || (r < 0 <==> x < 0)
    ensures Divides(y, x - r)
    ensures 0 <= x && 0 < y ==> r == x % y
  {
    var q, m := Abs(x) / Abs(y), Abs(x) % Abs(y);
    assert Abs(x) == q * Abs(y) + m;
    MulNeg(q, y);
    var r := x - Quot(x, y) * y;
    assert x - r == y * Quot(x, y);
    assert r == if x < 0 then -m else m;
    r
  }

  lemma MulNeg(a: int, b: int)
    ensures (-a) * b == -(a * b) && a * (-b) == -(a * b)
  {
  }

  lemma MulAssoc(a: int, b: int, c: int)
    ensures (a * b) * c == a * (b * c)
  {
  }

  lemma MulSub(a: int, b: int, c: int)
    ensures a * (b - c) == a * b - a * c
  {
  }

  lemma MulAdd(a: int, b: int, c: int)
    ensures a * (b + c) == a * b + a * c
  {
  }

  /** A multiple of `d` that is smaller than `d` in magnitude is zero. */
  lemma SmallMultipleIsZero(d: int, n: int)
    requires d != 0 && Divides(d, n) && Abs(n) < Abs(d)
    ensures n == 0
  {
    var k :| n == d * k;
    MulAbs(d, k);
  }

  lemma MulAbs(a: int, b: int)
    ensures b == 0 || Abs(a) <= Abs(a * b)
  {
    if a < 0 && b < 0 {
      assert a * b == (-a) * (-b);
    } else if a < 0 {
      assert a * b == -((-a) * b);
    } else if b < 0 {
      assert a * b == -(a * (-b));
    }
    assert Abs(a * b) == Abs(a) * Abs(b);
    if b != 0 {
      MulMono(Abs(a), Abs(b));
    }
  }

  lemma MulMono(p: nat, q: nat)
    requires 1 <= q
    ensures p <= p * q
  {
    MulSub(p, q, 1);
    MulNonneg(p, q - 1);
  }

  /** Dividing a multiple of `d` by `d` in C++ loses nothing. */
  lemma QuotExact(x: int, d: int)
    requires d != 0 && Divides(d, x)
    ensures Quot(x, d) * d == x
  {
    var r := Rem(x, d);
    var a :| x == d * a;
    var b :| x - r == d * b;
    assert r == d * (a - b);
    SmallMultipleIsZero(d, r);
  }

  /** If `d` divides both operands of `%`, it divides the C++ remainder. */
  lemma DividesRem(d: int, x: int, y: int)
    requires y != 0 && Divides(d, x) && Divides(d, y)
    ensures Divides(d, Rem(x, y))
  {
    var r := Rem(x, y);
    var a :| x == d * a;
    var b :| y == d * b;
    var c :| x - r == y * c;
    MulAssoc(d, b, c);
    MulSub(d, a, b * c);
    assert r == d * (a - b * c);
  }

  /** gcd (29-game/source.cpp:21): Euclid's algorithm, `gcd(x, 0) == x` and
      `gcd(x, y) == gcd(y, x % y)` with C++ `%`. The result divides both
      arguments, is zero only for two zero arguments, and is non-negative
      on non-negative arguments. */
  function Gcd(x: int, y: int): (r: int)
    ensures Divides(r, x) && Divides(r, y)
    ensures r == 0 <==> x == 0 && y == 0
    ensures 0 <= x && 0 <= y ==> 0 <= r
    decreases Abs(y)
  {
    if y == 0 then
      assert x == x * 1 && 0 == x * 0;
      x
    else
      var r := Gcd(y, Rem(x, y));
      assert Divides(r, x) by {
        var u :| y == r * u;
        var v :| Rem(x, y) == r * v;
        var c :| x - Rem(x, y) == y * c;
        MulAssoc(r, u, c);
        MulAdd(r, v, u * c);
        assert x == r * (v + u * c);
      }
      r
  }

  /** Every common divisor of `x` and `y` divides `gcd(x, y)`. */
  lemma {:induction false} GcdGreatest(d: int, x: int, y: int)
    requires Divides(d, x) && Divides(d, y)
    ensures Divides(d, Gcd(x, y))
    decreases Abs(y)
  {
    if y != 0 {
      DividesRem(d, x, y);
      GcdGreatest(d, y, Rem(x, y));
    }
  }

  /** Bezout's identity for the recursion: `gcd(x, y)` is an integer
      combination of `x` and `y`. */
  lemma {:induction false} Bezout(x: int, y: int) returns (s: int, t: int)
    ensures s * x + t * y == Gcd(x, y)
    decreases Abs(y)
  {
    if y == 0 {
      s, t := 1, 0;
    } else {
      var s', t' := Bezout(y, Rem(x, y));
      var q := Quot(x, y);
      assert Rem(x, y) == x - q * y;
      s, t := t', s' - t' * q;
      BezoutStep(x, y, q, s', t');
    }
  }

  lemma BezoutStep(x: int, y: int, q: int, s: int, t: int)
    ensures t * x + (s - t * q) * y == s * y + t * (x - q * y)
  {
  }

  /** lcm (29-game/source.cpp:22): `(x / gcd(x, y)) * y` with C++ `/`. The C++
      division is by zero when both arguments are zero. The result is a common
      multiple of `x` and `y`, its product with the gcd is `x * y`, and it is
      positive on positive arguments. */
  function Lcm(x: int, y: int): (r: int)
    requires x != 0 || y != 0
    ensures Divides(x, r) && Divides(y, r)
    ensures r * Gcd(x, y) == x * y
    ensures 0 < x && 0 < y ==> 0 < r
  {
    var g := Gcd(x, y);
    QuotExact(x, g);
    LcmFromQuotient(x, y, g, Quot(x, g));
    Quot(x, g) * y
  }

  /** `q * y` is the lcm once `q * g == x` for a divisor `g` of `y`. */
  lemma LcmFromQuotient(x: int, y: int, g: int, q: int)
    requires Divides(g, y) && q * g == x && (0 < x && 0 < y ==> 0 < g)
    ensures Divides(x, q * y) && Divides(y, q * y)
    ensures (q * y) * g == x * y
    ensures 0 < x && 0 < y ==> 0 < q * y
  {
    var b :| y == g * b;
    LcmArith(x, y, g, b, q);
    assert q * y == y * q;
  }

  lemma LcmArith(x: int, y: int, g: int, b: int, q: int)
    requires y == g * b && q * g == x && (0 < x && 0 < y ==> 0 < g)
    ensures q * y == x * b
    ensures (q * y) * g == x * y
    ensures 0 < x && 0 < y ==> 0 < q * y
  {
    MulAssoc(q, g, b);
    if 0 < x && 0 < y {
      MulPos(q, g);
    }
  }

  lemma MulPos(q: int, g: int)
    requires 0 < g && 0 < q * g
    ensures 0 < q
  {
  }

  /** Every common multiple of `x` and `y` is a multiple of `lcm(x, y)`. */
  lemma LcmLeast(x: int, y: int, m: int)
    requires x != 0 || y != 0
    requires Divides(x, m) && Divides(y, m)
    ensures Divides(Lcm(x, y), m)
  {
    var g, l := Gcd(x, y), Lcm(x, y);
    var s, t := Bezout(x, y);
    var u :| m == x * u;
    var v :| m == y * v;
    var k := v * s + u * t;
    LcmLeastStep(x, y, m, u, v, s, t, g, l);
    MulCancel(m, l * k, g);
  }

  lemma LcmLeastStep(x: int, y: int, m: int, u: int, v: int, s: int, t: int, g: int, l: int)
    requires m == x * u && m == y * v && g == s * x + t * y && l * g == x * y
    ensures m * g == (l * (v * s + u * t)) * g
  {
  }

  lemma MulCancel(a: int, b: int, g: int)
    requires g != 0 && a * g == b * g
    ensures a == b
  {
  }

  /** maxt (29-game/source.cpp:23): the larger of the two arguments. */
  function Maxt(x: int, y: int): (r: int)
    ensures x <= r && y <= r
    ensures r == x || r == y
  {
    if x > y then x else y
  }

  /** mint (29-game/source.cpp:24): the smaller of the two arguments. */
  function Mint(x: int, y: int): (r: int)
    ensures r <= x && r <= y
    ensures r == x || r == y
  {
    if x < y then x else y
  }

  /** `b` raised to the `e`, by repeated multiplication. */
  function Pow(b: int, e: nat): int
  {
    if e == 0 then 1 else b * Pow(b, e - 1)
  }

  lemma {:induction false} PowAdd(b: int, e: nat, f: nat)
    ensures Pow(b, e + f) == Pow(b, e) * Pow(b, f)
    decreases e
  {
    if e != 0 {
      PowAdd(b, e - 1, f);
    }
  }

  /** Squaring the base halves the exponent. */
  lemma {:induction false} PowSquare(b: int, k: nat)
    ensures Pow(b * b, k) == Pow(b, 2 * k)
  {
    if k != 0 {
      PowSquare(b, k - 1);
      PowAdd(b, 2, 2 * k - 2);
    }
  }

  /** One step of square-and-multiply: an exponent is its low bit plus twice
      its high bits. */
  lemma PowHalve(b: int, e: nat)
    ensures Pow(b, e) == (if e % 2 == 1 then b else 1) * Pow(b * b, e / 2)
  {
    PowSquare(b, e / 2);
    if e % 2 == 1 {
      assert e == 2 * (e / 2) + 1;
    } else {
      assert e == 2 * (e / 2);
    }
  }

  /** power (29-game/source.cpp:25): square-and-multiply, with `y & 1` and
      `y >>= 1` read as `y % 2` and `y / 2` on a non-negative exponent. */
  method Power(x: int, y: int) returns (res: int)
    requires 0 <= y
    ensures res == Pow(x, y)
  {
    res := 1;
    var a, e := x, y;
    while e != 0
      invariant 0 <= e
      invariant res * Pow(a, e) == Pow(x, y)
      decreases e
    {
      PowHalve(a, e);
      if e % 2 == 1 {
        res := res * a;
      }
      a := a * a;
      e := e / 2;
    }
  }

  lemma MulNonneg(a: int, b: int)
    requires 0 <= a && 0 <= b
    ensures 0 <= a * b
  {
  }

  lemma ModIdem(n: int, m: int)
    requires 0 < m
    ensures (n % m) % m == n % m
  {
  }

  /** Multiplying by congruent factors gives congruent products. */
  lemma MulMod(p: int, q: int, m: int)
    requires 0 < m
    ensures (p * q) % m == ((p % m) * (q % m)) % m
  {
    var p1, q1 := p / m, q / m;
    var p0, q0 := p % m, q % m;
    assert p == p1 * m + p0 && q == q1 * m + q0;
    var k := p1 * q1 * m + p1 * q0 + p0 * q1;
    ExpandProduct(p1, p0, q1, q0, m);
    assert p * q == k * m + p0 * q0;
    ModAddMultiple(p0 * q0, k, m);
  }

  lemma ExpandProduct(p1: int, p0: int, q1: int, q0: int, m: int)
    ensures (p1 * m + p0) * (q1 * m + q0) == (p1 * q1 * m + p1 * q0 + p0 * q1) * m + p0 * q0
  {
  }

  /** Adding a multiple of `m` does not change the remainder. */
  lemma ModAddMultiple(n: int, k: int, m: int)
    requires 0 < m
    ensures (k * m + n) % m == n % m
  {
    var a := k * m + n;
    var d := a / m - n / m - k;
    assert a == (a / m) * m + a % m;
    assert n == (n / m) * m + n % m;
    assert d * m == n % m - a % m;
    MulAbs(m, d);
  }

  lemma MulCongruent(p: int, q: int, p': int, q': int, m: int)
    requires 0 < m && p % m == p' % m && q % m == q' % m
    ensures (p * q) % m == (p' * q') % m
  {
    MulMod(p, q, m);
    MulMod(p', q', m);
  }

  /** Reducing the base does not change the power's remainder. */
  lemma {:induction false} PowMod(b: int, e: nat, m: int)
    requires 0 < m
    ensures Pow(b % m, e) % m == Pow(b, e) % m
  {
    if e != 0 {
      var c := b % m;
      PowMod(b, e - 1, m);
      ModIdem(b, m);
      MulCongruent(c, Pow(c, e - 1), b, Pow(b, e - 1), m);
      assert Pow(c, e) == c * Pow(c, e - 1);
    }
  }

  /** Congruent bases give congruent powers. */
  lemma PowCongruent(b: int, c: int, e: nat, m: int)
    requires 0 < m && b % m == c % m
    ensures Pow(b, e) % m == Pow(c, e) % m
  {
    PowMod(b, e, m);
    PowMod(c, e, m);
  }

  /** bigmod (29-game/source.cpp:26): square-and-multiply with every product reduced
      by C++ `%`. Exponent zero skips the loop and returns 1 unreduced;
      otherwise the result is `x^y % mod` and so lies in `[0, mod)`. */
  method Bigmod(x: int, y: int, mod: int) returns (res: int)
    requires 0 <= x && 0 <= y && 0 < mod
    ensures y == 0 ==> res == 1
    ensures 0 < y ==> res == Pow(x, y) % mod && 0 <= res < mod
  {
    res := 1;
    var a, e := x, y;
    while e != 0
      invariant 0 <= e <= y && 0 <= a && 0 <= res
      invariant (res * Pow(a, e)) % mod == Pow(x, y) % mod
      invariant e == y ==> res == 1
      invariant 0 < y && e == 0 ==> res < mod
      decreases e
    {
      BigmodStep(res, a, e, mod);
      if e % 2 == 1 {
        res := Rem(res * a, mod);
      }
      a := Rem(Rem(a, mod) * Rem(a, mod), mod);
      e := e / 2;
    }
    BigmodDone(res, a, mod);
  }

  /** One iteration of bigmod keeps `res * a^e` congruent to `x^y`, keeps
      every value non-negative, and leaves `res` reduced when it ends the loop. */
  lemma BigmodStep(res: int, a: int, e: nat, mod: int)
    requires 0 < mod && 0 <= res && 0 <= a && e != 0
    ensures var res' := if e % 2 == 1 then Rem(res * a, mod) else res;
            var a' := Rem(Rem(a, mod) * Rem(a, mod), mod);
            0 <= res' && 0 <= a' &&
            (res' * Pow(a', e / 2)) % mod == (res * Pow(a, e)) % mod &&
            (e / 2 == 0 ==> res' < mod)
  {
    var bit := if e % 2 == 1 then a else 1;
    MulNonneg(res, a);
    var res' := if e % 2 == 1 then Rem(res * a, mod) else res;
    if e % 2 == 1 {
      ModIdem(res * a, mod);
    } else {
      assert res * 1 == res;
    }
    var am := Rem(a, mod);
    MulNonneg(am, am);
    var a' := Rem(am * am, mod);
    MulMod(a, a, mod);
    ModIdem(am * am, mod);
    var h := e / 2;
    PowHalve(a, e);
    PowCongruent(a', a * a, h, mod);
    MulCongruent(res', Pow(a', h), res * bit, Pow(a * a, h), mod);
    MulAssoc(res, bit, Pow(a * a, h));
  }

  /** When the loop of bigmod ends, the congruence is the result. */
  lemma BigmodDone(res: int, a: int, mod: int)
    requires 0 < mod
    ensures res * Pow(a, 0) == res
    ensures 0 <= res < mod ==> res % mod == res
  {
  }
}
