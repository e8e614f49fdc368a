/**
 * The extended Euclidean algorithm and what the toolkit builds on it:
 * gcd of two numbers and of a list, lcm of two numbers and of a list, and
 * the modular inverse.
 */
module Euclid {
  import opened Arith

  function Abs(a: int): (r: nat)
    ensures r == a || r == -a
  {
    if a < 0 then -a else a
  }

  /** +1 or -1, the sign extended_gcd gives back to a coefficient. */
  function SignOf(a: int): int
  {
    if a < 0 then -1 else 1
  }

  /**
   * The remaining iterations of extended_gcd's loop, from the state
   * (lastremainder, remainder, x, lastx, y, lasty) to the triple the
   * function returns before the signs are restored. The remainder it ends
   * on is non-negative and is 0 only when both starting remainders are.
   */
  function EuclidSteps(lastr: int, r: int, x: int, lastx: int, y: int, lasty: int): (res: (int, int, int))
    requires lastr >= 0 && r >= 0
    ensures res.0 >= 0 && (res.0 == 0 <==> lastr == 0 && r == 0)
    decreases r
  {
    if r == 0 then (lastr, lastx, lasty)
    else
      var q := lastr / r;
      EuclidSteps(r, lastr % r, lastx - q * x, x, lasty - q * y, y)
  }

  /** The loop ends on a non-negative common divisor of the two remainders it started from. */
  lemma {:induction false} EuclidStepsDivides(lastr: int, r: int, x: int, lastx: int, y: int, lasty: int)
    requires lastr >= 0 && r >= 0
    ensures var res := EuclidSteps(lastr, r, x, lastx, y, lasty); res.0 >= 0 && Divides(res.0, lastr) && Divides(res.0, r)
    decreases r
  {
    if r == 0 {
      DividesSelf(lastr);
    } else {
      var q := lastr / r;
      EuclidStepsDivides(r, lastr % r, lastx - q * x, x, lasty - q * y, y);
      var res := EuclidSteps(r, lastr % r, lastx - q * x, x, lasty - q * y, y);
      DividesLinear(res.0, r, lastr % r, q, 1);
      DivModIdentity(lastr, r);
    }
  }

  /** The loop keeps lastx*A + lasty*B == lastremainder and x*A + y*B == remainder. */
  lemma {:induction false} EuclidStepsBezout(A: int, B: int, lastr: int, r: int, x: int, lastx: int, y: int, lasty: int)
    requires lastr >= 0 && r >= 0
    requires lastx * A + lasty * B == lastr && x * A + y * B == r
    ensures var res := EuclidSteps(lastr, r, x, lastx, y, lasty); res.1 * A + res.2 * B == res.0
    decreases r
  {
    if r != 0 {
      var q := lastr / r;
      assert (lastx - q * x) * A + (lasty - q * y) * B == lastr - q * r;
      EuclidStepsBezout(A, B, r, lastr % r, lastx - q * x, x, lasty - q * y, y);
    }
  }

  lemma DividesAbs(d: int, a: int)
    requires Divides(d, Abs(a))
    ensures Divides(d, a)
  {
    if a < 0 {
      DividesMul(d, Abs(a), -1);
    }
  }

  /**
   * extended_gcd(a, b) as a value: (g, x, y) with g >= 0 a common divisor of
   * a and b and the Bezout identity g == x*a + y*b.
   */
  function ExtendedGcd(a: int, b: int): (res: (int, int, int))
    ensures res.0 >= 0
    ensures res.0 == res.1 * a + res.2 * b
    ensures Divides(res.0, a) && Divides(res.0, b)
  {
    var t := EuclidSteps(Abs(a), Abs(b), 0, 1, 1, 0);
    RestoreSigns(a, b, t.0, t.1, t.2);
    (t.0, t.1 * SignOf(a), t.2 * SignOf(b))
  }

  /** Giving the coefficients back the signs of a and b keeps the Bezout identity. */
  lemma RestoreSigns(a: int, b: int, g: int, x: int, y: int)
    requires (g, x, y) == EuclidSteps(Abs(a), Abs(b), 0, 1, 1, 0)
    ensures g >= 0 && g == (x * SignOf(a)) * a + (y * SignOf(b)) * b
    ensures Divides(g, a) && Divides(g, b)
  {
    EuclidStepsBezout(Abs(a), Abs(b), Abs(a), Abs(b), 0, 1, 1, 0);
    EuclidStepsDivides(Abs(a), Abs(b), 0, 1, 1, 0);
    DividesAbs(g, a);
    DividesAbs(g, b);
    SignTimesAbs(x, a);
    SignTimesAbs(y, b);
  }

  lemma SignTimesAbs(t: int, a: int)
    ensures t * Abs(a) == (t * SignOf(a)) * a
  {
    if a < 0 {
      assert t * Abs(a) == t * (-a);
    }
  }

  /**
   * extended_gcd(a, b)[1], the coefficient of a, on its own: the same value
   * as ExtendedGcd(a, b).1 (BezoutCoefficientIsExtendedGcd), without the
   * facts about the whole triple.
   */
  function BezoutCoefficient(a: int, b: int): int
  {
    EuclidSteps(Abs(a), Abs(b), 0, 1, 1, 0).1 * SignOf(a)
  }

  lemma BezoutCoefficientIsExtendedGcd(a: int, b: int)
    ensures BezoutCoefficient(a, b) == ExtendedGcd(a, b).1
  {
  }

  /** extended_gcd itself: the while loop over the six state variables. */
  method ComputeExtendedGcd(a: int, b: int) returns (g: int, ca: int, cb: int)
    ensures (g, ca, cb) == ExtendedGcd(a, b)
    ensures g >= 0 && g == ca * a + cb * b
    ensures Divides(g, a) && Divides(g, b)
  {
    var lastremainder, remainder := Abs(a), Abs(b);
    var x, lastx, y, lasty := 0, 1, 1, 0;
    while remainder != 0
      invariant lastremainder >= 0 && remainder >= 0
      invariant EuclidSteps(lastremainder, remainder, x, lastx, y, lasty) == EuclidSteps(Abs(a), Abs(b), 0, 1, 1, 0)
      decreases remainder
    {
      var quotient := lastremainder / remainder;
      lastremainder, remainder := remainder, lastremainder % remainder;
      x, lastx := lastx - quotient * x, x;
      y, lasty := lasty - quotient * y, y;
    }
    g, ca, cb := lastremainder, lastx * SignOf(a), lasty * SignOf(b);
  }

  /** gcd(a, b): a non-negative common divisor, zero only for gcd(0, 0). */
  function Gcd(a: int, b: int): (g: int)
    ensures g >= 0 && Divides(g, a) && Divides(g, b)
    ensures g == 0 <==> a == 0 && b == 0
  {
    ExtendedGcd(a, b).0
  }

  /** Every common divisor of a and b divides gcd(a, b): it is the greatest. */
  lemma GcdGreatest(a: int, b: int, d: int)
    requires Divides(d, a) && Divides(d, b)
    ensures Divides(d, Gcd(a, b))
  {
    var t := ExtendedGcd(a, b);
    DividesLinear(d, a, b, t.1, t.2);
  }

  /** Any Bezout combination equal to 1 makes a and b coprime. */
  lemma BezoutCoprime(a: int, b: int, x: int, y: int)
    requires x * a + y * b == 1
    ensures Gcd(a, b) == 1
  {
    var g := Gcd(a, b);
    DividesLinear(g, a, b, x, y);
    DividesBound(g, 1);
  }

  /** A product of two numbers coprime to n is coprime to n. */
  lemma CoprimeMul(a: int, b: int, n: int)
    requires Gcd(a, n) == 1 && Gcd(b, n) == 1
    ensures Gcd(a * b, n) == 1
  {
    var t1, t2 := ExtendedGcd(a, n), ExtendedGcd(b, n);
    var x1, y1, x2, y2 := t1.1, t1.2, t2.1, t2.2;
    BezoutProduct(x1, a, y1, n, x2, b, y2);
    BezoutCoprime(a * b, n, x1 * x2, x1 * a * y2 + y1 * x2 * b + y1 * y2 * n);
  }

  lemma BezoutProduct(x1: int, a: int, y1: int, n: int, x2: int, b: int, y2: int)
    requires x1 * a + y1 * n == 1 && x2 * b + y2 * n == 1
    ensures (x1 * x2) * (a * b) + (x1 * a * y2 + y1 * x2 * b + y1 * y2 * n) * n == 1
  {
    var u, v := x1 * a, x2 * b;
    assert (x1 * x2) * (a * b) == u * v;
    assert (x1 * a * y2 + y1 * x2 * b + y1 * y2 * n) * n == u * (y2 * n) + (y1 * n) * v + (y1 * n) * (y2 * n);
    assert (u + y1 * n) * (v + y2 * n) == 1;
  }

  /** Coprime divisors of d divide d together. */
  lemma CoprimeDividesProduct(a: int, b: int, d: int)
    requires Gcd(a, b) == 1 && Divides(a, d) && Divides(b, d)
    ensures Divides(a * b, d)
  {
    var t := ExtendedGcd(a, b);
    if d == 0 {
      DividesIntro(a * b, d, 0);
    } else {
      DividesElim(a, d);
      DividesElim(b, d);
      CoprimeCombination(a, b, d, t.1, t.2, d / a, d / b);
      DividesIntro(a * b, d, t.1 * (d / b) + t.2 * (d / a));
    }
  }

  lemma CoprimeCombination(a: int, b: int, d: int, x: int, y: int, s: int, u: int)
    requires x * a + y * b == 1 && d == a * s && d == b * u
    ensures d == (a * b) * (x * u + y * s)
  {
    calc {
      d;
      d * (x * a + y * b);
      x * (a * d) + y * (b * d);
      { assert a * d == a * (b * u); assert b * d == b * (a * s); }
      x * (a * (b * u)) + y * (b * (a * s));
      (a * b) * (x * u + y * s);
    }
  }

  /** A number a prime does not divide is coprime to it. */
  lemma PrimeCoprime(x: int, p: int)
    requires IsPrime(p) && !Divides(p, x)
    ensures Gcd(x, p) == 1
  {
    var g := Gcd(x, p);
    DividesBound(g, p);
  }

  /** Euclid's lemma: a prime dividing a product divides one of its factors. */
  lemma PrimeDividesFactor(p: int, a: int, b: int)
    requires IsPrime(p) && Divides(p, a * b)
    ensures Divides(p, a) || Divides(p, b)
  {
    if !Divides(p, a) {
      PrimeCoprime(a, p);
      var t := ExtendedGcd(a, p);
      DividesElim(p, a * b);
      EuclidLemmaAlgebra(a, b, p, t.1, t.2, (a * b) / p);
      DividesIntro(p, b, t.1 * ((a * b) / p) + t.2 * b);
    }
  }

  lemma EuclidLemmaAlgebra(a: int, b: int, p: int, x: int, y: int, k: int)
    requires x * a + y * p == 1 && a * b == p * k
    ensures b == p * (x * k + y * b)
  {
    calc {
      b;
      b * (x * a + y * p);
      x * (a * b) + y * p * b;
      x * (p * k) + y * p * b;
      p * (x * k + y * b);
    }
  }

  /**
   * gcd_multi: reduce(gcd, numbers), the left fold of gcd; a singleton
   * list gives its element back unchanged.
   */
  function GcdMulti(ns: seq<int>): (g: int)
    requires |ns| > 0
    ensures forall i :: 0 <= i < |ns| ==> Divides(g, ns[i])
    ensures |ns| == 1 ==> g == ns[0]
    ensures |ns| > 1 ==> g >= 0
  {
    if |ns| == 1 then
      DividesSelf(ns[0]);
      ns[0]
    else
      var init := GcdMulti(ns[..|ns| - 1]);
      var g := Gcd(init, ns[|ns| - 1]);
      forall i | 0 <= i < |ns| - 1
        ensures Divides(g, ns[i])
      {
        assert ns[..|ns| - 1][i] == ns[i];
        DividesTrans(g, init, ns[i]);
      }
      g
  }

  /** Every common divisor of the list divides gcd_multi of it. */
  lemma {:induction false} GcdMultiGreatest(ns: seq<int>, d: int)
    requires |ns| > 0
    requires forall i :: 0 <= i < |ns| ==> Divides(d, ns[i])
    ensures Divides(d, GcdMulti(ns))
    decreases |ns|
  {
    if |ns| > 1 {
      var init := ns[..|ns| - 1];
      GcdMultiGreatest(init, d);
      GcdGreatest(GcdMulti(init), ns[|ns| - 1], d);
    }
  }

  /** Division by a non-zero divisor of n is exact. */
  lemma ExactDivision(n: int, d: int)
    requires d != 0 && Divides(d, n)
    ensures (n / d) * d == n
  {
    DividesElim(d, n);
  }

  /**
   * lcm(a, b) == a*b / gcd(a, b): lcm times gcd is exactly a*b, and the
   * result is a multiple of both a and b.
   */
  function Lcm(a: int, b: int): (l: int)
    requires a != 0 || b != 0
    ensures l * Gcd(a, b) == a * b
    ensures Divides(a, l) && Divides(b, l)
  {
    var g := Gcd(a, b);
    DividesElim(g, a);
    DividesElim(g, b);
    LcmAlgebraOfCofactors(a, b, g, a / g, b / g);
    a * b / g
  }

  /** With a == g*qa and b == g*qb, a*b / g is qa*b == a*qb, and times g it is a*b. */
  lemma LcmAlgebraOfCofactors(a: int, b: int, g: int, qa: int, qb: int)
    requires g > 0 && a == g * qa && b == g * qb
    ensures (a * b / g) * g == a * b
    ensures Divides(a, a * b / g) && Divides(b, a * b / g)
  {
    var l := qa * b;
    assert a * b == g * l + 0 by {
      assert a * b == (g * qa) * b;
    }
    DivModUnique(a * b, g, l, 0);
    assert l == a * qb by {
      assert qa * (g * qb) == (g * qa) * qb;
    }
    DividesIntro(b, l, qa);
    DividesIntro(a, l, qb);
  }

  lemma MulCancel(g: int, x: int, y: int)
    requires g != 0 && g * x == g * y
    ensures x == y
  {
    assert g * (x - y) == 0;
  }

  /** Every common multiple of a and b is a multiple of lcm(a, b). */
  lemma LcmLeast(a: int, b: int, m: int)
    requires a != 0 || b != 0
    requires Divides(a, m) && Divides(b, m)
    ensures Divides(Lcm(a, b), m)
  {
    var g, l := Gcd(a, b), Lcm(a, b);
    var t := ExtendedGcd(a, b);
    if a == 0 || b == 0 {
      DividesIntro(l, m, 0);
    } else {
      DividesElim(a, m);
      DividesElim(b, m);
      LcmAlgebra(a, b, g, l, m, t.1, t.2, m / a, m / b);
      DividesIntro(l, m, t.1 * (m / b) + t.2 * (m / a));
    }
  }

  lemma LcmAlgebra(a: int, b: int, g: int, l: int, m: int, x: int, y: int, s: int, u: int)
    requires g != 0 && x * a + y * b == g && l * g == a * b && m == a * s && m == b * u
    ensures m == l * (x * u + y * s)
  {
    calc {
      m * g;
      m * (x * a + y * b);
      x * (a * m) + y * (b * m);
      { assert a * m == a * (b * u); assert b * m == b * (a * s); }
      x * (a * (b * u)) + y * (b * (a * s));
      (a * b) * (x * u + y * s);
      (l * g) * (x * u + y * s);
      g * (l * (x * u + y * s));
    }
    MulCancel(g, m, l * (x * u + y * s));
  }

  /** An element's divisor divides the product of the list. */
  lemma DividesProductOfList(d: int, s: seq<int>, j: nat)
    requires j < |s| && Divides(d, s[j])
    ensures Divides(d, Product(s))
  {
    ElementDividesProduct(s, j);
    DividesTrans(d, s[j], Product(s));
  }

  /**
   * lcm_multi: multiply(numbers) / gcd_multi(numbers). The division is
   * exact: the result times gcd_multi is the product of the list.
   */
  function LcmMulti(ns: seq<int>): (l: int)
    requires |ns| > 0 && GcdMulti(ns) != 0
    ensures l * GcdMulti(ns) == Product(ns)
  {
    DividesProductOfList(GcdMulti(ns), ns, 0);
    ExactDivision(Product(ns), GcdMulti(ns));
    Product(ns) / GcdMulti(ns)
  }

  /** x is a multiple of every element of ns. */
  predicate CommonMultiple(ns: seq<int>, m: int)
  {
    forall i :: 0 <= i < |ns|
      ==> Divides(ns[i], m)
  }

  /**
   * lcm_multi is not the least common multiple once there are three
   * numbers: for [2, 2, 2] it gives 8 / 2 == 4, yet 2 is a common multiple
   * that 4 does not divide.
   */
  lemma LcmMultiNotLeast()
    ensures LcmMulti([2, 2, 2]) == 4
    ensures CommonMultiple([2, 2, 2], 2) && !Divides(LcmMulti([2, 2, 2]), 2)
  {
    assert Gcd(2, 2) == 2 by {
      DividesBound(Gcd(2, 2), 2);
      DividesSelf(2);
      GcdGreatest(2, 2, 2);
      DividesBound(2, Gcd(2, 2));
    }
    assert [2, 2, 2][..2] == [2, 2] && [2, 2][..1] == [2];
    assert GcdMulti([2, 2, 2]) == 2;
    assert Product([2, 2, 2]) == 8 by {
      assert Product([2, 2]) == 4 by { assert Product([2]) == 2 by { assert [2][..0] == []; } }
    }
    DividesSelf(2);
  }

  /**
   * The lcm of a list as lcm_multi's documentation promises it: the left
   * fold of lcm over the (non-zero) numbers.
   */
  function LcmFold(ns: seq<int>): (l: int)
    requires |ns| > 0 && forall i :: 0 <= i < |ns| ==> ns[i] != 0
    ensures l != 0 && CommonMultiple(ns, l)
  {
    if |ns| == 1 then
      DividesSelf(ns[0]);
      ns[0]
    else
      var init := LcmFold(ns[..|ns| - 1]);
      var l := Lcm(init, ns[|ns| - 1]);
      assert l * Gcd(init, ns[|ns| - 1]) != 0;
      forall i | 0 <= i < |ns| - 1
        ensures Divides(ns[i], l)
      {
        assert Divides(ns[..|ns| - 1][i], init);
        DividesTrans(ns[i], init, l);
      }
      l
  }

  /** The fold of lcm divides every common multiple of the list: it is the least one. */
  lemma {:induction false} LcmFoldLeast(ns: seq<int>, m: int)
    requires |ns| > 0 && forall i :: 0 <= i < |ns| ==> ns[i] != 0
    requires CommonMultiple(ns, m)
    ensures Divides(LcmFold(ns), m)
    decreases |ns|
  {
    if |ns| > 1 {
      var init := ns[..|ns| - 1];
      assert CommonMultiple(init, m) by {
        forall i | 0 <= i < |init| ensures Divides(init[i], m) {
          assert init[i] == ns[i];
        }
      }
      LcmFoldLeast(init, m);
      LcmLeast(LcmFold(init), ns[|ns| - 1], m);
    }
  }

  /**
   * modinv(x, y): extended_gcd's coefficient of x reduced mod y. It lies in
   * [0, y), and x times it is congruent to gcd(x, y) mod y, so it is an
   * inverse exactly when x and y are coprime.
   */
  function ModInv(x: int, y: int): (d: int)
    requires y > 0
    ensures 0 <= d < y
    ensures (x * d) % y == Gcd(x, y) % y
  {
    var t := ExtendedGcd(x, y);
    var d := t.1 % y;
    assert x * d == t.0 + y * (-t.2 - x * (t.1 / y)) by {
      assert t.1 == y * (t.1 / y) + d;
    }
    ModAddMultiple(t.0, y, -t.2 - x * (t.1 / y));
    d
  }

  /** modinv(x, y) is an inverse of x mod y if and only if gcd(x, y) == 1. */
  lemma ModInvIsInverse(x: int, y: int)
    requires y > 0
    ensures (x * ModInv(x, y)) % y == 1 % y <==> Gcd(x, y) == 1
  {
    var g := Gcd(x, y);
    DividesBound(g, y);
    ResidueOfDivisor(g, y);
  }

  /** A number in (0, y] is congruent to 1 mod y only when it is 1. */
  lemma ResidueOfDivisor(g: int, y: int)
    requires 0 < g <= y
    ensures g % y == 1 % y <==> g == 1
  {
    if g == y {
      DivModUnique(g, y, 1, 0);
    } else {
      DivModUnique(g, y, 0, g);
    }
    if y > 1 {
      DivModUnique(1, y, 0, 1);
    }
  }
}
