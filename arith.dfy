/**
 * Integer arithmetic shared by the number-theoretic toolkit: powers, the
 * product and sum of a list (the left folds the toolkit writes with `reduce`),
 * divisibility, and the congruence lemmas the other modules are proved with.
 *
 * Every modulus here is positive. For a positive divisor Dafny's Euclidean
 * `/` and `%` coincide with Python 2's floor division and `%`, so the
 * definitions below read the same as the Python operators they stand for.
 */
module Arith {

  /** b ** e for a natural exponent. */
  function Pow(b: int, e: nat): int
    decreases e
  {
    if e == 0 then 1 else b * Pow(b, e - 1)
  }

  /** Python's three-argument `pow(b, e, n)` for a positive modulus. */
  function ModPow(b: int, e: nat, n: int): (r: int)
    requires n > 0
    ensures 0 <= r < n
  {
    Pow(b, e) % n
  }

  /** Left fold of `*` over a list; the empty product is 1. */
  function Product(s: seq<int>): int
  {
    if |s| == 0 then 1 else Product(s[..|s| - 1]) * s[|s| - 1]
  }

  /** Left fold of `+` over a list; the empty sum is 0. */
  function Sum(s: seq<int>): int
  {
    if |s| == 0 then 0 else Sum(s[..|s| - 1]) + s[|s| - 1]
  }

  /** d divides n: n is d times some integer (0 divides only 0). */
  predicate Divides(d: int, n: int)
  {
    if d == 0 then n == 0 else n % d == 0
  }

  /** A prime: at least 2 and no divisor strictly between 1 and itself. */
  ghost predicate IsPrime(p: int)
  {
    p >= 2 && forall d :: 1 < d < p ==> !Divides(d, p)
  }

  /** The list with its element at index j taken out. */
  function RemoveAt(s: seq<int>, j: nat): (r: seq<int>)
    requires j < |s|
    ensures |r| == |s| - 1
    ensures forall i :: 0 <= i < j ==> r[i] == s[i]
    ensures forall i :: j <= i < |r| ==> r[i] == s[i + 1]
  {
    s[..j] + s[j + 1..]
  }

  // ---------------------------------------------------------------------
  // Division and remainder

  /** Division and remainder put a back together. */
  lemma DivModIdentity(a: int, n: int)
    requires n > 0
    ensures (a / n) * n + 1 * (a % n) == a
  {
  }

  lemma DivModUnique(a: int, n: int, q: int, r: int)
    requires n > 0 && a == n * q + r && 0 <= r < n
    ensures a / n == q && a % n == r
  {
    var q0, r0 := a / n, a % n;
    assert n * (q0 - q) == r - r0;
    assert n * (q - q0) == r0 - r;
    if q0 - q >= 1 {
      MulAtLeast(n, q0 - q);
    } else if q - q0 >= 1 {
      MulAtLeast(n, q - q0);
    }
  }

  lemma MulAtLeast(n: int, k: int)
    requires n > 0 && k >= 1
    ensures n * k >= n
  {
  }

  lemma ModAddMultiple(a: int, n: int, k: int)
    requires n > 0
    ensures (a + n * k) % n == a % n
  {
    DivModUnique(a + n * k, n, a / n + k, a % n);
  }

  lemma ModMultiple(n: int, k: int)
    requires n > 0
    ensures (n * k) % n == 0
  {
    ModAddMultiple(0, n, k);
  }

  lemma ModAdd(a: int, b: int, n: int)
    requires n > 0
    ensures (a + b) % n == (a % n + b % n) % n
  {
    var qa, ra, qb, rb := a / n, a % n, b / n, b % n;
    assert a == n * qa + ra && b == n * qb + rb;
    assert n * (qa + qb) == n * qa + n * qb;
    ModAddMultiple(ra + rb, n, qa + qb);
  }

  lemma ModSub(a: int, b: int, n: int)
    requires n > 0
    ensures (a - b) % n == (a % n - b % n) % n
  {
    var qa, ra, qb, rb := a / n, a % n, b / n, b % n;
    assert a == n * qa + ra && b == n * qb + rb;
    assert n * (qa - qb) == n * qa - n * qb;
    ModAddMultiple(ra - rb, n, qa - qb);
  }

  lemma ModMul(a: int, b: int, n: int)
    requires n > 0
    ensures (a * b) % n == ((a % n) * (b % n)) % n
  {
    var qa, ra, qb, rb := a / n, a % n, b / n, b % n;
    calc {
      a * b;
      (n * qa + ra) * (n * qb + rb);
      ra * rb + n * (qa * n * qb + qa * rb + ra * qb);
    }
    ModAddMultiple(ra * rb, n, qa * n * qb + qa * rb + ra * qb);
  }

  lemma ModMulRight(a: int, b: int, n: int)
    requires n > 0
    ensures (a * b) % n == (a * (b % n)) % n
  {
    ModMulLeft(b, a, n);
    assert a * b == b * a && a * (b % n) == (b % n) * a;
  }

  lemma ModMulLeft(a: int, b: int, n: int)
    requires n > 0
    ensures (a * b) % n == ((a % n) * b) % n
  {
    var qa, ra := a / n, a % n;
    assert a * b == ra * b + n * (qa * b) by {
      assert a == n * qa + ra;
    }
    ModAddMultiple(ra * b, n, qa * b);
  }

  /** Reducing by a multiple m of n first does not change the residue mod n. */
  lemma ModOfMultiple(a: int, n: int, m: int)
    requires n > 0 && m > 0 && Divides(n, m)
    ensures (a % m) % n == a % n
  {
    var k := m / n;
    assert m == n * k;
    assert a == a % m + m * (a / m);
    assert a % m + m * (a / m) == a % m + n * (k * (a / m));
    ModAddMultiple(a % m, n, k * (a / m));
  }

  // ---------------------------------------------------------------------
  // Divisibility

  lemma DividesIntro(d: int, n: int, k: int)
    requires n == d * k
    ensures Divides(d, n)
  {
    if d > 0 {
      ModMultiple(d, k);
    } else if d < 0 {
      ModMultiple(-d, -k);
      assert n == (-d) * (-k);
      assert n % d == n % (-d);
    }
  }

  lemma DividesElim(d: int, n: int)
    requires Divides(d, n) && d != 0
    ensures n == d * (n / d)
  {
  }

  lemma DividesMul(d: int, a: int, k: int)
    requires Divides(d, a)
    ensures Divides(d, a * k)
  {
    if d != 0 {
      DividesElim(d, a);
      assert a * k == d * ((a / d) * k);
      DividesIntro(d, a * k, (a / d) * k);
    }
  }

  lemma DividesLinear(d: int, a: int, b: int, x: int, y: int)
    requires Divides(d, a) && Divides(d, b)
    ensures Divides(d, x * a + y * b)
  {
    if d != 0 {
      DividesElim(d, a);
      DividesElim(d, b);
      assert x * a + y * b == d * (x * (a / d) + y * (b / d));
      DividesIntro(d, x * a + y * b, x * (a / d) + y * (b / d));
    }
  }

  lemma DividesTrans(a: int, b: int, c: int)
    requires Divides(a, b) && Divides(b, c)
    ensures Divides(a, c)
  {
    if a != 0 && b != 0 {
      DividesElim(a, b);
      DividesElim(b, c);
      assert c == a * ((b / a) * (c / b));
      DividesIntro(a, c, (b / a) * (c / b));
    }
  }

  lemma DividesSelf(d: int)
    ensures Divides(d, d)
  {
    DividesIntro(d, d, 1);
  }

  /** A positive divisor of a positive number is at most that number. */
  lemma DividesBound(d: int, n: int)
    requires d > 0 && n > 0 && Divides(d, n)
    ensures d <= n
  {
    DividesElim(d, n);
    MulAtLeast(d, n / d);
  }

  /** Two values agree mod n exactly when n divides their difference. */
  lemma ModEqDivides(a: int, b: int, n: int)
    requires n > 0
    ensures a % n == b % n <==> Divides(n, a - b)
  {
    ModSub(a, b, n);
    if Divides(n, a - b) {
      assert (a % n - b % n) % n == 0;
      SmallMultipleIsZero(a % n - b % n, n);
    }
  }

  /** A multiple of n whose absolute value is below n is zero. */
  lemma SmallMultipleIsZero(d: int, n: int)
    requires n > 0 && Divides(n, d) && -n < d < n
    ensures d == 0
  {
    DividesElim(n, d);
    var k := d / n;
    if k >= 1 {
      MulAtLeast(n, k);
    } else if k <= -1 {
      MulAtLeast(n, -k);
    }
  }

  // ---------------------------------------------------------------------
  // Powers

  lemma {:induction false} PowAdd(b: int, e1: nat, e2: nat)
    ensures Pow(b, e1 + e2) == Pow(b, e1) * Pow(b, e2)
    decreases e1
  {
    if e1 > 0 {
      PowAdd(b, e1 - 1, e2);
    }
  }

  lemma {:induction false} PowMul(b: int, e1: nat, e2: nat)
    ensures Pow(b, e1 * e2) == Pow(Pow(b, e1), e2)
    decreases e2
  {
    if e2 > 0 {
      PowMul(b, e1, e2 - 1);
      assert e1 * e2 == e1 * (e2 - 1) + e1;
      PowAdd(b, e1 * (e2 - 1), e1);
    }
  }

  lemma {:induction false} PowOfProduct(a: int, b: int, e: nat)
    ensures Pow(a * b, e) == Pow(a, e) * Pow(b, e)
    decreases e
  {
    if e > 0 {
      PowOfProduct(a, b, e - 1);
    }
  }

  /** Reducing the base first does not change a power's residue. */
  lemma {:induction false} PowMod(b: int, e: nat, n: int)
    requires n > 0
    ensures Pow(b % n, e) % n == Pow(b, e) % n
    decreases e
  {
    if e > 0 {
      var x, y := Pow(b % n, e - 1), Pow(b, e - 1);
      PowMod(b, e - 1, n);
      assert x % n == y % n;
      calc {
        Pow(b % n, e) % n;
        ((b % n) * x) % n;
        { ModMulRight(b % n, x, n); }
        ((b % n) * (x % n)) % n;
        ((b % n) * (y % n)) % n;
        { ModMulRight(b % n, y, n); }
        ((b % n) * y) % n;
        { ModMulLeft(b, y, n); }
        (b * y) % n;
        Pow(b, e) % n;
      }
    }
  }

  /** A power of a positive base is positive. */
  lemma {:induction false} PowPositive(b: int, e: nat)
    requires b > 0
    ensures Pow(b, e) > 0
    decreases e
  {
    if e > 0 {
      PowPositive(b, e - 1);
    }
  }

  // ---------------------------------------------------------------------
  // Products and sums of lists

  lemma {:induction false} ProductRemove(s: seq<int>, j: nat)
    requires j < |s|
    ensures Product(s) == s[j] * Product(RemoveAt(s, j))
    decreases |s|
  {
    var last := |s| - 1;
    if j < last {
      var init := s[..last];
      ProductRemove(init, j);
      RemoveBeforeLast(s, j);
      var a, b, c := s[j], Product(RemoveAt(init, j)), s[last];
      assert Product(s) == (a * b) * c;
      MulAssoc(a, b, c);
    } else {
      assert RemoveAt(s, j) == s[..last];
    }
  }

  /** Removing an element before the last one keeps the last one last. */
  lemma RemoveBeforeLast(s: seq<int>, j: nat)
    requires j < |s| - 1
    ensures var rest := RemoveAt(s, j);
      rest[..|rest| - 1] == RemoveAt(s[..|s| - 1], j) && rest[|rest| - 1] == s[|s| - 1]
  {
    var rest := RemoveAt(s, j);
    assert rest == RemoveAt(s[..|s| - 1], j) + [s[|s| - 1]];
  }

  lemma MulAssoc(a: int, b: int, c: int)
    ensures (a * b) * c == a * (b * c)
  {
  }

  lemma ElementDividesProduct(s: seq<int>, j: nat)
    requires j < |s|
    ensures Divides(s[j], Product(s))
  {
    ProductRemove(s, j);
    DividesIntro(s[j], Product(s), Product(RemoveAt(s, j)));
  }

  lemma {:induction false} ProductPositive(s: seq<int>)
    requires forall i :: 0 <= i < |s| ==> s[i] > 0
    ensures Product(s) > 0
    decreases |s|
  {
    if |s| > 0 {
      ProductPositive(s[..|s| - 1]);
    }
  }

  /** A product is 0 exactly when one of its factors is 0. */
  lemma {:induction false} ProductZero(s: seq<int>)
    ensures Product(s) == 0 <==> exists i :: 0 <= i < |s| && s[i] == 0
    decreases |s|
  {
    if |s| > 0 {
      var init := s[..|s| - 1];
      ProductZero(init);
      if exists i :: 0 <= i < |init| && init[i] == 0 {
        var i :| 0 <= i < |init| && init[i] == 0;
        assert s[i] == 0;
      }
      if exists i :: 0 <= i < |s| && s[i] == 0 {
        var i :| 0 <= i < |s| && s[i] == 0;
        if i < |init| {
          assert init[i] == 0;
        }
      }
    }
  }

  lemma ProductAppend(s: seq<int>, x: int)
    ensures Product(s + [x]) == Product(s) * x
  {
    assert (s + [x])[..|s|] == s;
  }

  lemma ProductPrefixStep(s: seq<int>, i: nat)
    requires i < |s|
    ensures Product(s[..i + 1]) == Product(s[..i]) * s[i]
  {
    assert s[..i + 1][..i] == s[..i];
  }

  /** A sum of multiples of n is a multiple of n. */
  lemma {:induction false} SumOfMultiples(s: seq<int>, n: int)
    requires n > 0 && forall j :: 0 <= j < |s| ==> s[j] % n == 0
    ensures Sum(s) % n == 0
    decreases |s|
  {
    if |s| > 0 {
      var init, last := s[..|s| - 1], s[|s| - 1];
      assert forall j :: 0 <= j < |init| ==> init[j] == s[j];
      SumOfMultiples(init, n);
      assert Sum(s) == Sum(init) + last;
      ModAdd(Sum(init), last, n);
    }
  }

  /** If every element but s[i] is a multiple of n, the sum is s[i] mod n. */
  lemma {:induction false} SumModSingle(s: seq<int>, i: nat, n: int)
    requires n > 0 && i < |s|
    requires forall j :: 0 <= j < |s| && j != i ==> s[j] % n == 0
    ensures Sum(s) % n == s[i] % n
    decreases |s|
  {
    var init, last := s[..|s| - 1], s[|s| - 1];
    assert forall j :: 0 <= j < |init| ==> init[j] == s[j];
    assert Sum(s) == Sum(init) + last;
    ModAdd(Sum(init), last, n);
    if i == |s| - 1 {
      SumOfMultiples(init, n);
      DivModUnique(last % n, n, 0, last % n);
    } else {
      SumModSingle(init, i, n);
      DivModUnique(s[i] % n, n, 0, s[i] % n);
    }
  }
}
