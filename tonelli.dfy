/**
 * legendre_symbol and modular_sqrt: Euler's power a^((p - 1) / 2) mod p,
 * read as the Legendre symbol, and the Tonelli-Shanks square root modulo an
 * odd prime with its shortcut for p = 3 (mod 4).
 */
module TonelliShanks {
  import opened Arith
  import opened Euclid

  // ---------------------------------------------------------------------
  // Residues of powers

  /** Python's 2 ** k as a natural number: the power 2^k, at least 1. */
  function PowerOfTwo(k: nat): (q: nat)
    ensures q >= 1 && q == Pow(2, k)
  {
    if k == 0 then 1 else 2 * PowerOfTwo(k - 1)
  }

  lemma PowerOfTwoAdd(k1: nat, k2: nat)
    ensures PowerOfTwo(k1 + k2) == PowerOfTwo(k1) * PowerOfTwo(k2)
  {
    PowAdd(2, k1, k2);
  }

  lemma ModPowOne(x: int, p: int)
    requires p > 0
    ensures ModPow(x, 1, p) == x % p
  {
    assert Pow(x, 1) == x * Pow(x, 0);
  }

  lemma ModPowAdd(x: int, e1: nat, e2: nat, p: int)
    requires p > 0
    ensures ModPow(x, e1 + e2, p) == (ModPow(x, e1, p) * ModPow(x, e2, p)) % p
  {
    PowAdd(x, e1, e2);
    ModMul(Pow(x, e1), Pow(x, e2), p);
  }

  lemma ModPowOfPower(x: int, e1: nat, e2: nat, p: int)
    requires p > 0
    ensures ModPow(ModPow(x, e1, p), e2, p) == ModPow(x, e1 * e2, p)
  {
    PowMod(Pow(x, e1), e2, p);
    PowMul(x, e1, e2);
  }

  lemma ModPowOfProduct(x: int, y: int, e: nat, p: int)
    requires p > 0
    ensures ModPow((x * y) % p, e, p) == (ModPow(x, e, p) * ModPow(y, e, p)) % p
  {
    PowMod(x * y, e, p);
    PowOfProduct(x, y, e);
    ModMul(Pow(x, e), Pow(y, e), p);
  }

  /** Squaring b^(2^i) mod p gives b^(2^(i + 1)) mod p. */
  lemma ModPowSquaring(b: int, i: nat, p: int)
    requires p > 0
    ensures ModPow(ModPow(b, PowerOfTwo(i), p), 2, p) == ModPow(b, PowerOfTwo(i + 1), p)
  {
    ModPowOfPower(b, PowerOfTwo(i), 2, p);
    assert PowerOfTwo(i + 1) == PowerOfTwo(i) * 2;
  }

  /** Modulo a prime, 1 has no square roots but 1 and -1. */
  lemma SqrtOfOne(y: int, p: int)
    requires IsPrime(p) && 0 <= y < p && (y * y) % p == 1
    ensures y == 1 || y == p - 1
  {
    var k := (y * y) / p;
    assert (y - 1) * (y + 1) == p * k by {
      assert y * y == p * k + 1;
    }
    DividesIntro(p, (y - 1) * (y + 1), k);
    PrimeDividesFactor(p, y - 1, y + 1);
    if Divides(p, y - 1) {
      SmallMultipleIsZero(y - 1, p);
    } else {
      DividesSelf(p);
      DividesLinear(p, y + 1, p, 1, -1);
      SmallMultipleIsZero(1 * (y + 1) + (-1) * p, p);
    }
  }

  /** (-1)^2 = 1 modulo any p >= 2. */
  lemma MinusOneSquared(p: int)
    requires p >= 2
    ensures ((p - 1) * (p - 1)) % p == 1
  {
    assert (p - 1) * (p - 1) == 1 + p * (p - 2);
    ModAddMultiple(1, p, p - 2);
    DivModUnique(1, p, 0, 1);
  }

  // ---------------------------------------------------------------------
  // legendre_symbol

  /**
   * legendre_symbol(a, p): a^((p - 1) / 2) mod p, with p - 1 reported as -1.
   * For an odd prime p this is the Legendre symbol by Euler's criterion.
   */
  function Legendre(a: int, p: int): (l: int)
    requires p > 0
    ensures l == -1 || 0 <= l < p - 1
  {
    var ls := ModPow(a, (p - 1) / 2, p);
    if ls == p - 1 then -1 else ls
  }

  /** The symbol is congruent to Euler's power a^((p - 1) / 2) modulo p. */
  lemma LegendreIsEulerPower(a: int, p: int)
    requires p > 0
    ensures Legendre(a, p) % p == ModPow(a, (p - 1) / 2, p)
  {
    var ls := ModPow(a, (p - 1) / 2, p);
    if ls == p - 1 {
      DivModUnique(-1, p, -1, p - 1);
    } else {
      DivModUnique(ls, p, 0, ls);
    }
  }

  /** The symbol depends on a only through a mod p. */
  lemma LegendreOfResidue(a: int, p: int)
    requires p > 0
    ensures Legendre(a % p, p) == Legendre(a, p)
  {
    PowMod(a, (p - 1) / 2, p);
  }

  /** The symbol is multiplicative, as a residue modulo p. */
  lemma LegendreMultiplicative(a: int, b: int, p: int)
    requires p > 0
    ensures Legendre(a * b, p) % p == (Legendre(a, p) * Legendre(b, p)) % p
  {
    var e := (p - 1) / 2;
    LegendreIsEulerPower(a * b, p);
    LegendreIsEulerPower(a, p);
    LegendreIsEulerPower(b, p);
    ModPowOfProduct(a, b, e, p);
    PowMod(a * b, e, p);
    ModMul(Legendre(a, p), Legendre(b, p), p);
  }

  /** Modulo 2 the exponent is 0, 1 = p - 1, and every symbol is -1. */
  lemma LegendreOfTwo(a: int)
    ensures Legendre(a, 2) == -1
  {
    assert Pow(a, 0) == 1;
  }

  /** Zero is never reported as a residue. */
  lemma LegendreOfZero(p: int)
    requires p > 0
    ensures Legendre(0, p) == (if p <= 2 then -1 else 0)
  {
    var e := (p - 1) / 2;
    if e > 0 {
      assert Pow(0, e) == 0 * Pow(0, e - 1);
    } else {
      assert Pow(0, e) == 1;
    }
  }

  /** A symbol of 1 is Euler's power 1 (so p is not 2). */
  lemma LegendreOne(a: int, p: int)
    requires p > 0 && Legendre(a, p) == 1
    ensures ModPow(a, (p - 1) / 2, p) == 1 && p > 2
  {
  }

  // ---------------------------------------------------------------------
  // modular_sqrt

  /**
   * With p = 3 (mod 4) and a^((p - 1) / 2) = 1 (mod p), a^((p + 1) / 4) is a
   * square root of a; no primality is needed.
   */
  lemma QuarterPowerRoot(a: int, p: int)
    requires p > 0 && p % 4 == 3 && ModPow(a, (p - 1) / 2, p) == 1
    ensures (ModPow(a, (p + 1) / 4, p) * ModPow(a, (p + 1) / 4, p)) % p == a % p
  {
    var k := (p + 1) / 4;
    ModPowAdd(a, k, k, p);
    assert k + k == (p - 1) / 2 + 1;
    ModPowAdd(a, (p - 1) / 2, 1, p);
    ModPowOne(a, p);
    DivModUnique(a % p, p, 0, a % p);
  }

  /**
   * What Tonelli-Shanks keeps modulo a prime p: x^2 = a * b, b has order
   * dividing 2^(r - 1), and g^(2^(r - 1)) = -1.
   */
  ghost predicate TonelliInvariant(a: int, p: int, x: int, b: int, g: int, r: int)
    requires p > 0
  {
    r >= 1 && (x * x) % p == (a * b) % p &&
    ModPow(b, PowerOfTwo(r - 1), p) == 1 && ModPow(g, PowerOfTwo(r - 1), p) == p - 1
  }

  /** x = a^((s + 1) / 2) squares to a * a^s when s is odd. */
  lemma InitialSquare(a: int, p: int, s: int)
    requires p > 0 && s > 0 && s % 2 == 1
    ensures (ModPow(a, (s + 1) / 2, p) * ModPow(a, (s + 1) / 2, p)) % p == (a * ModPow(a, s, p)) % p
  {
    var k := (s + 1) / 2;
    ModPowAdd(a, k, k, p);
    assert k + k == s + 1;
    ModPowAdd(a, s, 1, p);
    ModPowOne(a, p);
    ModMulRight(ModPow(a, s, p), a, p);
    assert ModPow(a, s, p) * a == a * ModPow(a, s, p);
  }

  /** A prime above 2 is odd. */
  lemma OddPrime(p: int)
    requires IsPrime(p) && p > 2
    ensures p % 2 == 1
  {
    assert !Divides(2, p);
  }

  /** For an odd prime, s * 2^e = p - 1 with s odd has e >= 1. */
  lemma TwoAdicPositive(a: int, p: int, s: int, e: nat)
    requires IsPrime(p) && Legendre(a, p) == 1 && s * PowerOfTwo(e) == p - 1 && s % 2 == 1
    ensures e >= 1
  {
    LegendreOne(a, p);
    OddPrime(p);
  }

  /** The starting values x = a^((s + 1) / 2), b = a^s, g = n^s establish the invariant with r = e. */
  lemma TonelliInit(a: int, p: int, s: int, e: nat, n: int)
    requires IsPrime(p) && Legendre(a, p) == 1 && Legendre(n, p) == -1
    requires s > 0 && s % 2 == 1 && s * PowerOfTwo(e) == p - 1
    ensures TonelliInvariant(a, p, ModPow(a, (s + 1) / 2, p), ModPow(a, s, p), ModPow(n, s, p), e)
  {
    TwoAdicPositive(a, p, s, e);
    LegendreOne(a, p);
    var h := PowerOfTwo(e - 1);
    assert s * PowerOfTwo(e) == 2 * (s * h);
    assert (p - 1) / 2 == s * h;
    InitialSquare(a, p, s);
    ModPowOfPower(a, s, h, p);
    ModPowOfPower(n, s, h, p);
  }

  /** Modulo a prime, b^(2^m) = 1 and b^(2^(m - 1)) != 1 force b^(2^(m - 1)) = -1. */
  lemma HalfOrderIsMinusOne(b: int, p: int, m: int)
    requires IsPrime(p) && m >= 1
    requires ModPow(b, PowerOfTwo(m), p) == 1 && ModPow(b, PowerOfTwo(m - 1), p) != 1
    ensures ModPow(b, PowerOfTwo(m - 1), p) == p - 1
  {
    var c := ModPow(b, PowerOfTwo(m - 1), p);
    ModPowAdd(b, PowerOfTwo(m - 1), PowerOfTwo(m - 1), p);
    assert PowerOfTwo(m) == PowerOfTwo(m - 1) + PowerOfTwo(m - 1);
    SqrtOfOne(c, p);
  }

  /** 2^(r - m) * 2^(m - 1) = 2^(r - 1), the exponent identity behind the generator update. */
  lemma StepExponent(r: int, m: int)
    requires 0 < m < r
    ensures (PowerOfTwo(r - m - 1) + PowerOfTwo(r - m - 1)) * PowerOfTwo(m - 1) == PowerOfTwo(r - 1)
  {
    PowerOfTwoAdd(r - m, m - 1);
    assert PowerOfTwo(r - m) == 2 * PowerOfTwo(r - m - 1);
  }

  /** The new generator g' = g^(2^(r - m)) has g'^(2^(m - 1)) = g^(2^(r - 1)) = -1. */
  lemma StepGenerator(p: int, g: int, r: int, m: int)
    requires p > 0 && 0 < m < r && ModPow(g, PowerOfTwo(r - 1), p) == p - 1
    ensures var gs := ModPow(g, PowerOfTwo(r - m - 1), p);
      ModPow((gs * gs) % p, PowerOfTwo(m - 1), p) == p - 1
  {
    var E, N := PowerOfTwo(r - m - 1), PowerOfTwo(m - 1);
    ModPowAdd(g, E, E, p);
    ModPowOfPower(g, E + E, N, p);
    StepExponent(r, m);
  }

  /** b' = b * g' has b'^(2^(m - 1)) = (-1) * (-1) = 1. */
  lemma StepResidue(p: int, b: int, g': int, m: int)
    requires p >= 2 && m >= 1
    requires ModPow(b, PowerOfTwo(m - 1), p) == p - 1 && ModPow(g', PowerOfTwo(m - 1), p) == p - 1
    ensures ModPow((b * g') % p, PowerOfTwo(m - 1), p) == 1
  {
    ModPowOfProduct(b, g', PowerOfTwo(m - 1), p);
    MinusOneSquared(p);
  }

  /** x' = x * gs squares to a * b' where b' = b * gs^2. */
  lemma StepSquare(a: int, p: int, x: int, b: int, gs: int)
    requires p > 0 && (x * x) % p == (a * b) % p
    ensures (((x * gs) % p) * ((x * gs) % p)) % p == (a * ((b * ((gs * gs) % p)) % p)) % p
  {
    var g' := (gs * gs) % p;
    ModMul(x * gs, x * gs, p);
    assert (x * gs) * (x * gs) == (x * x) * (gs * gs);
    ModMul(x * x, gs * gs, p);
    ModMul(a * b, gs * gs, p);
    assert (a * b) * (gs * gs) == a * (b * (gs * gs));
    ModMulRight(b, gs * gs, p);
    ModMulRight(a, b * (gs * gs), p);
    ModMulRight(a, b * g', p);
  }

  /** One round of the main loop keeps the invariant, with r replaced by m. */
  lemma TonelliStep(a: int, p: int, x: int, b: int, g: int, r: int, m: int)
    requires IsPrime(p) && TonelliInvariant(a, p, x, b, g, r)
    requires 0 < m < r && ModPow(b, PowerOfTwo(m), p) == 1 && ModPow(b, PowerOfTwo(m - 1), p) != 1
    ensures var gs := ModPow(g, PowerOfTwo(r - m - 1), p);
      var g' := (gs * gs) % p;
      TonelliInvariant(a, p, (x * gs) % p, (b * g') % p, g', m)
  {
    var gs := ModPow(g, PowerOfTwo(r - m - 1), p);
    var g' := (gs * gs) % p;
    HalfOrderIsMinusOne(b, p, m);
    StepGenerator(p, g, r, m);
    StepResidue(p, b, g', m);
    StepSquare(a, p, x, b, gs);
  }

  /** When b = 1 the loop's x is a square root of a. */
  lemma TonelliFinish(a: int, p: int, x: int, b: int, g: int, r: int)
    requires p > 0 && TonelliInvariant(a, p, x, b, g, r) && b == 1
    ensures (x * x) % p == a % p
  {
  }

  /**
   * The inner `for m in xrange(r)` loop of modular_sqrt: m is the least
   * i < r with b^(2^i) = 1 (mod p), or r - 1 when there is none, the value
   * Python leaves in the loop variable; with r = 0 it stays 0.
   */
  method LeastSquaringOrder(b: int, r: int, p: int) returns (m: int)
    requires p > 0 && 0 <= b < p && r >= 0
    ensures 0 <= m && (r == 0 ==> m == 0) && (r > 0 ==> m < r)
    ensures forall i :: 0 <= i < m ==> ModPow(b, PowerOfTwo(i), p) != 1
    ensures r > 0 ==> ModPow(b, PowerOfTwo(m), p) == 1 || m == r - 1
  {
    var t := b;
    m := 0;
    DivModUnique(b, p, 0, b);
    ModPowOne(b, p);
    for i := 0 to r
      invariant t == ModPow(b, PowerOfTwo(i), p)
      invariant m == (if i == 0 then 0 else i - 1)
      invariant forall k :: 0 <= k < i ==> ModPow(b, PowerOfTwo(k), p) != 1
    {
      m := i;
      if t == 1 {
        break;
      }
      ModPowSquaring(b, i, p);
      t := ModPow(t, 2, p);
    }
  }

  /** The first loop of the general path: p - 1 = s * 2^e with s odd. */
  method TwoAdicSplit(p: int) returns (s: int, e: nat)
    requires p >= 2
    ensures s > 0 && s % 2 == 1 && s * PowerOfTwo(e) == p - 1
  {
    s := p - 1;
    e := 0;
    while s % 2 == 0
      invariant s > 0 && s * PowerOfTwo(e) == p - 1
      decreases s
    {
      assert s * PowerOfTwo(e) == (s / 2) * PowerOfTwo(e + 1);
      s := s / 2;
      e := e + 1;
    }
  }

  /**
   * The second loop: the least n >= 2 whose symbol is -1. It ends only if
   * there is one, which the requires states (for a prime p there is).
   */
  method FindNonResidue(p: int) returns (n: int)
    requires p > 0 && exists n :: n >= 2 && Legendre(n, p) == -1
    ensures n >= 2 && Legendre(n, p) == -1
    ensures forall k :: 2 <= k < n ==> Legendre(k, p) != -1
  {
    n := 2;
    ghost var n0 :| n0 >= 2 && Legendre(n0, p) == -1;
    while Legendre(n, p) != -1
      invariant 2 <= n <= n0
      invariant forall k :: 2 <= k < n ==> Legendre(k, p) != -1
      decreases n0 - n
    {
      n := n + 1;
    }
  }

  /** n^4 modulo 9 is one of 0, 1, 4, 7, never 8. */
  lemma FourthPowerModNine(r: int)
    requires 0 <= r < 9
    ensures Pow(r, 4) % 9 != 8
  {
    assert Pow(r, 4) == r * (r * (r * (r * 1))) by {
      assert Pow(r, 1) == r * 1;
      assert Pow(r, 2) == r * Pow(r, 1);
      assert Pow(r, 3) == r * Pow(r, 2);
    }
    if r == 0 {} else if r == 1 {} else if r == 2 {} else if r == 3 {} else if r == 4 {}
    else if r == 5 {} else if r == 6 {} else if r == 7 {} else {}
  }

  /**
   * Modulo 9 the symbol of 1 is 1 and 9 % 4 == 1, so modular_sqrt(1, 9)
   * takes the general path, yet no n has symbol -1: the upward search for a
   * non-residue never stops on this input.
   */
  lemma NonResidueSearchDiverges()
    ensures Legendre(1, 9) == 1 && 9 % 4 == 1
    ensures forall n :: Legendre(n, 9) != -1
  {
    assert Pow(1, 4) == 1 by {
      assert Pow(1, 1) == 1 && Pow(1, 2) == 1 && Pow(1, 3) == 1;
    }
    forall n
      ensures Legendre(n, 9) != -1
    {
      LegendreOfResidue(n, 9);
      FourthPowerModNine(n % 9);
    }
  }

  /**
   * The main `while True` loop: each round finds the least m with
   * b^(2^m) = 1 and, unless m is 0, moves x, b, g to the next round with r = m.
   * The result is in [0, p); for every p, x^2 = a * b holds on each round,
   * so the result squares to a times the final b, and modulo a prime it
   * squares to a.
   */
  method TonelliLoop(a: int, p: int, x0: int, b0: int, g0: int, r0: int) returns (root: int, ghost bEnd: int)
    requires p > 0 && 0 <= x0 < p && 0 <= b0 < p && 0 <= g0 < p && r0 >= 0
    requires (x0 * x0) % p == (a * b0) % p
    requires IsPrime(p) ==> TonelliInvariant(a, p, x0, b0, g0, r0)
    ensures 0 <= root < p
    ensures (root * root) % p == (a * bEnd) % p
    ensures IsPrime(p) ==> (root * root) % p == a % p
  {
    var x, b, g, r := x0, b0, g0, r0;
    while true
      invariant 0 <= x < p && 0 <= b < p && 0 <= g < p && r >= 0
      invariant (x * x) % p == (a * b) % p
      invariant IsPrime(p) ==> TonelliInvariant(a, p, x, b, g, r)
      decreases r
    {
      var m := LeastSquaringOrder(b, r, p);
      if m == 0 {
        if IsPrime(p) {
          ModPowOne(b, p);
          DivModUnique(b, p, 0, b);
          TonelliFinish(a, p, x, b, g, r);
        }
        return x, b;
      }
      var gs := ModPow(g, PowerOfTwo(r - m - 1), p);
      StepSquare(a, p, x, b, gs);
      if IsPrime(p) {
        TonelliStep(a, p, x, b, g, r, m);
      }
      g := (gs * gs) % p;
      x := (x * gs) % p;
      b := (b * g) % p;
      r := m;
    }
  }

  /**
   * modular_sqrt(a, p): 0 unless the symbol of a is 1; for p = 3 (mod 4)
   * a^((p + 1) / 4) mod p; otherwise Tonelli-Shanks, which searches upward
   * from 2 for a non-residue n (the requires says one exists, or Python loops
   * for ever). The result is in [0, p) and, when p is prime or p = 3
   * (mod 4), squares to a modulo p whenever the symbol of a is 1.
   */
  method ModularSqrt(a: int, p: int) returns (root: int)
    requires p > 0
    requires Legendre(a, p) == 1 && p % 4 != 3 ==> exists n :: n >= 2 && Legendre(n, p) == -1
    ensures 0 <= root < p
    ensures Legendre(a, p) != 1 ==> root == 0
    ensures Legendre(a, p) == 1 && p % 4 == 3 ==> (root * root) % p == a % p
    ensures Legendre(a, p) == 1 && IsPrime(p) ==> (root * root) % p == a % p
  {
    if Legendre(a, p) != 1 {
      return 0;
    } else if a == 0 {
      LegendreOfZero(p);
      assert false;
    } else if p == 2 {
      LegendreOfTwo(a);
      assert false;
    } else if p % 4 == 3 {
      LegendreOne(a, p);
      QuarterPowerRoot(a, p);
      return ModPow(a, (p + 1) / 4, p);
    }
    LegendreOne(a, p);
    var s, e := TwoAdicSplit(p);
    var n := FindNonResidue(p);
    var x := ModPow(a, (s + 1) / 2, p);
    var b := ModPow(a, s, p);
    var g := ModPow(n, s, p);
    InitialSquare(a, p, s);
    if IsPrime(p) {
      TonelliInit(a, p, s, e, n);
    }
    ghost var bEnd;
    root, bEnd := TonelliLoop(a, p, x, b, g, e);
  }
}
