/**
 * rsa_crt_distinct_multiprime: multi-prime RSA decryption that works prime
 * by prime and recombines the partial results with Garner's incremental CRT.
 */
module RsaCrt {
  import opened Arith
  import opened Euclid
  import opened Crt

  /** The private exponent mod p - 1 for one prime: modinv(e, p - 1). */
  function PrimeExponent(e: int, p: int): (d: nat)
    requires p >= 2
    ensures d < p - 1
  {
    ModInv(e, p - 1)
  }

  /** The partial plaintext for one prime: pow(c, modinv(e, p - 1), p). */
  function PartialResult(c: int, e: int, p: int): (x: int)
    requires p >= 2
    ensures 0 <= x < p
  {
    ModPow(c, PrimeExponent(e, p), p)
  }

  /** The partial results as congruences, the input the explicit CRT formula would take. */
  function PartialCongruences(c: int, e: int, factors: seq<int>): (cs: seq<Congruence>)
    requires forall i :: 0 <= i < |factors| ==> factors[i] >= 2
    ensures |cs| == |factors| && Moduli(cs) == factors && PositiveModuli(cs)
    ensures forall i :: 0 <= i < |factors| ==> cs[i].residue == PartialResult(c, e, factors[i])
  {
    var cs := seq(|factors|, i requires 0 <= i < |factors| => Congruence(PartialResult(c, e, factors[i]), factors[i]));
    assert Moduli(cs) == factors;
    cs
  }

  /** Garner's update keeps the accumulator below the new modulus m * r. */
  lemma GarnerBound(x: int, m: int, r: int, u: int)
    requires 0 <= x < m && 0 <= u < r
    ensures 0 <= x + m * u < m * r
  {
    assert m * u <= m * (r - 1);
  }

  /** Adding a multiple of m does not change the residue mod a divisor of m. */
  lemma GarnerKeepsResidue(x: int, m: int, u: int, d: int)
    requires d > 0 && Divides(d, m)
    ensures (x + m * u) % d == x % d
  {
    DividesElim(d, m);
    assert x + m * u == x + d * ((m / d) * u);
    ModAddMultiple(x, d, (m / d) * u);
  }

  /** With t an inverse of m mod r, Garner's update makes the accumulator congruent to xi mod r. */
  lemma GarnerNewResidue(x: int, m: int, r: int, xi: int, t: int)
    requires r > 0 && 0 <= xi < r && (m * t) % r == 1 % r
    ensures (x + m * (((xi - x % r) * t) % r)) % r == xi
  {
    var w := xi - x % r;
    var u := (w * t) % r;
    calc {
      (m * u) % r;
      { ModMul(m, u, r); DivModUnique(u, r, 0, u); }
      ((m % r) * u) % r;
      { ModMul(m, w * t, r); }
      (m * (w * t)) % r;
      { assert m * (w * t) == (m * t) * w; }
      ((m * t) * w) % r;
      { ModMul(m * t, w, r); }
      ((1 % r) * (w % r)) % r;
      { ModMul(1, w, r); }
      w % r;
    }
    calc {
      (x + m * u) % r;
      { ModAdd(x, m * u, r); }
      (x % r + (m * u) % r) % r;
      (x % r + w % r) % r;
      { ModAdd(x % r, w, r); DivModUnique(x % r, r, 0, x % r); }
      (x % r + w) % r;
      xi % r;
      { DivModUnique(xi, r, 0, xi); }
      xi;
    }
  }

  /**
   * One iteration of Garner's loop: if x agrees with xis on the first i
   * factors and t inverts their product m modulo factor i, the updated x
   * agrees with xis on the first i + 1 factors.
   */
  lemma GarnerStep(factors: seq<int>, xis: seq<int>, i: nat, x: int, m: int, t: int, u: int, x': int)
    requires i < |factors| && i < |xis|
    requires forall j :: 0 <= j <= i ==> factors[j] > 0
    requires m == Product(factors[..i])
    requires 0 <= xis[i] < factors[i]
    requires forall j :: 0 <= j < i ==> x % factors[j] == xis[j]
    requires Gcd(m, factors[i]) == 1 && t == ModInv(m, factors[i])
    requires u == ((xis[i] - x % factors[i]) * t) % factors[i] && x' == x + m * u
    ensures forall j :: 0 <= j <= i ==> x' % factors[j] == xis[j]
  {
    var ri := factors[i];
    ModInvIsInverse(m, ri);
    forall j | 0 <= j <= i
      ensures x' % factors[j] == xis[j]
    {
      if j == i {
        GarnerNewResidue(x, m, ri, xis[i], t);
      } else {
        assert factors[..i][j] == factors[j];
        ElementDividesProduct(factors[..i], j);
        GarnerKeepsResidue(x, m, u, factors[j]);
      }
    }
  }

  /** With pairwise-coprime factors, the product of the first i factors is coprime to factor i. */
  lemma PrefixCoprime(factors: seq<int>, i: nat)
    requires i < |factors| && PairwiseCoprime(factors)
    ensures Gcd(Product(factors[..i]), factors[i]) == 1
  {
    forall j | 0 <= j < i
      ensures Gcd(factors[..i][j], factors[i]) == 1
    {
      assert factors[..i][j] == factors[j];
    }
    CoprimeProductList(factors[..i], factors[i]);
  }

  /**
   * The state Garner's recombination keeps after the first i factors: m is
   * their product, x lies in [0, m) and, with pairwise-coprime factors,
   * agrees with xis modulo each of them.
   */
  ghost predicate GarnerState(factors: seq<int>, xis: seq<int>, i: nat, x: int, m: int)
  {
    0 < i <= |factors| && |xis| == |factors| && (forall j :: 0 <= j < |factors| ==> factors[j] > 0) &&
    m == Product(factors[..i]) && m > 0 && 0 <= x < m &&
    (PairwiseCoprime(factors) ==> forall j :: 0 <= j < i ==> x % factors[j] == xis[j])
  }

  /**
   * What Garner's recombination is given: one partial result per factor,
   * each reduced modulo its factor, and the inverse table of InverseTable.
   */
  predicate GarnerInputs(factors: seq<int>, xis: seq<int>, tis: seq<int>)
  {
    |factors| > 0 && |xis| == |factors| && |tis| == |factors| &&
    (forall j :: 0 <= j < |factors| ==> factors[j] >= 2 && 0 <= xis[j] < factors[j]) &&
    (forall j :: 1 <= j < |factors| ==> tis[j] == ModInv(Product(factors[..j]), factors[j]))
  }

  /** Garner's recombination starts from xis[0] and factors[0]. */
  lemma GarnerStart(factors: seq<int>, xis: seq<int>, tis: seq<int>)
    requires GarnerInputs(factors, xis, tis)
    ensures GarnerState(factors, xis, 1, xis[0], factors[0])
  {
    DivModUnique(xis[0], factors[0], 0, xis[0]);
    assert Product(factors[..1]) == Product(factors[..0]) * factors[0];
  }

  /** One iteration of Garner's recombination keeps its state. */
  lemma GarnerIteration(factors: seq<int>, xis: seq<int>, tis: seq<int>, i: nat, x: int, m: int, u: int, x': int, m': int)
    requires GarnerInputs(factors, xis, tis) && 0 < i < |factors|
    requires GarnerState(factors, xis, i, x, m)
    requires u == ((xis[i] - x % factors[i]) * tis[i]) % factors[i]
    requires x' == x + m * u && m' == m * factors[i]
    ensures GarnerState(factors, xis, i + 1, x', m')
  {
    GarnerBound(x, m, factors[i], u);
    ProductPrefixStep(factors, i);
    if PairwiseCoprime(factors) {
      PrefixCoprime(factors, i);
      GarnerStep(factors, xis, i, x, m, tis[i], u, x');
    }
  }

  /**
   * The first loop of rsa_crt_distinct_multiprime: tis[i] is the inverse of
   * the product of the factors before factor i, modulo factor i (tis[0] is a
   * placeholder the recombination never reads).
   */
  method InverseTable(factors: seq<int>) returns (tis: seq<int>)
    requires |factors| > 0
    requires forall i :: 0 <= i < |factors| ==> factors[i] >= 2
    ensures |tis| == |factors|
    ensures forall j :: 1 <= j < |factors| ==> tis[j] == ModInv(Product(factors[..j]), factors[j])
  {
    var k := |factors|;
    var m := factors[0];
    tis := [-1];
    assert factors[..1] == [factors[0]];
    assert Product(factors[..1]) == Product(factors[..0]) * factors[0];
    for idx := 1 to k
      invariant m == Product(factors[..idx])
      invariant |tis| == idx
      invariant forall j :: 1 <= j < idx ==> tis[j] == ModInv(Product(factors[..j]), factors[j])
    {
      var prime := factors[idx];
      tis := tis + [ModInv(m, prime)];
      ProductPrefixStep(factors, idx);
      m := m * prime;
    }
  }

  /** The second loop: the partial plaintext for every prime, in order. */
  method PartialResults(c: int, e: int, factors: seq<int>) returns (xis: seq<int>)
    requires forall i :: 0 <= i < |factors| ==> factors[i] >= 2
    ensures |xis| == |factors|
    ensures forall j :: 0 <= j < |factors| ==> xis[j] == PartialResult(c, e, factors[j]) && 0 <= xis[j] < factors[j]
  {
    var k := |factors|;
    var di := seq(k, i requires 0 <= i < k => PrimeExponent(e, factors[i]));
    xis := [];
    for i := 0 to k
      invariant |xis| == i
      invariant forall j :: 0 <= j < i ==> xis[j] == PartialResult(c, e, factors[j])
    {
      xis := xis + [ModPow(c, di[i], factors[i])];
    }
  }

  /**
   * The third loop, Garner's recombination: the result lies in [0, product of
   * the factors); with one factor it is xis[0]; with pairwise-coprime factors
   * it is congruent to xis[j] modulo factor j for every j.
   */
  method GarnerCombine(factors: seq<int>, xis: seq<int>, tis: seq<int>) returns (x: int)
    requires GarnerInputs(factors, xis, tis)
    ensures 0 <= x < Product(factors)
    ensures |factors| == 1 ==> x == xis[0]
    ensures PairwiseCoprime(factors) ==> forall j :: 0 <= j < |factors| ==> x % factors[j] == xis[j]
  {
    var k := |factors|;
    x := xis[0];
    var m := factors[0];
    GarnerStart(factors, xis, tis);
    for i := 1 to k
      invariant GarnerState(factors, xis, i, x, m)
      invariant i == 1 ==> x == xis[0]
    {
      var ri := factors[i];
      var u := ((xis[i] - x % ri) * tis[i]) % ri;
      var x' := x + m * u;
      var m' := m * ri;
      GarnerIteration(factors, xis, tis, i, x, m, u, x', m');
      x, m := x', m';
    }
    assert factors[..k] == factors;
  }

  /**
   * A number below the product of pairwise-coprime factors that agrees with
   * every partial result is what the explicit CRT formula gives.
   */
  lemma AgreesWithSolveCrt(c: int, e: int, factors: seq<int>, x: int)
    requires forall i :: 0 <= i < |factors| ==> factors[i] >= 2
    requires |factors| > 0 && PairwiseCoprime(factors) && 0 <= x < Product(factors)
    requires forall j :: 0 <= j < |factors| ==> x % factors[j] == PartialResult(c, e, factors[j])
    ensures x == SolveCrt(PartialCongruences(c, e, factors))
  {
    var cs := PartialCongruences(c, e, factors);
    forall j | 0 <= j < |cs|
      ensures x % cs[j].modulus == cs[j].residue % cs[j].modulus
    {
      DivModUnique(cs[j].residue, cs[j].modulus, 0, cs[j].residue);
    }
    SolveCrtCharacterization(cs, x);
  }

  /**
   * rsa_crt_distinct_multiprime(c, e, factors): the result lies in
   * [0, product of the factors); with one factor it is that factor's partial
   * result; with pairwise-coprime factors it is congruent to every partial
   * result and so equals the explicit CRT formula on them.
   */
  method RsaCrtDistinctMultiprime(c: int, e: int, factors: seq<int>) returns (x: int)
    requires |factors| > 0
    requires forall i :: 0 <= i < |factors| ==> factors[i] >= 2
    ensures 0 <= x < Product(factors)
    ensures |factors| == 1 ==> x == ModPow(c, ModInv(e, factors[0] - 1), factors[0])
    ensures PairwiseCoprime(factors) ==>
      forall j :: 0 <= j < |factors| ==> x % factors[j] == PartialResult(c, e, factors[j])
    ensures PairwiseCoprime(factors) ==> x == SolveCrt(PartialCongruences(c, e, factors))
  {
    var tis := InverseTable(factors);
    var xis := PartialResults(c, e, factors);
    x := GarnerCombine(factors, xis, tis);
    if PairwiseCoprime(factors) {
      AgreesWithSolveCrt(c, e, factors, x);
    }
  }
}
