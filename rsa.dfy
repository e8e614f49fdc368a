/**
 * The integer RSA primitive `rsa`, the signature combination of the
 * blinding attack, and the two Euler-totient helpers.
 */
module RsaPrimitive {
  import opened Arith

  /** rsa(x, exp, n) on integers: x ** exp mod n, a value in [0, n). */
  function Rsa(x: int, exp: nat, n: int): (r: int)
    requires n > 0
    ensures 0 <= r < n
  {
    ModPow(x, exp, n)
  }

  /** Only the residue of x matters: rsa(x mod n) == rsa(x). */
  lemma RsaOfResidue(x: int, exp: nat, n: int)
    requires n > 0
    ensures Rsa(x % n, exp, n) == Rsa(x, exp, n)
  {
    PowMod(x, exp, n);
  }

  /** Raw RSA is multiplicative: rsa(a*b) == rsa(a) * rsa(b) mod n. */
  lemma RsaMultiplicative(a: int, b: int, exp: nat, n: int)
    requires n > 0
    ensures Rsa(a * b, exp, n) == (Rsa(a, exp, n) * Rsa(b, exp, n)) % n
  {
    PowOfProduct(a, b, exp);
    ModMul(Pow(a, exp), Pow(b, exp), n);
  }

  /** Applying rsa with e and then with d is applying it with e*d. */
  lemma RsaCompose(x: int, e: nat, d: nat, n: int)
    requires n > 0
    ensures Rsa(Rsa(x, e, n), d, n) == Rsa(x, e * d, n)
  {
    PowMod(Pow(x, e), d, n);
    PowMul(x, e, d);
  }

  /** combine_signatures(signatures, N): multiply(signatures) mod N. */
  function CombineSignatures(signatures: seq<int>, bigN: int): (r: int)
    requires bigN > 0
    ensures 0 <= r < bigN
  {
    Product(signatures) % bigN
  }

  /** The signatures the raw-RSA oracle with private exponent d gives for each part. */
  function Signatures(parts: seq<int>, d: nat, bigN: int): (sigs: seq<int>)
    requires bigN > 0
    ensures |sigs| == |parts|
    ensures forall i :: 0 <= i < |parts| ==> sigs[i] == Rsa(parts[i], d, bigN)
  {
    seq(|parts|, i requires 0 <= i < |parts| => Rsa(parts[i], d, bigN))
  }

  /**
   * The identity the blinding attack rests on: combining the raw-RSA
   * signatures of the parts gives the signature of their product.
   */
  lemma {:induction false} CombineSignaturesOfParts(parts: seq<int>, d: nat, bigN: int)
    requires bigN > 0
    ensures CombineSignatures(Signatures(parts, d, bigN), bigN) == Rsa(Product(parts), d, bigN)
    decreases |parts|
  {
    var sigs := Signatures(parts, d, bigN);
    if |parts| == 0 {
      assert Product(sigs) == 1;
      assert Pow(1, d) == 1 by { PowOfOne(d); }
    } else {
      var init, last := parts[..|parts| - 1], parts[|parts| - 1];
      assert sigs[..|sigs| - 1] == Signatures(init, d, bigN);
      CombineSignaturesOfParts(init, d, bigN);
      var pi := Product(Signatures(init, d, bigN));
      var s := Rsa(last, d, bigN);
      assert Product(sigs) == pi * s;
      calc {
        CombineSignatures(sigs, bigN);
        (pi * s) % bigN;
        { ModMulLeft(pi, s, bigN); }
        ((pi % bigN) * s) % bigN;
        (Rsa(Product(init), d, bigN) * Rsa(last, d, bigN)) % bigN;
        { RsaMultiplicative(Product(init), last, d, bigN); }
        Rsa(Product(init) * last, d, bigN);
      }
    }
  }

  lemma {:induction false} PowOfOne(e: nat)
    ensures Pow(1, e) == 1
  {
    if e > 0 {
      PowOfOne(e - 1);
    }
  }

  /** The numbers p - 1 for each p of the list. */
  function Decrements(primes: seq<int>): (r: seq<int>)
    ensures |r| == |primes| && forall i :: 0 <= i < |primes| ==> r[i] == primes[i] - 1
  {
    seq(|primes|, i requires 0 <= i < |primes| => primes[i] - 1)
  }

  /**
   * get_fi_distinct_primes(primes): the product of p - 1 over the list. It
   * is 0 exactly when one of the numbers is 1.
   */
  function GetFiDistinctPrimes(primes: seq<int>): (r: int)
    requires |primes| > 0
    ensures r == 0 <==> exists i :: 0 <= i < |primes| && primes[i] == 1
  {
    var ds := Decrements(primes);
    ProductZero(ds);
    assert forall i :: 0 <= i < |primes| ==> (ds[i] == 0 <==> primes[i] == 1);
    Product(ds)
  }

  /** get_fi_repeated_prime(p, k): p ** (k - 1) * (p - 1), that is p**k - p**(k-1). */
  function GetFiRepeatedPrime(p: int, k: int): (r: int)
    requires k >= 1
    ensures r == Pow(p, k) - Pow(p, k - 1)
  {
    assert Pow(p, k) == p * Pow(p, k - 1);
    Pow(p, k - 1) * (p - 1)
  }

  /** Adding a prime multiplies the totient by p - 1. */
  lemma GetFiDistinctPrimesAppend(primes: seq<int>, q: int)
    requires |primes| > 0
    ensures GetFiDistinctPrimes(primes + [q]) == GetFiDistinctPrimes(primes) * (q - 1)
  {
    assert Decrements(primes + [q]) == Decrements(primes) + [q - 1];
    ProductAppend(Decrements(primes), q - 1);
  }

  /** For a single prime both totient helpers agree. */
  lemma GetFiSinglePrime(p: int)
    ensures GetFiDistinctPrimes([p]) == GetFiRepeatedPrime(p, 1)
  {
    assert Decrements([p]) == [p - 1];
    assert [p - 1][..0] == [];
    assert Product([p - 1]) == p - 1;
    assert Pow(p, 0) == 1;
  }

  /** With every factor at least 2 the totient is positive and below the modulus. */
  lemma {:induction false} GetFiDistinctPrimesBounds(primes: seq<int>)
    requires |primes| > 0 && forall i :: 0 <= i < |primes| ==> primes[i] >= 2
    ensures 0 < GetFiDistinctPrimes(primes) < Product(primes)
    decreases |primes|
  {
    var init, last := primes[..|primes| - 1], primes[|primes| - 1];
    if |primes| == 1 {
      GetFiSinglePrime(last);
      assert primes == [last];
      assert [last][..0] == [];
    } else {
      GetFiDistinctPrimesBounds(init);
      assert primes == init + [last];
      GetFiDistinctPrimesAppend(init, last);
      var a, big := GetFiDistinctPrimes(init), Product(init);
      MulStrict(a, big, last - 1, last);
    }
  }

  lemma MulStrict(a: int, big: int, b: int, bigB: int)
    requires 0 < a < big && 0 < b < bigB
    ensures 0 < a * b < big * bigB
  {
    assert a * b < big * b;
    assert big * b < big * bigB;
  }

  /** For p >= 2, get_fi_repeated_prime(p, k) is positive and below p**k. */
  lemma GetFiRepeatedPrimeBounds(p: int, k: int)
    requires p >= 2 && k >= 1
    ensures 0 < GetFiRepeatedPrime(p, k) < Pow(p, k)
  {
    PowPositive(p, k - 1);
    RepeatedPrimeAtLeast(p, k);
  }

  /** p ** (k - 1) * (p - 1) is at least p ** (k - 1) when p >= 2. */
  lemma RepeatedPrimeAtLeast(p: int, k: int)
    requires p >= 2 && k >= 1 && Pow(p, k - 1) > 0
    ensures GetFiRepeatedPrime(p, k) >= Pow(p, k - 1)
  {
    MulAtLeast(Pow(p, k - 1), p - 1);
  }
}
