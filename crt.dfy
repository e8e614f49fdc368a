/**
 * solve_crt: the Chinese Remainder Theorem by its explicit formula
 * x = (sum of r_i * (N / n_i) * modinv(N / n_i, n_i)) mod N, N the product
 * of the moduli.
 */
module Crt {
  import opened Arith
  import opened Euclid

  /** One congruence x == residue (mod modulus): a pair of solve_crt's input list. */
  datatype Congruence = Congruence(residue: int, modulus: int)

  /** The moduli of a list of congruences, in order. */
  function Moduli(cs: seq<Congruence>): (ms: seq<int>)
    ensures |ms| == |cs|
    ensures forall i :: 0 <= i < |cs| ==> ms[i] == cs[i].modulus
  {
    seq(|cs|, i requires 0 <= i < |cs| => cs[i].modulus)
  }

  predicate PositiveModuli(cs: seq<Congruence>)
  {
    forall i :: 0 <= i < |cs| ==> cs[i].modulus > 0
  }

  /** Every two distinct positions hold coprime numbers. */
  predicate PairwiseCoprime(ms: seq<int>)
  {
    forall i, j :: 0 <= i < |ms| && 0 <= j < |ms| && i != j ==> Gcd(ms[i], ms[j]) == 1
  }

  /**
   * One summand of the formula: r * (N / n) * modinv(N / n, n). It is a
   * multiple of N / n, and it is r modulo n when N / n and n are coprime.
   */
  function Term(c: Congruence, bigN: int): (t: int)
    requires c.modulus > 0
    ensures Divides(bigN / c.modulus, t)
    ensures Gcd(bigN / c.modulus, c.modulus) == 1 ==> t % c.modulus == c.residue % c.modulus
  {
    var cofactor := bigN / c.modulus;
    var inv := ModInv(cofactor, c.modulus);
    DividesIntro(cofactor, c.residue * cofactor * inv, c.residue * inv);
    ModInvIsInverse(cofactor, c.modulus);
    TimesInverse(c.residue, cofactor, inv, c.modulus);
    c.residue * cofactor * inv
  }

  /**
   * The list `mults` of solve_crt, with N the product of the moduli: summand
   * j vanishes modulo every other modulus, and, when the moduli are pairwise
   * coprime, summand i is r_i modulo n_i.
   */
  function Terms(cs: seq<Congruence>, bigN: int): (ts: seq<int>)
    requires PositiveModuli(cs) && bigN == Product(Moduli(cs))
    ensures |ts| == |cs| && forall i :: 0 <= i < |cs| ==> ts[i] == Term(cs[i], bigN)
    ensures forall i, j :: 0 <= i < |cs| && 0 <= j < |cs| && i != j ==> ts[j] % cs[i].modulus == 0
    ensures PairwiseCoprime(Moduli(cs)) ==>
      forall i :: 0 <= i < |cs| ==> ts[i] % cs[i].modulus == cs[i].residue % cs[i].modulus
  {
    TermResidues(cs);
    seq(|cs|, i requires 0 <= i < |cs| => Term(cs[i], bigN))
  }

  /**
   * solve_crt(residue_and_moduli): the result lies in [0, N) for N the
   * product of the moduli.
   */
  function SolveCrt(cs: seq<Congruence>): (x: int)
    requires |cs| > 0 && PositiveModuli(cs)
    ensures 0 <= x < Product(Moduli(cs))
  {
    var bigN := Product(Moduli(cs));
    ProductPositive(Moduli(cs));
    Sum(Terms(cs, bigN)) % bigN
  }

  /** N / n_j is the product of the other moduli. */
  lemma CofactorIsProductOfOthers(ms: seq<int>, j: nat)
    requires j < |ms| && ms[j] > 0
    ensures Product(ms) / ms[j] == Product(RemoveAt(ms, j))
  {
    ProductRemove(ms, j);
    DivModUnique(Product(ms), ms[j], Product(RemoveAt(ms, j)), 0);
  }

  /** A list of numbers each coprime to n has a product coprime to n. */
  lemma {:induction false} CoprimeProductList(s: seq<int>, n: int)
    requires forall i :: 0 <= i < |s| ==> Gcd(s[i], n) == 1
    ensures Gcd(Product(s), n) == 1
    decreases |s|
  {
    if |s| == 0 {
      BezoutCoprime(1, n, 1, 0);
    } else {
      var init := s[..|s| - 1];
      CoprimeProductList(init, n);
      CoprimeMul(Product(init), s[|s| - 1], n);
    }
  }

  /** Term j vanishes mod n_i for j != i: n_i is one of the factors of N / n_j. */
  lemma OtherTermVanishes(cs: seq<Congruence>, i: nat, j: nat)
    requires PositiveModuli(cs) && i < |cs| && j < |cs| && i != j
    ensures Term(cs[j], Product(Moduli(cs))) % cs[i].modulus == 0
  {
    var ms := Moduli(cs);
    var rest := RemoveAt(ms, j);
    var k := if i < j then i else i - 1;
    assert rest[k] == ms[i];
    ElementDividesProduct(rest, k);
    CofactorIsProductOfOthers(ms, j);
    DividesTrans(ms[i], Product(ms) / ms[j], Term(cs[j], Product(ms)));
  }

  /** OtherTermVanishes and OwnTermIsResidue for every index. */
  lemma TermResidues(cs: seq<Congruence>)
    requires PositiveModuli(cs)
    ensures forall i, j :: 0 <= i < |cs| && 0 <= j < |cs| && i != j ==>
      Term(cs[j], Product(Moduli(cs))) % cs[i].modulus == 0
    ensures PairwiseCoprime(Moduli(cs)) ==>
      forall i :: 0 <= i < |cs| ==> Term(cs[i], Product(Moduli(cs))) % cs[i].modulus == cs[i].residue % cs[i].modulus
  {
    forall i, j | 0 <= i < |cs| && 0 <= j < |cs| && i != j
      ensures Term(cs[j], Product(Moduli(cs))) % cs[i].modulus == 0
    {
      OtherTermVanishes(cs, i, j);
    }
    if PairwiseCoprime(Moduli(cs)) {
      forall i | 0 <= i < |cs|
        ensures Term(cs[i], Product(Moduli(cs))) % cs[i].modulus == cs[i].residue % cs[i].modulus
      {
        OwnTermIsResidue(cs, i);
      }
    }
  }

  /** Term i is r_i mod n_i when the moduli are pairwise coprime. */
  lemma OwnTermIsResidue(cs: seq<Congruence>, i: nat)
    requires PositiveModuli(cs) && i < |cs| && PairwiseCoprime(Moduli(cs))
    ensures Term(cs[i], Product(Moduli(cs))) % cs[i].modulus == cs[i].residue % cs[i].modulus
  {
    var ms := Moduli(cs);
    var n, r := ms[i], cs[i].residue;
    var rest := RemoveAt(ms, i);
    forall k | 0 <= k < |rest|
      ensures Gcd(rest[k], n) == 1
    {
      if k < i {
        assert rest[k] == ms[k];
      } else {
        assert rest[k] == ms[k + 1];
      }
    }
    CoprimeProductList(rest, n);
    CofactorIsProductOfOthers(ms, i);
    var cofactor := Product(ms) / n;
    var inv := ModInv(cofactor, n);
    ModInvIsInverse(cofactor, n);
    assert Term(cs[i], Product(ms)) == (r * cofactor) * inv;
    TimesInverse(r, cofactor, inv, n);
  }

  /** Multiplying by a number and then by its inverse mod n leaves the residue mod n. */
  lemma TimesInverse(r: int, a: int, inv: int, n: int)
    requires n > 0
    ensures (a * inv) % n == 1 % n ==> ((r * a) * inv) % n == r % n
  {
    assert (r * a) * inv == r * (a * inv);
    ModMulRight(r, a * inv, n);
    ModMulRight(r, 1, n);
  }

  /** solve_crt's result satisfies congruence i when the moduli are pairwise coprime. */
  lemma SolveCrtSatisfiesAt(cs: seq<Congruence>, i: nat)
    requires |cs| > 0 && PositiveModuli(cs) && PairwiseCoprime(Moduli(cs)) && i < |cs|
    ensures SolveCrt(cs) % cs[i].modulus == cs[i].residue % cs[i].modulus
  {
    var ms := Moduli(cs);
    var bigN := Product(ms);
    var n := ms[i];
    var ts := Terms(cs, bigN);
    SumModSingle(ts, i, n);
    ProductPositive(ms);
    ElementDividesProduct(ms, i);
    ModOfMultiple(Sum(ts), n, bigN);
  }

  /**
   * With positive, pairwise-coprime moduli, solve_crt returns a solution of
   * every congruence of its input.
   */
  lemma SolveCrtSatisfies(cs: seq<Congruence>)
    requires |cs| > 0 && PositiveModuli(cs) && PairwiseCoprime(Moduli(cs))
    ensures forall i :: 0 <= i < |cs| ==> SolveCrt(cs) % cs[i].modulus == cs[i].residue % cs[i].modulus
  {
    forall i | 0 <= i < |cs|
      ensures SolveCrt(cs) % cs[i].modulus == cs[i].residue % cs[i].modulus
    {
      SolveCrtSatisfiesAt(cs, i);
    }
  }

  /** Numbers congruent modulo each of pairwise-coprime moduli differ by a multiple of their product. */
  lemma {:induction false} ProductDividesDifference(ms: seq<int>, x: int, y: int)
    requires forall i :: 0 <= i < |ms| ==> ms[i] > 0
    requires PairwiseCoprime(ms)
    requires forall i :: 0 <= i < |ms| ==> x % ms[i] == y % ms[i]
    ensures Divides(Product(ms), x - y)
    decreases |ms|
  {
    if |ms| == 0 {
      DividesIntro(1, x - y, x - y);
    } else {
      var init, last := ms[..|ms| - 1], ms[|ms| - 1];
      assert PairwiseCoprime(init) by {
        forall i, j | 0 <= i < |init| && 0 <= j < |init| && i != j
          ensures Gcd(init[i], init[j]) == 1
        {
          assert init[i] == ms[i] && init[j] == ms[j];
        }
      }
      ProductDividesDifference(init, x, y);
      forall i | 0 <= i < |init|
        ensures Gcd(init[i], last) == 1
      {
        assert init[i] == ms[i];
      }
      CoprimeProductList(init, last);
      ModEqDivides(x, y, last);
      CoprimeDividesProduct(Product(init), last, x - y);
    }
  }

  /** Pairwise-coprime moduli determine a value in [0, N) by its residues. */
  lemma CrtUnique(ms: seq<int>, x: int, y: int)
    requires forall i :: 0 <= i < |ms| ==> ms[i] > 0
    requires PairwiseCoprime(ms)
    requires 0 <= x < Product(ms) && 0 <= y < Product(ms)
    requires forall i :: 0 <= i < |ms| ==> x % ms[i] == y % ms[i]
    ensures x == y
  {
    ProductDividesDifference(ms, x, y);
    SmallMultipleIsZero(x - y, Product(ms));
  }

  /**
   * With positive, pairwise-coprime moduli, solve_crt's result is the only
   * value in [0, N) that satisfies every congruence.
   */
  lemma SolveCrtCharacterization(cs: seq<Congruence>, x: int)
    requires |cs| > 0 && PositiveModuli(cs) && PairwiseCoprime(Moduli(cs))
    ensures x == SolveCrt(cs) <==>
      0 <= x < Product(Moduli(cs)) && forall i :: 0 <= i < |cs| ==> x % cs[i].modulus == cs[i].residue % cs[i].modulus
  {
    SolveCrtSatisfies(cs);
    var ms := Moduli(cs);
    if 0 <= x < Product(ms) && forall i :: 0 <= i < |cs| ==> x % cs[i].modulus == cs[i].residue % cs[i].modulus {
      CrtUnique(ms, x, SolveCrt(cs));
    }
  }

  /** Three numbers that are coprime in every order are pairwise coprime. */
  lemma PairwiseCoprimeOfThree(a: int, b: int, c: int)
    requires Gcd(a, b) == 1 && Gcd(b, a) == 1 && Gcd(a, c) == 1
    requires Gcd(c, a) == 1 && Gcd(b, c) == 1 && Gcd(c, b) == 1
    ensures PairwiseCoprime([a, b, c])
  {
  }

  lemma ProductOfThree(a: int, b: int, c: int)
    ensures Product([a, b, c]) == a * b * c
  {
    assert [a][..0] == [];
    assert Product([a]) == a;
    assert [a, b][..1] == [a];
    assert Product([a, b]) == a * b;
    assert [a, b, c][..2] == [a, b];
  }

  /** Three pairwise-coprime congruences: x is the solution exactly when it is below the product and meets all three. */
  lemma SolveCrtOfThree(r1: int, n1: int, r2: int, n2: int, r3: int, n3: int, x: int)
    requires n1 > 0 && n2 > 0 && n3 > 0
    requires Gcd(n1, n2) == 1 && Gcd(n2, n1) == 1 && Gcd(n1, n3) == 1
    requires Gcd(n3, n1) == 1 && Gcd(n2, n3) == 1 && Gcd(n3, n2) == 1
    requires 0 <= x < n1 * n2 * n3
    requires x % n1 == r1 % n1 && x % n2 == r2 % n2 && x % n3 == r3 % n3
    ensures SolveCrt([Congruence(r1, n1), Congruence(r2, n2), Congruence(r3, n3)]) == x
  {
    var cs := [Congruence(r1, n1), Congruence(r2, n2), Congruence(r3, n3)];
    assert Moduli(cs) == [n1, n2, n3];
    PairwiseCoprimeOfThree(n1, n2, n3);
    ProductOfThree(n1, n2, n3);
    forall i | 0 <= i < |cs|
      ensures x % cs[i].modulus == cs[i].residue % cs[i].modulus
    {
      if i == 0 {
        assert cs[i] == Congruence(r1, n1);
      } else if i == 1 {
        assert cs[i] == Congruence(r2, n2);
      } else {
        assert cs[i] == Congruence(r3, n3);
      }
    }
    SolveCrtCharacterization(cs, x);
  }

  /** The documented example: x = 1 mod 3, x = 2 mod 4, x = 3 mod 5 gives 58. */
  lemma SolveCrtDocExample()
    ensures SolveCrt([Congruence(1, 3), Congruence(2, 4), Congruence(3, 5)]) == 58
  {
    assert 58 % 3 == 1 % 3 && 58 % 4 == 2 % 4 && 58 % 5 == 3 % 5;
    BezoutCoprime(3, 4, -1, 1);
    BezoutCoprime(4, 3, 1, -1);
    BezoutCoprime(3, 5, 2, -1);
    BezoutCoprime(5, 3, -1, 2);
    BezoutCoprime(4, 5, -1, 1);
    BezoutCoprime(5, 4, 1, -1);
    SolveCrtOfThree(1, 3, 2, 4, 3, 5, 58);
  }

  /** A second example: x = 2 mod 3, x = 3 mod 5, x = 2 mod 7 gives 23. */
  lemma SolveCrtSecondExample()
    ensures SolveCrt([Congruence(2, 3), Congruence(3, 5), Congruence(2, 7)]) == 23
  {
    assert 23 % 3 == 2 % 3 && 23 % 5 == 3 % 5 && 23 % 7 == 2 % 7;
    BezoutCoprime(3, 5, 2, -1);
    BezoutCoprime(5, 3, -1, 2);
    BezoutCoprime(3, 7, -2, 1);
    BezoutCoprime(7, 3, 1, -2);
    BezoutCoprime(5, 7, 3, -2);
    BezoutCoprime(7, 5, -2, 3);
    SolveCrtOfThree(2, 3, 3, 5, 2, 7, 23);
  }
}
