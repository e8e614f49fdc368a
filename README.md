# rsa_commons in Dafny

A verified model of the number-theoretic toolkit in
`p4team/crypto_commons/rsa/rsa_commons.py`, the RSA helpers of the p4team
crypto commons library. The model covers the extended Euclidean algorithm and
what is built on it (`gcd`, `gcd_multi`, `lcm`, `lcm_multi`, `modinv`), the
Chinese Remainder Theorem solver `solve_crt`, multi-prime RSA-CRT decryption
with Garner's recombination (`rsa_crt_distinct_multiprime`), Hensel lifting of
polynomial roots (`hensel_lifting`), the Legendre symbol and the
Tonelli-Shanks modular square root (`legendre_symbol`, `modular_sqrt`), and the
small helpers `rsa`, `combine_signatures`, `get_fi_distinct_primes` and
`get_fi_repeated_prime`.

The source is Python 2. For a positive divisor, Python's `/` and `%` on
integers agree with Dafny's Euclidean `/` and `%`, so every modulus in the
model is required to be positive. `reduce` over an empty list raises, so the
folds require a non-empty list. Python's three-argument `pow(b, e, n)` is
`Arith.ModPow`, and the unseen `multiply` helper is `Arith.Product`, the left
fold of `*` with 1 for the empty list.

Where the source works by loops that update variables, the model is a method
proved against a function. `extended_gcd`'s loop is
`Euclid.ComputeExtendedGcd`, and its recursive counterpart is `Euclid.EuclidSteps`.
The three loops of `rsa_crt_distinct_multiprime` are `RsaCrt.InverseTable`,
`RsaCrt.PartialResults` and `RsaCrt.GarnerCombine`. The nested loops of
`hensel_lifting` are `Hensel.LiftCandidate`, `Hensel.LiftRound` and
`Hensel.HenselLifting`. The four loops of `modular_sqrt` are
`TonelliShanks.TwoAdicSplit`, `TonelliShanks.FindNonResidue`,
`TonelliShanks.LeastSquaringOrder` and `TonelliShanks.TonelliLoop`.
Expressions, comprehensions and `reduce` calls become functions.

Files: `arith.dfy` (powers, products, divisibility, congruence lemmas),
`euclid.dfy`, `crt.dfy`, `rsa.dfy`, `rsa_crt.dfy`, `hensel.dfy`,
`tonelli.dfy`.

Where the code and its documented intent differ, the model follows the code,
and the difference is stated here. Two of these places are findings below, and the third is a note on `modular_sqrt`:
- `lcm_multi` is the product divided by `gcd_multi`, which is not the least
  common multiple of three or more numbers.
- `hensel_lifting` uses the step `p**(k-1)` and the test `p**k` in every round,
  rather than one power of `p` per round.
- `modular_sqrt` checks the Legendre symbol before it checks `a == 0` and
  `p == 2`. Both later branches are therefore unreachable; the model marks them
  so and proves why (`TonelliShanks.LegendreOfZero`, `TonelliShanks.LegendreOfTwo`).
  One visible effect: modulo 2 the symbol is always -1, so `modular_sqrt(1, 2)`
  returns 0, although 1 * 1 is 1 modulo 2. The `p == 2` branch would have
  returned 2, which is not a root either, so no single intended result can be
  read off the code, and this is not listed as a finding.

## Model

| member | source | states |
|---|---|---|
| Euclid.ExtendedGcd | p4team/crypto_commons/rsa/rsa_commons.py:71-84 | g >= 0, g == x*a + y*b, and g divides both a and b, for all integers including zero and negatives |
| Euclid.EuclidSteps | p4team/crypto_commons/rsa/rsa_commons.py:78-83 | the divmod loop ends on a non-negative remainder, which is 0 only when both starting remainders are 0 |
| Euclid.EuclidStepsBezout | p4team/crypto_commons/rsa/rsa_commons.py:78-83 | the loop keeps lastx*abs(a) + lasty*abs(b) == lastremainder and x*abs(a) + y*abs(b) == remainder, so the final triple is a Bezout identity |
| Euclid.EuclidStepsDivides | p4team/crypto_commons/rsa/rsa_commons.py:78-83 | the final remainder is non-negative and divides both starting remainders |
| Euclid.ComputeExtendedGcd | p4team/crypto_commons/rsa/rsa_commons.py:71-84 | the while loop on absolute values with sign restoration returns exactly ExtendedGcd(a, b): a Bezout triple whose g divides a and b |
| Euclid.Gcd | p4team/crypto_commons/rsa/rsa_commons.py:87-94 | gcd(a, b) >= 0 divides a and b, and is 0 exactly when a == b == 0 |
| Euclid.GcdGreatest | p4team/crypto_commons/rsa/rsa_commons.py:87-94 | every common divisor of a and b divides gcd(a, b) |
| Euclid.PrimeDividesFactor | p4team/crypto_commons/rsa/rsa_commons.py:71-94 | Euclid's lemma from the Bezout triple: a prime dividing a*b divides a or b |
| Euclid.GcdMulti | p4team/crypto_commons/rsa/rsa_commons.py:97-103 | on a non-empty list the left fold of gcd divides every element and is the element itself for a singleton |
| Euclid.GcdMultiGreatest | p4team/crypto_commons/rsa/rsa_commons.py:97-103 | every common divisor of the list divides gcd_multi |
| Euclid.Lcm | p4team/crypto_commons/rsa/rsa_commons.py:106-113 | when a and b are not both 0 the division is exact: lcm(a,b)*gcd(a,b) == a*b, and a and b divide lcm(a,b) |
| Euclid.LcmLeast | p4team/crypto_commons/rsa/rsa_commons.py:106-113 | lcm(a, b) divides every common multiple of a and b |
| Euclid.LcmMulti | p4team/crypto_commons/rsa/rsa_commons.py:116-122 | with a non-zero gcd_multi the division is exact: lcm_multi(ns)*gcd_multi(ns) == product(ns) |
| Euclid.LcmMultiNotLeast | p4team/crypto_commons/rsa/rsa_commons.py:116-122 | lcm_multi([2, 2, 2]) == 4, which does not divide the common multiple 2 |
| Euclid.LcmFold | p4team/crypto_commons/rsa/rsa_commons.py:116-122 | the left fold of lcm over non-zero numbers is a non-zero common multiple of the list |
| Euclid.LcmFoldLeast | p4team/crypto_commons/rsa/rsa_commons.py:116-122 | the fold divides every common multiple of the list, so it is the least common multiple |
| Euclid.ModInv | p4team/crypto_commons/rsa/rsa_commons.py:125-133 | for y > 0 the result lies in [0, y) and x*modinv(x, y) is congruent to gcd(x, y) modulo y, without any coprimality check |
| Euclid.ModInvIsInverse | p4team/crypto_commons/rsa/rsa_commons.py:125-133 | x*modinv(x, y) is 1 modulo y exactly when gcd(x, y) == 1 |
| Crt.Term | p4team/crypto_commons/rsa/rsa_commons.py:46-48 | each summand of `mults` is a multiple of N / n_i, and is congruent to r_i modulo n_i when N / n_i and n_i are coprime |
| Crt.Terms | p4team/crypto_commons/rsa/rsa_commons.py:45-48 | with N the product of the moduli, summand j of `mults` is 0 modulo every other modulus n_i, and with pairwise-coprime moduli summand i is r_i modulo n_i |
| Crt.SolveCrt | p4team/crypto_commons/rsa/rsa_commons.py:32-49 | the explicit formula's result lies in [0, N), N the product of the moduli |
| Crt.CofactorIsProductOfOthers | p4team/crypto_commons/rsa/rsa_commons.py:46-47 | N / n_i is exact and is the product of the other moduli |
| Crt.SolveCrtSatisfies | p4team/crypto_commons/rsa/rsa_commons.py:32-49 | with positive pairwise-coprime moduli the result is congruent to r_i modulo n_i for every pair |
| Crt.CrtUnique | p4team/crypto_commons/rsa/rsa_commons.py:32-49 | two values in [0, N) with the same residues modulo pairwise-coprime moduli are equal |
| Crt.SolveCrtCharacterization | p4team/crypto_commons/rsa/rsa_commons.py:32-49 | with pairwise-coprime moduli, x == solve_crt(pairs) if and only if x lies in [0, N) and satisfies every congruence |
| Crt.SolveCrtOfThree | p4team/crypto_commons/rsa/rsa_commons.py:32-49 | for three pairwise-coprime moduli, solve_crt returns any x below their product that meets all three congruences |
| Crt.SolveCrtDocExample | p4team/crypto_commons/rsa/rsa_commons.py:34-39 | solve_crt([(1,3), (2,4), (3,5)]) == 58, the documented example |
| Crt.SolveCrtSecondExample | p4team/crypto_commons/rsa/rsa_commons.py:32-49 | solve_crt([(2,3), (3,5), (2,7)]) == 23 |
| RsaPrimitive.Rsa | p4team/crypto_commons/rsa/rsa_commons.py:15-23 | rsa on integers lies in [0, n) |
| RsaPrimitive.RsaOfResidue | p4team/crypto_commons/rsa/rsa_commons.py:15-23 | rsa depends on x only through x mod n |
| RsaPrimitive.RsaMultiplicative | p4team/crypto_commons/rsa/rsa_commons.py:15-23 | raw RSA is multiplicative: rsa(a*b) == rsa(a)*rsa(b) mod n |
| RsaPrimitive.RsaCompose | p4team/crypto_commons/rsa/rsa_commons.py:15-23 | applying rsa with e and then with d equals applying it with e*d |
| RsaPrimitive.CombineSignatures | p4team/crypto_commons/rsa/rsa_commons.py:209-210 | the combined signature lies in [0, N) |
| RsaPrimitive.CombineSignaturesOfParts | p4team/crypto_commons/rsa/rsa_commons.py:209-210 | combining the raw-RSA signatures of the parts gives the signature of their product, the identity the blinding attack relies on |
| RsaPrimitive.GetFiDistinctPrimes | p4team/crypto_commons/rsa/rsa_commons.py:52-58 | the product of p - 1 over a non-empty list is 0 exactly when one of the numbers is 1 |
| RsaPrimitive.GetFiDistinctPrimesAppend | p4team/crypto_commons/rsa/rsa_commons.py:52-58 | appending a number q multiplies get_fi_distinct_primes by q - 1 |
| RsaPrimitive.GetFiDistinctPrimesBounds | p4team/crypto_commons/rsa/rsa_commons.py:52-58 | for factors >= 2 the totient is positive and below the product of the factors |
| RsaPrimitive.GetFiRepeatedPrime | p4team/crypto_commons/rsa/rsa_commons.py:61-68 | p**(k-1)*(p-1) == p**k - p**(k-1) |
| RsaPrimitive.GetFiSinglePrime | p4team/crypto_commons/rsa/rsa_commons.py:52-68 | for one prime both totient helpers agree |
| RsaPrimitive.GetFiRepeatedPrimeBounds | p4team/crypto_commons/rsa/rsa_commons.py:61-68 | for p >= 2 and k >= 1 the totient is positive and below p**k |
| RsaCrt.PrimeExponent | p4team/crypto_commons/rsa/rsa_commons.py:146 | d_i = modinv(e, p - 1) lies in [0, p - 1) |
| RsaCrt.PartialResult | p4team/crypto_commons/rsa/rsa_commons.py:152-154 | the partial plaintext pow(c, d_i, p) lies in [0, p) |
| RsaCrt.InverseTable | p4team/crypto_commons/rsa/rsa_commons.py:147-150 | tis[i] == modinv(product of the factors before i, factor i), which is an inverse modulo factor i when the factors are coprime (`Euclid.ModInvIsInverse`) |
| RsaCrt.PartialResults | p4team/crypto_commons/rsa/rsa_commons.py:146-154 | xis[i] is the partial result for factor i, reduced modulo that factor |
| RsaCrt.GarnerNewResidue | p4team/crypto_commons/rsa/rsa_commons.py:161-162 | when t inverts m modulo r, Garner's update makes x congruent to x_i modulo r |
| RsaCrt.GarnerKeepsResidue | p4team/crypto_commons/rsa/rsa_commons.py:161-162 | adding a multiple of m keeps every residue modulo the factors already processed |
| RsaCrt.GarnerStep | p4team/crypto_commons/rsa/rsa_commons.py:157-162 | one update extends agreement with xis from the first i factors to the first i + 1 |
| RsaCrt.GarnerIteration | p4team/crypto_commons/rsa/rsa_commons.py:157-163 | one iteration keeps m == product of the processed factors, 0 <= x < m, and, with coprime factors, x % factors[j] == xis[j] |
| RsaCrt.GarnerCombine | p4team/crypto_commons/rsa/rsa_commons.py:155-164 | the recombination lies in [0, product), equals xis[0] for one factor, and with pairwise-coprime factors agrees with every xis[j] |
| RsaCrt.AgreesWithSolveCrt | p4team/crypto_commons/rsa/rsa_commons.py:136-164 | a value below the product that agrees with every partial result is solve_crt of the partial results |
| RsaCrt.RsaCrtDistinctMultiprime | p4team/crypto_commons/rsa/rsa_commons.py:136-164 | the result lies in [0, product of factors); for one factor it is pow(c, modinv(e, p-1), p); with pairwise-coprime factors it matches every partial result and equals solve_crt on them |
| Hensel.SimpleDigit | p4team/crypto_commons/rsa/rsa_commons.py:184 | the digit t of the simple-root case lies in [0, p) |
| Hensel.DigitSolves | p4team/crypto_commons/rsa/rsa_commons.py:183-185 | when cx*df + cy*p == 1, the digit t == (-cx*q) % p makes p divide q + t*df |
| Hensel.DigitUnique | p4team/crypto_commons/rsa/rsa_commons.py:183-185 | modulo a prime not dividing df that digit is the only one in [0, p) |
| Hensel.LiftSimple | p4team/crypto_commons/rsa/rsa_commons.py:180-185 | by definition (no proof beyond unfolding), a candidate with df(n) % p != 0 has exactly one successor, n + t*p**j with t taken from extended_gcd(df(n), p) |
| Hensel.LiftOneAt | p4team/crypto_commons/rsa/rsa_commons.py:180-189 | one candidate has at most p successors, and exactly one when p does not divide df(n) |
| Hensel.LiftOneAtSound | p4team/crypto_commons/rsa/rsa_commons.py:180-189 | for a prime p and given the Taylor step, every successor of a root modulo p**j is n + t*p**j with t in [0, p) and a root modulo p**(j+1) |
| Hensel.LiftOneAtExact | p4team/crypto_commons/rsa/rsa_commons.py:180-189 | for a prime p and a root n modulo p**j, n + t*p**j is among the successors exactly when it is a root modulo p**(j+1) |
| Hensel.LiftKeepsResidue | p4team/crypto_commons/rsa/rsa_commons.py:185-189 | a successor is a root modulo p**j exactly when its candidate is |
| Hensel.LiftRoundAt | p4team/crypto_commons/rsa/rsa_commons.py:179-190 | one round over c candidates produces at most p*c values |
| Hensel.LiftRoundAtMembers | p4team/crypto_commons/rsa/rsa_commons.py:179-190 | a round's output holds exactly the successors of the round's candidates |
| Hensel.LiftRoundAtSound | p4team/crypto_commons/rsa/rsa_commons.py:179-190 | for a prime p and given the Taylor step at level j, a round at level j turns roots modulo p**j into roots modulo p**(j+1) |
| Hensel.LiftCandidate | p4team/crypto_commons/rsa/rsa_commons.py:180-189 | the inner loop appends exactly the successors of one candidate to new_solution |
| Hensel.LiftRound | p4team/crypto_commons/rsa/rsa_commons.py:179-190 | one pass of the outer loop's body builds exactly one lifting round of the previous solutions |
| Hensel.HenselLifting | p4team/crypto_commons/rsa/rsa_commons.py:167-191 | the result is k - 1 rounds, all at the fixed level k - 1, from [base], and is [base] for k <= 1; for k == 2, a prime p, a base with p dividing f(base) and the Taylor step at level 1, every result is a root modulo p**2 |
| Hensel.SquareLiftingSound | p4team/crypto_commons/rsa/rsa_commons.py:167-191 | for k == 2, a prime p, a base with p dividing f(base) and the Taylor step at level 1, every result is a root modulo p**2 |
| Hensel.FixedLevelIsLevelForSquare | p4team/crypto_commons/rsa/rsa_commons.py:178-190 | by definition (no proof beyond unfolding), one round at level 1 is the same under the fixed-step and per-level schemes |
| Hensel.FixedLevelRounds | p4team/crypto_commons/rsa/rsa_commons.py:178-190 | the as-written rounds, all at one level, produce at most p**r values after r rounds |
| Hensel.FixedLevelRoundsSimpleCount | p4team/crypto_commons/rsa/rsa_commons.py:183-185 | when p never divides df, every round keeps exactly one candidate |
| Hensel.FixedLevelRoundsFail | p4team/crypto_commons/rsa/rsa_commons.py:178-190 | under the fixed step, a base that is not a root modulo p**(k-1) yields only non-roots modulo p**k |
| Hensel.FixedLevelCounterexample | p4team/crypto_commons/rsa/rsa_commons.py:178-190 | for f(x) = x - 4, p = 3, k = 3 and base 1, the source returns one value that is not a root modulo 27, while per-level lifting returns only roots |
| Hensel.LevelRounds | p4team/crypto_commons/rsa/rsa_commons.py:178-190 | the corrected per-level rounds produce at most p**r values after r rounds |
| Hensel.LevelRoundsSound | p4team/crypto_commons/rsa/rsa_commons.py:167-191 | for a prime p and given the Taylor step at levels 1 to r, per-level lifting from a root modulo p returns only roots modulo p**(r+1) |
| TonelliShanks.Legendre | p4team/crypto_commons/rsa/rsa_commons.py:281-283 | the symbol is -1 or lies in [0, p - 1): it is never p - 1 |
| TonelliShanks.LegendreIsEulerPower | p4team/crypto_commons/rsa/rsa_commons.py:281-283 | the symbol is congruent to a**((p-1)/2) modulo p |
| TonelliShanks.LegendreOfResidue | p4team/crypto_commons/rsa/rsa_commons.py:281-283 | the symbol depends on a only through a mod p |
| TonelliShanks.LegendreMultiplicative | p4team/crypto_commons/rsa/rsa_commons.py:281-283 | the symbol of a*b is the product of the symbols, modulo p |
| TonelliShanks.LegendreOfTwo | p4team/crypto_commons/rsa/rsa_commons.py:249-250 | modulo 2 every symbol is -1, so the p == 2 branch is never reached |
| TonelliShanks.LegendreOfZero | p4team/crypto_commons/rsa/rsa_commons.py:247-248 | the symbol of 0 is -1 for p <= 2 and 0 otherwise, never 1, so the a == 0 branch is never reached |
| TonelliShanks.QuarterPowerRoot | p4team/crypto_commons/rsa/rsa_commons.py:251-252 | for p % 4 == 3 and symbol 1, a**((p+1)/4) mod p squares to a modulo p, prime or not |
| TonelliShanks.TwoAdicSplit | p4team/crypto_commons/rsa/rsa_commons.py:253-257 | the loop leaves s odd and positive with s * 2**e == p - 1 |
| TonelliShanks.FindNonResidue | p4team/crypto_commons/rsa/rsa_commons.py:258-260 | the search returns the least n >= 2 whose symbol is -1 |
| TonelliShanks.NonResidueSearchDiverges | p4team/crypto_commons/rsa/rsa_commons.py:245-260 | modular_sqrt(1, 9) reaches the non-residue search (symbol 1, 9 % 4 == 1), and no n has symbol -1 modulo 9, so the search never ends |
| TonelliShanks.TonelliInit | p4team/crypto_commons/rsa/rsa_commons.py:261-264 | for a prime p, the starting x, b, g and r == e satisfy x*x ≡ a*b, b**(2**(r-1)) ≡ 1 and g**(2**(r-1)) ≡ -1 |
| TonelliShanks.LeastSquaringOrder | p4team/crypto_commons/rsa/rsa_commons.py:265-270 | the for loop leaves m as the least i < r with b**(2**i) ≡ 1, or r - 1 when there is none, or 0 when r == 0 |
| TonelliShanks.SqrtOfOne | p4team/crypto_commons/rsa/rsa_commons.py:265-270 | modulo a prime, the only square roots of 1 are 1 and p - 1 |
| TonelliShanks.HalfOrderIsMinusOne | p4team/crypto_commons/rsa/rsa_commons.py:265-275 | if b**(2**m) ≡ 1 and b**(2**(m-1)) is not 1, then b**(2**(m-1)) ≡ -1 modulo a prime |
| TonelliShanks.TonelliStep | p4team/crypto_commons/rsa/rsa_commons.py:273-278 | one round, with gs = g**(2**(r-m-1)), keeps the invariant with r replaced by the smaller m |
| TonelliShanks.TonelliLoop | p4team/crypto_commons/rsa/rsa_commons.py:265-278 | the while True loop terminates because r strictly decreases; it returns x in [0, p); for every p it keeps x*x ≡ a*b, so the result squares to a times the final b; modulo a prime x*x ≡ a |
| TonelliShanks.ModularSqrt | p4team/crypto_commons/rsa/rsa_commons.py:237-278 | the result lies in [0, p); it is 0 when the symbol is not 1; when the symbol is 1 it squares to a modulo p if p % 4 == 3 or p is prime |

## Left out

- `rsa_printable` and `ensure_long` (lines 4-12 and 26-29) convert between bytes and integers through `bytes_to_long`/`long_to_bytes` from `p4team/crypto_commons/generic`, which is not part of this model. `rsa` is modelled on integers only.
- `hastad_broadcast` (lines 194-206) needs `gmpy2.iroot`, an external library, and checks its result with an `assert`. Its CRT step is `solve_crt`, which is modelled.
- `homomorphic_blinding_rsa` (lines 213-234) calls the unseen `find_divisor` and a caller-supplied signing oracle, which may be a network service. Its arithmetic core, `combine_signatures`, is modelled. `RsaPrimitive.CombineSignaturesOfParts` states the multiplicativity the attack relies on.
- `multiply` from `p4team/crypto_commons/generic` is not part of this model. It stands as `Arith.Product`, the left fold of `*` with 1 for the empty list.
- Non-positive moduli are excluded by `requires n > 0` (or `p > 0`, `y > 0`). Python's floor `%` with a negative modulus, and the `ValueError` that `pow(x, e, 0)` raises, are not modelled.
- RsaPrimitive.Rsa: the exponent is a `nat`. Python 2's three-argument `pow` raises `ValueError` for a negative exponent, and `rsa` passes its exponent through unchecked; that error path is not modelled.
- Empty lists, where `reduce` raises `TypeError`, are excluded by `requires |...| > 0`. `GcdMulti`, `GetFiDistinctPrimes` and `SolveCrt` carry this requires.
- RsaCrt.RsaCrtDistinctMultiprime: requires a non-empty list of factors. On an empty list `rsa_crt_distinct_multiprime` raises `IndexError` at `m = factors[0]` (line 147), before any `reduce` runs; that error path is not modelled.
- Euclid.Lcm: requires a and b not both 0. Python would raise `ZeroDivisionError` there.
- Euclid.LcmMulti: requires a non-zero `gcd_multi`. Python would raise `ZeroDivisionError` otherwise.
- RsaPrimitive.GetFiRepeatedPrime: requires k >= 1. For k == 0 Python 2's `pow(p, -1)` returns a float. The default argument `k=1` is not modelled; a caller passes k explicitly, and `GetFiRepeatedPrime(p, 1)` is that default call.
- Hensel.HenselLifting: requires p > 0. The source is meant for a prime p, and with p <= 0 Python's `range(0, p)` and `%` behave differently.
- Hensel.HenselLifting: `f` and `df` are arbitrary functions of integers. That df is the derivative of a polynomial f enters the soundness lemmas as the first-order Taylor hypothesis `TaylorStep`/`TaylorAt`, which holds for polynomials but is not derived from a polynomial representation.
- Hensel.HenselLifting: the method's root guarantee is stated for k == 2 only. For larger k the fixed step is wrong (see Findings), and `FixedLevelRoundsFail` states what happens instead.
- Any claim that needs Fermat's little theorem or Euler's criterion is left out, because the code never checks primality. This covers the full RSA decrypt-after-encrypt round trip, the symbol being exactly -1, 0 or 1 modulo an odd prime, and a symbol of -1 implying that no root exists.
- TonelliShanks.ModularSqrt: requires that some n >= 2 has symbol -1 whenever the general path is reached. `modular_sqrt` searches upward from 2 (lines 258-260) and never stops without one. This happens: `modular_sqrt(1, 9)` never returns, because the symbol of 1 modulo 9 is 1, 9 % 4 == 1, and n**4 mod 9 is never 8 (`TonelliShanks.NonResidueSearchDiverges`). For a prime p such an n exists, but proving that would need Euler's criterion.
- TonelliShanks.ModularSqrt: the square-root guarantee of the general path is stated for a prime p only. The p % 4 == 3 branch is proved for every p. For a composite p, `TonelliShanks.TonelliLoop` still states that the result squares to a times the loop's final b.
- Python's unbounded integers are Dafny's `int`; no fixed-width arithmetic is involved.

## Findings

| source | as written | input that shows it | evidently intended | confidence | as-written member | corrected member |
|---|---|---|---|---|---|---|
| p4team/crypto_commons/rsa/rsa_commons.py:116-122 | `lcm_multi` returns `multiply(numbers) / gcd_multi(numbers)` | `lcm_multi([2, 2, 2])` is 8 / 2 == 4, but 2 is a common multiple and 4 does not divide it | the least common multiple of the list (its docstring says lcm(a,b,c,d,...)), as a left fold of `lcm` | high; proved, not executed | Euclid.LcmMultiNotLeast | Euclid.LcmFold, Euclid.LcmFoldLeast |
| p4team/crypto_commons/rsa/rsa_commons.py:178-189 | every one of the k - 1 rounds lifts with the step `p**(k-1)` and tests `p**k` | f(x) = x - 4, df(x) = 1, p = 3, k = 3, base 1 (a root modulo 3): the result is one value that is not a root modulo 27 | round j lifts roots modulo p**j to roots modulo p**(j+1), giving roots modulo p**k (the docstring: solutions to f(x) = 0 mod p^k) | high; proved, not executed | Hensel.FixedLevelCounterexample, Hensel.FixedLevelRoundsFail | Hensel.LevelRounds, Hensel.LevelRoundsSound |
