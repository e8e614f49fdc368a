/**
 * hensel_lifting(f, df, p, k, base_solution): lifting a root of a polynomial
 * f modulo a prime p to roots modulo p^k, one power of p per round.
 *
 * A candidate n that is a root modulo P == p^j is lifted to the numbers
 * n + t*P with 0 <= t < p that are roots modulo p^(j+1):
 *  - a simple root (p does not divide f'(n)) has exactly one such lift, with
 *    t == -(f'(n))^-1 * (f(n) / P) mod p;
 *  - a multiple root (p divides f'(n)) lifts to all p of them when f(n) is
 *    already 0 modulo p^(j+1), and to none otherwise.
 *
 * `hensel_lifting` performs every one of its k - 1 rounds with the same step
 * P == p^(k-1), which is the right step only for the last level.
 * FixedLevelRounds models that; LevelRounds is the per-level lifting the
 * docstring describes, and the lemmas prove it sound.
 *
 * The polynomial is given by the caller as f and its derivative as df; the
 * one fact of calculus the lifting rests on (the first-order Taylor
 * expansion f(n + t*P) == f(n) + t*P*f'(n) modulo p*P) is the hypothesis
 * TaylorStep.
 */
module Hensel {
  import opened Arith
  import opened Euclid

  /** t of the simple-root case: (-(extended_gcd(dfr, p)[1]) * (fr / P)) % p. */
  function SimpleDigit(dfr: int, fr: int, p: int, P: int): (t: int)
    requires p > 0 && P > 0
    ensures 0 <= t < p
  {
    ((-BezoutCoefficient(dfr, p)) * (fr / P)) % p
  }

  /**
   * The lifts of one candidate n from level j (roots modulo p^j) to level
   * j + 1, in the order `hensel_lifting` appends them: the simple-root lift, then
   * the p lifts of a multiple root.
   */
  function LiftOneAt(f: int -> int, df: int -> int, p: int, j: nat, n: int): (lifts: seq<int>)
    requires p > 0
    ensures |lifts| <= p
    ensures df(n) % p != 0 ==> |lifts| == 1
  {
    PowPositive(p, j);
    PowPositive(p, j + 1);
    var P := Pow(p, j);
    var dfr, fr := df(n), f(n);
    (if dfr % p != 0 then [n + SimpleDigit(dfr, fr, p, P) * P] else [])
    + (if dfr % p == 0 && fr % Pow(p, j + 1) == 0 then seq(p, t requires 0 <= t < p => n + t * P) else [])
  }

  /** One round: the lifts of every candidate, concatenated in candidate order. */
  function LiftRoundAt(f: int -> int, df: int -> int, p: int, j: nat, cands: seq<int>): (next: seq<int>)
    requires p > 0
    ensures |next| <= p * |cands|
  {
    if |cands| == 0 then []
    else
      var init := cands[..|cands| - 1];
      assert p * |init| + p == p * |cands|;
      LiftRoundAt(f, df, p, j, init) + LiftOneAt(f, df, p, j, cands[|cands| - 1])
  }

  /** `hensel_lifting`'s rounds: r rounds from [base], every one of them at the same level. */
  function FixedLevelRounds(f: int -> int, df: int -> int, p: int, level: nat, base: int, r: nat): (sols: seq<int>)
    requires p > 0
    ensures |sols| <= Pow(p, r)
  {
    if r == 0 then [base]
    else
      var prev := FixedLevelRounds(f, df, p, level, base, r - 1);
      MulMonotone(p, |prev|, Pow(p, r - 1));
      LiftRoundAt(f, df, p, level, prev)
  }

  /** The intended rounds: round j lifts roots modulo p^j to roots modulo p^(j+1). */
  function LevelRounds(f: int -> int, df: int -> int, p: int, base: int, r: nat): (sols: seq<int>)
    requires p > 0
    ensures |sols| <= Pow(p, r)
  {
    if r == 0 then [base]
    else
      var prev := LevelRounds(f, df, p, base, r - 1);
      MulMonotone(p, |prev|, Pow(p, r - 1));
      LiftRoundAt(f, df, p, r, prev)
  }

  /** Multiplying by a positive p keeps order. */
  lemma MulMonotone(p: int, a: int, b: int)
    requires p > 0 && a <= b
    ensures p * a <= p * b
  {
  }

  /** The number of rounds `hensel_lifting` performs: len(range(k - 1)). */
  function RoundCount(k: int): nat
  {
    if k > 1 then k - 1 else 0
  }

  /** The first-order Taylor expansion of f around n with step t * p^j, modulo p^(j+1). */
  predicate TaylorStep(f: int -> int, df: int -> int, p: int, j: nat, n: int, t: int)
  {
    Divides(Pow(p, j + 1), f(n + t * Pow(p, j)) - f(n) - t * Pow(p, j) * df(n))
  }

  /** The Taylor expansion at level j holds around every point, for every digit. */
  ghost predicate TaylorAt(f: int -> int, df: int -> int, p: int, j: nat)
  {
    forall n, t :: TaylorStep(f, df, p, j, n, t)
  }

  /** s is n + t*p^j for a digit t in [0, p). */
  predicate IsLift(s: int, n: int, p: int, j: nat)
  {
    var P := Pow(p, j);
    P > 0 && (s - n) % P == 0 && 0 <= (s - n) / P < p
  }

  // ---------------------------------------------------------------------
  // Algebra of one lifting step
  // ---------------------------------------------------------------------

  /** The simple-root digit solves q + t*dfr == 0 modulo p. */
  lemma DigitSolves(dfr: int, q: int, p: int, cx: int, cy: int)
    requires p > 0 && cx * dfr + cy * p == 1
    ensures Divides(p, q + (((-cx) * q) % p) * dfr)
  {
    var t, a := ((-cx) * q) % p, ((-cx) * q) / p;
    assert (-cx) * q == p * a + t;
    var w := q * cy - a * dfr;
    assert t * dfr == ((-cx) * q - p * a) * dfr;
    assert ((-cx) * q - p * a) * dfr == -q * (cx * dfr) - p * (a * dfr);
    assert -q * (cx * dfr) == -q * (1 - cy * p);
    assert q + t * dfr == p * w;
    DividesIntro(p, q + t * dfr, w);
  }

  /** Two digits in [0, p) that both solve q + t*dfr == 0 modulo a prime not dividing dfr are equal. */
  lemma DigitUnique(dfr: int, q: int, p: int, t: int, d: int)
    requires IsPrime(p) && !Divides(p, dfr) && 0 <= t < p && 0 <= d < p
    requires Divides(p, q + t * dfr) && Divides(p, q + d * dfr)
    ensures t == d
  {
    DividesLinear(p, q + t * dfr, q + d * dfr, 1, -1);
    assert 1 * (q + t * dfr) + (-1) * (q + d * dfr) == (t - d) * dfr;
    PrimeDividesFactor(p, t - d, dfr);
    SmallMultipleIsZero(t - d, p);
  }

  /** d divides a - b: then d divides a exactly when it divides b. */
  lemma DividesShift(d: int, a: int, b: int)
    requires Divides(d, a - b)
    ensures Divides(d, a) <==> Divides(d, b)
  {
    if Divides(d, a) {
      DividesLinear(d, a, a - b, 1, -1);
      assert 1 * a + (-1) * (a - b) == b;
    }
    if Divides(d, b) {
      DividesLinear(d, a - b, b, 1, 1);
      assert 1 * (a - b) + 1 * b == a;
    }
  }

  /** p*P divides P*w exactly when p divides w. */
  lemma DividesScaled(p: int, P: int, w: int)
    requires p > 0 && P > 0
    ensures Divides(p * P, P * w) <==> Divides(p, w)
  {
    if Divides(p, w) {
      DividesElim(p, w);
      var c := w / p;
      assert P * w == (p * P) * c by {
        assert w == p * c;
      }
      DividesIntro(p * P, P * w, c);
    }
    if Divides(p * P, P * w) {
      DividesElim(p * P, P * w);
      var c := (P * w) / (p * P);
      assert P * w == P * (p * c);
      MulCancel(P, w, p * c);
      DividesIntro(p, w, c);
    }
  }

  /** With f(n) == P*q, the Taylor expansion makes n + t*P a root modulo p*P exactly when p divides q + t*f'(n). */
  lemma RootCondition(fs: int, fr: int, dfr: int, p: int, P: int, q: int, t: int)
    requires p > 0 && P > 0 && fr == P * q
    requires Divides(p * P, fs - fr - t * P * dfr)
    ensures Divides(p * P, fs) <==> Divides(p, q + t * dfr)
  {
    DividesShift(p * P, fs, fr + t * P * dfr);
    assert fs - (fr + t * P * dfr) == fs - fr - t * P * dfr;
    assert fr + t * P * dfr == P * (q + t * dfr);
    DividesScaled(p, P, q + t * dfr);
  }

  /** A multiple of p added to w does not change whether p divides it. */
  lemma DividesPlusMultiple(p: int, q: int, t: int, dfr: int)
    requires Divides(p, dfr)
    ensures Divides(p, q + t * dfr) <==> Divides(p, q)
  {
    DividesMul(p, dfr, t);
    assert t * dfr == dfr * t;
    DividesShift(p, q + t * dfr, q);
  }

  /** The digit of n + t*P is t. */
  lemma LiftDigit(n: int, t: int, P: int)
    requires P > 0
    ensures (n + t * P - n) % P == 0 && (n + t * P - n) / P == t
  {
    DivModUnique(n + t * P - n, P, t, 0);
  }

  // ---------------------------------------------------------------------
  // One candidate
  // ---------------------------------------------------------------------

  /**
   * Every lift of n is n + t*p^j for a digit t in [0, p), and, when n is a
   * root modulo p^j and the Taylor expansion holds, a root modulo p^(j+1).
   */
  lemma LiftOneAtSound(f: int -> int, df: int -> int, p: int, j: nat, n: int)
    requires IsPrime(p) && Divides(Pow(p, j), f(n))
    requires forall t :: TaylorStep(f, df, p, j, n, t)
    ensures forall s :: s in LiftOneAt(f, df, p, j, n) ==> IsLift(s, n, p, j) && Divides(Pow(p, j + 1), f(s))
  {
    PowPositive(p, j);
    var P := Pow(p, j);
    var lifts := LiftOneAt(f, df, p, j, n);
    forall s | s in lifts
      ensures IsLift(s, n, p, j) && Divides(Pow(p, j + 1), f(s))
    {
      var i :| 0 <= i < |lifts| && lifts[i] == s;
      var t: int;
      if df(n) % p != 0 {
        t := SimpleDigit(df(n), f(n), p, P);
        assert lifts == [n + t * P];
      } else {
        t := i;
        assert s == n + t * P;
      }
      assert 0 <= t < p && s == n + t * P;
      LiftDigit(n, t, P);
      LiftOneAtExact(f, df, p, j, n, t);
    }
  }

  /**
   * For a root n modulo p^j and a digit t in [0, p), n + t*p^j is among the
   * lifts of n exactly when it is a root modulo p^(j+1): the lifting finds
   * every lift and nothing else.
   */
  lemma LiftOneAtExact(f: int -> int, df: int -> int, p: int, j: nat, n: int, t: int)
    requires IsPrime(p) && Divides(Pow(p, j), f(n)) && 0 <= t < p
    requires forall u :: TaylorStep(f, df, p, j, n, u)
    ensures n + t * Pow(p, j) in LiftOneAt(f, df, p, j, n) <==> Divides(Pow(p, j + 1), f(n + t * Pow(p, j)))
  {
    PowPositive(p, j);
    var P := Pow(p, j);
    var dfr, fr := df(n), f(n);
    assert Pow(p, j + 1) == p * P;
    DividesElim(P, fr);
    var q := fr / P;
    var s := n + t * P;
    assert TaylorStep(f, df, p, j, n, t);
    RootCondition(f(s), fr, dfr, p, P, q, t);
    var lifts := LiftOneAt(f, df, p, j, n);
    if dfr % p != 0 {
      var d := SimpleDigit(dfr, fr, p, P);
      assert lifts == [n + d * P];
      var g := ExtendedGcd(dfr, p);
      BezoutCoefficientIsExtendedGcd(dfr, p);
      assert !Divides(p, dfr);
      PrimeCoprime(dfr, p);
      DigitSolves(dfr, q, p, g.1, g.2);
      assert d == ((-g.1) * q) % p;
      if s in lifts {
        assert s == n + d * P;
        MulCancel(P, t, d);
      }
      if Divides(p, q + t * dfr) {
        DigitUnique(dfr, q, p, t, d);
      }
    } else {
      DividesPlusMultiple(p, q, t, dfr);
      assert fr == P * q;
      DividesScaled(p, P, q);
      if fr % Pow(p, j + 1) == 0 {
        assert lifts == seq(p, u requires 0 <= u < p => n + u * P);
        assert lifts[t] == s;
      } else {
        assert lifts == [];
      }
    }
  }

  /**
   * A candidate whose derivative p does not divide has exactly one lift,
   * n + t*p^j with t == (-(extended_gcd(df(n), p)[1]) * (f(n) / p^j)) % p.
   */
  lemma LiftSimple(f: int -> int, df: int -> int, p: int, j: nat, n: int, cx: int)
    requires p > 0 && df(n) % p != 0 && ExtendedGcd(df(n), p).1 == cx
    ensures Pow(p, j) > 0
    ensures LiftRoundAt(f, df, p, j, [n]) == [n + (((-cx) * (f(n) / Pow(p, j))) % p) * Pow(p, j)]
  {
    PowPositive(p, j);
    BezoutCoefficientIsExtendedGcd(df(n), p);
    assert LiftOneAt(f, df, p, j, n) == [n + (((-cx) * (f(n) / Pow(p, j))) % p) * Pow(p, j)];
    assert [n][..0] == [];
  }

  // ---------------------------------------------------------------------
  // Rounds
  // ---------------------------------------------------------------------

  /** A number is produced by a round exactly when it is a lift of one of the round's candidates. */
  lemma {:induction false} LiftRoundAtMembers(f: int -> int, df: int -> int, p: int, j: nat, cands: seq<int>, s: int)
    requires p > 0
    ensures s in LiftRoundAt(f, df, p, j, cands) <==> exists i :: 0 <= i < |cands| && s in LiftOneAt(f, df, p, j, cands[i])
    decreases |cands|
  {
    if |cands| > 0 {
      var init := cands[..|cands| - 1];
      LiftRoundAtMembers(f, df, p, j, init, s);
      if s in LiftRoundAt(f, df, p, j, init) {
        var i :| 0 <= i < |init| && s in LiftOneAt(f, df, p, j, init[i]);
        assert init[i] == cands[i];
      }
      if exists i :: 0 <= i < |cands| && s in LiftOneAt(f, df, p, j, cands[i]) {
        var i :| 0 <= i < |cands| && s in LiftOneAt(f, df, p, j, cands[i]);
        if i < |cands| - 1 {
          assert init[i] == cands[i];
        }
      }
    }
  }

  /** One round lifts roots modulo p^j to roots modulo p^(j+1). */
  lemma LiftRoundAtSound(f: int -> int, df: int -> int, p: int, j: nat, cands: seq<int>)
    requires IsPrime(p) && TaylorAt(f, df, p, j)
    requires forall n :: n in cands ==> Divides(Pow(p, j), f(n))
    ensures forall s :: s in LiftRoundAt(f, df, p, j, cands) ==> Divides(Pow(p, j + 1), f(s))
  {
    forall s | s in LiftRoundAt(f, df, p, j, cands)
      ensures Divides(Pow(p, j + 1), f(s))
    {
      LiftRoundAtMembers(f, df, p, j, cands, s);
      var i :| 0 <= i < |cands| && s in LiftOneAt(f, df, p, j, cands[i]);
      assert cands[i] in cands;
      LiftOneAtSound(f, df, p, j, cands[i]);
    }
  }

  /**
   * The intended lifting is sound: starting from a root modulo p, every
   * number after r rounds is a root modulo p^(r+1).
   */
  lemma {:induction false} LevelRoundsSound(f: int -> int, df: int -> int, p: int, base: int, r: nat)
    requires IsPrime(p) && Divides(p, f(base))
    requires forall j :: 1 <= j <= r ==> TaylorAt(f, df, p, j)
    ensures forall s :: s in LevelRounds(f, df, p, base, r) ==> Divides(Pow(p, r + 1), f(s))
  {
    if r == 0 {
      assert Pow(p, 1) == p;
    } else {
      LevelRoundsSound(f, df, p, base, r - 1);
      assert TaylorAt(f, df, p, r);
      LiftRoundAtSound(f, df, p, r, LevelRounds(f, df, p, base, r - 1));
    }
  }

  /** The digit of a lift. */
  lemma LiftDigitOf(f: int -> int, df: int -> int, p: int, j: nat, n: int, s: int) returns (t: int)
    requires p > 0 && s in LiftOneAt(f, df, p, j, n)
    ensures Pow(p, j) > 0 && 0 <= t < p && s == n + t * Pow(p, j)
  {
    PowPositive(p, j);
    var P := Pow(p, j);
    var lifts := LiftOneAt(f, df, p, j, n);
    var i :| 0 <= i < |lifts| && lifts[i] == s;
    if df(n) % p != 0 {
      t := SimpleDigit(df(n), f(n), p, P);
      assert lifts == [n + t * P];
    } else {
      t := i;
    }
  }

  /**
   * A lift of n is a root modulo p^j exactly when n is: lifting never
   * repairs a candidate that is not already a root at the step's level.
   */
  lemma LiftKeepsResidue(f: int -> int, df: int -> int, p: int, j: nat, n: int, s: int)
    requires p > 0 && s in LiftOneAt(f, df, p, j, n)
    requires forall t :: TaylorStep(f, df, p, j, n, t)
    ensures Divides(Pow(p, j), f(s)) <==> Divides(Pow(p, j), f(n))
  {
    var t := LiftDigitOf(f, df, p, j, n, s);
    var P := Pow(p, j);
    assert TaylorStep(f, df, p, j, n, t);
    assert Pow(p, j + 1) == P * p;
    DividesIntro(P, P * p, p);
    DividesTrans(P, Pow(p, j + 1), f(s) - f(n) - t * P * df(n));
    StepMultiple(P, f(s), f(n), t, df(n));
    DividesShift(P, f(s), f(n));
  }

  /** If P divides fs - fr - t*P*d, it divides fs - fr. */
  lemma StepMultiple(P: int, fs: int, fr: int, t: int, d: int)
    requires Divides(P, fs - fr - t * P * d)
    ensures Divides(P, fs - fr)
  {
    DividesIntro(P, t * P * d, t * d);
    DividesLinear(P, fs - fr - t * P * d, t * P * d, 1, 1);
  }

  /**
   * `hensel_lifting`'s rounds at a fixed level never produce a root modulo
   * p^level, let alone p^(level+1), from a base that is not one.
   */
  lemma {:induction false} FixedLevelRoundsFail(f: int -> int, df: int -> int, p: int, level: nat, base: int, r: nat)
    requires p > 0 && TaylorAt(f, df, p, level) && !Divides(Pow(p, level), f(base))
    ensures forall s :: s in FixedLevelRounds(f, df, p, level, base, r) ==> !Divides(Pow(p, level + 1), f(s))
    ensures forall s :: s in FixedLevelRounds(f, df, p, level, base, r) ==> !Divides(Pow(p, level), f(s))
  {
    PowPositive(p, level);
    if r > 0 {
      FixedLevelRoundsFail(f, df, p, level, base, r - 1);
      LiftRoundAtFail(f, df, p, level, FixedLevelRounds(f, df, p, level, base, r - 1));
    }
    forall s | s in FixedLevelRounds(f, df, p, level, base, r)
      ensures !Divides(Pow(p, level + 1), f(s))
    {
      if Divides(Pow(p, level + 1), f(s)) {
        DividesIntro(Pow(p, level), Pow(p, level + 1), p);
        DividesTrans(Pow(p, level), Pow(p, level + 1), f(s));
      }
    }
  }

  /** A round at level j turns non-roots modulo p^j into non-roots modulo p^j. */
  lemma LiftRoundAtFail(f: int -> int, df: int -> int, p: int, j: nat, cands: seq<int>)
    requires p > 0 && TaylorAt(f, df, p, j)
    requires forall n :: n in cands ==> !Divides(Pow(p, j), f(n))
    ensures forall s :: s in LiftRoundAt(f, df, p, j, cands) ==> !Divides(Pow(p, j), f(s))
  {
    forall s | s in LiftRoundAt(f, df, p, j, cands)
      ensures !Divides(Pow(p, j), f(s))
    {
      LiftRoundAtMembers(f, df, p, j, cands, s);
      var i :| 0 <= i < |cands| && s in LiftOneAt(f, df, p, j, cands[i]);
      assert cands[i] in cands;
      LiftKeepsResidue(f, df, p, j, cands[i], s);
    }
  }

  /** When p divides no value of the derivative, every candidate has exactly one lift. */
  lemma {:induction false} LiftRoundAtSimpleCount(f: int -> int, df: int -> int, p: int, j: nat, cands: seq<int>)
    requires p > 0 && forall x :: df(x) % p != 0
    ensures |LiftRoundAt(f, df, p, j, cands)| == |cands|
    decreases |cands|
  {
    if |cands| > 0 {
      LiftRoundAtSimpleCount(f, df, p, j, cands[..|cands| - 1]);
      assert df(cands[|cands| - 1]) % p != 0;
    }
  }

  /** ... and so every round keeps the single base candidate single. */
  lemma {:induction false} FixedLevelRoundsSimpleCount(f: int -> int, df: int -> int, p: int, level: nat, base: int, r: nat)
    requires p > 0 && forall x :: df(x) % p != 0
    ensures |FixedLevelRounds(f, df, p, level, base, r)| == 1
  {
    if r > 0 {
      FixedLevelRoundsSimpleCount(f, df, p, level, base, r - 1);
      LiftRoundAtSimpleCount(f, df, p, level, FixedLevelRounds(f, df, p, level, base, r - 1));
    }
  }

  /** With k == 2 `hensel_lifting`'s single round is the intended one. */
  lemma FixedLevelIsLevelForSquare(f: int -> int, df: int -> int, p: int, base: int)
    requires p > 0
    ensures FixedLevelRounds(f, df, p, 1, base, 1) == LevelRounds(f, df, p, base, 1)
  {
    assert FixedLevelRounds(f, df, p, 1, base, 0) == LevelRounds(f, df, p, base, 0);
  }

  // ---------------------------------------------------------------------
  // `hensel_lifting`'s fixed step: a counterexample
  // ---------------------------------------------------------------------

  /** f(x) == x - 4 with derivative 1. */
  ghost predicate IsMinusFour(f: int -> int, df: int -> int)
  {
    (forall x :: f(x) == x - 4) && (forall x :: df(x) == 1)
  }

  /** x - 4 is linear, so its Taylor expansion is exact at every level. */
  lemma MinusFourTaylor(f: int -> int, df: int -> int, p: int, j: nat)
    requires IsMinusFour(f, df)
    ensures TaylorAt(f, df, p, j)
  {
    forall n: int, t: int
      ensures TaylorStep(f, df, p, j, n, t)
    {
      assert f(n + t * Pow(p, j)) - f(n) - t * Pow(p, j) * df(n) == 0;
      DividesIntro(Pow(p, j + 1), 0, 0);
    }
  }

  /**
   * f(x) = x - 4, p = 3, k = 3, base 1: a root modulo 3 that is not a root
   * modulo 9, and the Taylor expansion is exact. `hensel_lifting`'s two rounds at
   * step 9 give one result, and it is not a root modulo 27 (it is 10, and
   * f(10) == 6), while the intended rounds give only roots modulo 27.
   */
  lemma FixedLevelCounterexample(f: int -> int, df: int -> int)
    requires IsMinusFour(f, df)
    ensures Divides(3, f(1)) && !Divides(Pow(3, 2), f(1))
    ensures |FixedLevelRounds(f, df, 3, 2, 1, 2)| == 1
    ensures forall s :: s in FixedLevelRounds(f, df, 3, 2, 1, 2) ==> !Divides(Pow(3, 3), f(s))
    ensures forall s :: s in LevelRounds(f, df, 3, 1, 2) ==> Divides(Pow(3, 3), f(s))
  {
    MinusFourTaylor(f, df, 3, 1);
    MinusFourTaylor(f, df, 3, 2);
    assert f(1) == -3;
    DividesIntro(3, -3, -1);
    assert Pow(3, 2) == 9;
    DivModUnique(-3, 9, -1, 6);
    forall x
      ensures df(x) % 3 != 0
    {
      assert df(x) == 1;
    }
    FixedLevelRoundsSimpleCount(f, df, 3, 2, 1, 2);
    FixedLevelRoundsFail(f, df, 3, 2, 1, 2);
    PrimeThree();
    forall j | 1 <= j <= 2
      ensures TaylorAt(f, df, 3, j)
    {
      MinusFourTaylor(f, df, 3, j);
    }
    LevelRoundsSound(f, df, 3, 1, 2);
  }

  lemma PrimeThree()
    ensures IsPrime(3)
  {
    forall d | 1 < d < 3
      ensures !Divides(d, 3)
    {
      assert d == 2;
      DivModUnique(3, 2, 1, 1);
    }
  }

  // ---------------------------------------------------------------------
  // The loops of `hensel_lifting`
  // ---------------------------------------------------------------------

  /**
   * The body of the inner loop for one candidate n: append its lifts at the
   * given level to next.
   */
  method LiftCandidate(f: int -> int, df: int -> int, p: int, level: nat, n: int, next: seq<int>) returns (next': seq<int>)
    requires p > 0
    ensures next' == next + LiftOneAt(f, df, p, level, n)
  {
    PowPositive(p, level);
    PowPositive(p, level + 1);
    var P := Pow(p, level);
    var dfr := df(n);
    var fr := f(n);
    next' := next;
    if dfr % p != 0 {
      var _, cx, _ := ComputeExtendedGcd(dfr, p);
      BezoutCoefficientIsExtendedGcd(dfr, p);
      var t := ((-cx) * (fr / P)) % p;
      next' := next' + [n + t * P];
    }
    if dfr % p == 0 {
      if fr % Pow(p, level + 1) == 0 {
        for t := 0 to p
          invariant next' == next + seq(t, u requires 0 <= u < t => n + u * P)
        {
          assert seq(t + 1, u requires 0 <= u < t + 1 => n + u * P)
            == seq(t, u requires 0 <= u < t => n + u * P) + [n + t * P];
          next' := next' + [n + t * P];
        }
      }
    }
  }

  /** One pass of the outer loop: the lifts of every candidate, in order. */
  method LiftRound(f: int -> int, df: int -> int, p: int, level: nat, sols: seq<int>) returns (next: seq<int>)
    requires p > 0
    ensures next == LiftRoundAt(f, df, p, level, sols)
  {
    next := [];
    for i := 0 to |sols|
      invariant next == LiftRoundAt(f, df, p, level, sols[..i])
    {
      next := LiftCandidate(f, df, p, level, sols[i], next);
      assert sols[..i + 1][..i] == sols[..i];
    }
    assert sols[..|sols|] == sols;
  }

  /** With k == 2 `hensel_lifting`'s single round lifts a root modulo a prime p to roots modulo p^2. */
  lemma SquareLiftingSound(f: int -> int, df: int -> int, p: int, base: int)
    requires IsPrime(p) && Divides(p, f(base)) && TaylorAt(f, df, p, 1)
    ensures forall s :: s in FixedLevelRounds(f, df, p, 1, base, 1) ==> Divides(p * p, f(s))
  {
    FixedLevelIsLevelForSquare(f, df, p, base);
    LevelRoundsSound(f, df, p, base, 1);
    assert Pow(p, 2) == p * p;
  }

  /**
   * hensel_lifting itself: k - 1 rounds, each at the fixed step p^(k-1).
   * For k == 2 this is the intended lifting, and from a root modulo a prime
   * p every result is a root modulo p^2.
   */
  method HenselLifting(f: int -> int, df: int -> int, p: int, k: int, base: int) returns (sols: seq<int>)
    requires p > 0
    ensures sols == FixedLevelRounds(f, df, p, if k > 1 then k - 1 else 0, base, RoundCount(k))
    ensures k <= 1 ==> sols == [base]
    ensures k == 2 && IsPrime(p) && Divides(p, f(base)) && TaylorAt(f, df, p, 1) ==>
      forall s :: s in sols ==> Divides(p * p, f(s))
  {
    var level: nat := if k > 1 then k - 1 else 0;
    sols := [base];
    for r := 0 to RoundCount(k)
      invariant sols == FixedLevelRounds(f, df, p, level, base, r)
    {
      sols := LiftRound(f, df, p, level, sols);
    }
    if k == 2 && IsPrime(p) && Divides(p, f(base)) && TaylorAt(f, df, p, 1) {
      SquareLiftingSound(f, df, p, base);
    }
  }
}
