/** Arithmetic on LLVM's `iW` integer type. A value of width `w` is held as
    its bit pattern read unsigned, in [0, 2^w); `add` and `sub` wrap modulo
    2^w, and the `nuw`/`nsw` flags turn an unsigned/signed overflow into
    poison (`None`). */
module WordArith {
  import opened Wrappers

  /** LLVM integer types are at least one bit wide. */
  type Width = w: nat | 1 <= w witness 1

  function Pow2(w: nat): (p: nat)
    ensures 1 <= p
  {
    if w == 0 then 1 else 2 * Pow2(w - 1)
  }

  lemma Pow2Split(w: Width)
    ensures Pow2(w) == 2 * Pow2(w - 1)
  {
  }

  predicate IsWord(w: Width, x: int) {
    0 <= x < Pow2(w)
  }

  lemma MulAtLeast(a: int, p: nat)
    requires 1 <= a
    ensures p <= a * p
    decreases a
  {
    if 1 < a {
      MulAtLeast(a - 1, p);
      assert a * p == (a - 1) * p + p;
    }
  }

  /** Division by a positive modulus has a unique quotient and remainder. */
  lemma DivModUnique(x: int, q: int, r: int, p: nat)
    requires 0 < p && x == q * p + r && 0 <= r < p
    ensures x % p == r && x / p == q
  {
    var q0, r0 := x / p, x % p;
    assert x == q0 * p + r0;
    assert (q0 - q) * p == r - r0;
    assert (q - q0) * p == r0 - r;
    if q0 > q {
      MulAtLeast(q0 - q, p);
    } else if q0 < q {
      MulAtLeast(q - q0, p);
    }
  }

  /** Reduction to a bit pattern: the representative of `x` modulo 2^w. */
  function Wrap(w: Width, x: int): (r: int)
    ensures IsWord(w, r)
    ensures IsWord(w, x) ==> r == x
  {
    if IsWord(w, x) then DivModUnique(x, 0, x, Pow2(w)); x % Pow2(w)
    else x % Pow2(w)
  }

  /** Adding a multiple of the modulus does not change the pattern. */
  lemma WrapShift(w: Width, x: int, k: int)
    ensures Wrap(w, x + k * Pow2(w)) == Wrap(w, x)
  {
    var p := Pow2(w);
    var q, r := x / p, x % p;
    assert x + k * p == (q + k) * p + r;
    DivModUnique(x + k * p, q + k, r, p);
  }

  /** Two integers with the same pattern differ by a multiple of 2^w. */
  lemma WrapCongruent(w: Width, x: int)
    ensures exists k :: x == Wrap(w, x) + k * Pow2(w)
  {
    var p := Pow2(w);
    assert x == Wrap(w, x) + (x / p) * p;
  }

  /** Two's-complement reading of a pattern. */
  function Signed(w: Width, x: int): (s: int)
    requires IsWord(w, x)
    ensures InSigned(w, s)
    ensures Wrap(w, s) == x
  {
    WrapShift(w, x - Pow2(w), 1);
    if x < Pow2(w - 1) then x else x - Pow2(w)
  }

  predicate InSigned(w: Width, v: int) {
    -(Pow2(w - 1) as int) <= v < Pow2(w - 1)
  }

  /** The pattern of the most negative signed value, `INT_MIN`. */
  function MinSigned(w: Width): (x: int)
    ensures IsWord(w, x) && Signed(w, x) == -(Pow2(w - 1) as int)
  {
    Pow2(w - 1)
  }

  /** `BinaryOperator::CreateNeg(c)`: `sub 0, c` without flags. */
  function Neg(w: Width, c: int): (r: int)
    ensures IsWord(w, r)
  {
    Wrap(w, 0 - c)
  }

  /** `add` with its flags: poison on unsigned overflow under `nuw` and on
      signed overflow under `nsw`. */
  function EvalAdd(w: Width, a: int, b: int, nsw: bool, nuw: bool): Option<int>
    requires IsWord(w, a) && IsWord(w, b)
  {
    if (nuw && a + b >= Pow2(w)) || (nsw && !InSigned(w, Signed(w, a) + Signed(w, b))) then None
    else Some(Wrap(w, a + b))
  }

  /** `sub` with its flags. */
  function EvalSub(w: Width, a: int, b: int, nsw: bool, nuw: bool): Option<int>
    requires IsWord(w, a) && IsWord(w, b)
  {
    if (nuw && a - b < 0) || (nsw && !InSigned(w, Signed(w, a) - Signed(w, b))) then None
    else Some(Wrap(w, a - b))
  }

  // ---------------------------------------------------------------------
  // The identities the rewrites rely on

  /** `b - (0 - c) == b + c` in w-bit arithmetic. */
  lemma SubNegIsAdd(w: Width, b: int, c: int)
    ensures Wrap(w, b - Neg(w, c)) == Wrap(w, b + c)
  {
    WrapCongruent(w, 0 - c);
    var k :| 0 - c == Neg(w, c) + k * Pow2(w);
    assert b - Neg(w, c) == (b + c) + k * Pow2(w);
    WrapShift(w, b + c, k);
  }

  /** `b + (0 - c) == b - c` in w-bit arithmetic. */
  lemma AddNegIsSub(w: Width, b: int, c: int)
    ensures Wrap(w, b + Neg(w, c)) == Wrap(w, b - c)
  {
    WrapCongruent(w, 0 - c);
    var k :| 0 - c == Neg(w, c) + k * Pow2(w);
    assert b + Neg(w, c) == (b - c) + (-k) * Pow2(w);
    WrapShift(w, b - c, -k);
  }

  /** Negation of a pattern is the negation of its signed reading, except
      at `INT_MIN`, which is its own negation. */
  lemma SignedNeg(w: Width, c: int)
    requires IsWord(w, c)
    ensures c != MinSigned(w) ==> Signed(w, Neg(w, c)) == -Signed(w, c)
    ensures Neg(w, MinSigned(w)) == MinSigned(w)
  {
    Pow2Split(w);
    var h := Pow2(w - 1);
    NegPattern(w, h);
    if c == 0 {
      assert Neg(w, c) == Wrap(w, 0);
    } else {
      NegPattern(w, c);
    }
  }

  /** Negating a nonzero pattern gives its complement to 2^w. */
  lemma NegPattern(w: Width, c: int)
    requires IsWord(w, c) && c != 0
    ensures Neg(w, c) == Pow2(w) - c
  {
    var p := Pow2(w);
    WrapShift(w, 0 - c, 1);
    assert 0 - c + 1 * p == p - c;
    assert IsWord(w, p - c);
  }


  // ---------------------------------------------------------------------
  // The rewrites with and without the copied flags

  /** `add b, c` rewritten to `sub b, (0 - c)` without flags computes the
      wrapped sum and is never poison; wherever the original is defined it
      computes the same value. */
  lemma AddRewriteRefines(w: Width, b: int, c: int, nsw: bool, nuw: bool)
    requires IsWord(w, b) && IsWord(w, c)
    ensures EvalSub(w, b, Neg(w, c), false, false) == Some(Wrap(w, b + c))
    ensures EvalAdd(w, b, c, nsw, nuw).Some? ==> EvalSub(w, b, Neg(w, c), false, false) == EvalAdd(w, b, c, nsw, nuw)
  {
    SubNegIsAdd(w, b, c);
  }

  /** `sub b, c` rewritten to `add b, (0 - c)` without flags. */
  lemma SubRewriteRefines(w: Width, b: int, c: int, nsw: bool, nuw: bool)
    requires IsWord(w, b) && IsWord(w, c)
    ensures EvalAdd(w, b, Neg(w, c), false, false) == Some(Wrap(w, b - c))
    ensures EvalSub(w, b, c, nsw, nuw).Some? ==> EvalAdd(w, b, Neg(w, c), false, false) == EvalSub(w, b, c, nsw, nuw)
  {
    AddNegIsSub(w, b, c);
  }

  /** Copying `nsw` alone is exact except when `c` is `INT_MIN`. */
  lemma AddRewriteCopiedNsw(w: Width, b: int, c: int, nsw: bool)
    requires IsWord(w, b) && IsWord(w, c) && c != MinSigned(w)
    ensures EvalSub(w, b, Neg(w, c), nsw, false) == EvalAdd(w, b, c, nsw, false)
  {
    SubNegIsAdd(w, b, c);
    SignedNeg(w, c);
  }

  lemma SubRewriteCopiedNsw(w: Width, b: int, c: int, nsw: bool)
    requires IsWord(w, b) && IsWord(w, c) && c != MinSigned(w)
    ensures EvalAdd(w, b, Neg(w, c), nsw, false) == EvalSub(w, b, c, nsw, false)
  {
    AddNegIsSub(w, b, c);
    SignedNeg(w, c);
  }

  /** A copied `nuw` inverts definedness: for `c != 0` the rewritten `sub`
      is poison exactly where the original `add nuw` was defined. */
  lemma AddRewriteCopiedNuw(w: Width, b: int, c: int, nsw: bool)
    requires IsWord(w, b) && IsWord(w, c) && c != 0
    ensures EvalAdd(w, b, c, nsw, true).Some? ==> EvalSub(w, b, Neg(w, c), nsw, true).None?
    ensures EvalAdd(w, b, c, false, true).None? <==> EvalSub(w, b, Neg(w, c), false, true).Some?
  {
    WrapShift(w, 0 - c, 1);
    assert Neg(w, c) == Pow2(w) - c;
  }

  lemma SubRewriteCopiedNuw(w: Width, b: int, c: int, nsw: bool)
    requires IsWord(w, b) && IsWord(w, c) && c != 0
    ensures EvalSub(w, b, c, nsw, true).Some? ==> EvalAdd(w, b, Neg(w, c), nsw, true).None?
    ensures EvalSub(w, b, c, false, true).None? <==> EvalAdd(w, b, Neg(w, c), false, true).Some?
  {
    WrapShift(w, 0 - c, 1);
    assert Neg(w, c) == Pow2(w) - c;
  }

  /** A copied `nsw` with `c == INT_MIN`: `add nsw b, INT_MIN` is defined
      for non-negative `b`, its rewrite `sub nsw b, INT_MIN` is not. */
  lemma AddRewriteCopiedNswAtMin(w: Width, b: int)
    requires IsWord(w, b) && 0 <= Signed(w, b)
    ensures EvalAdd(w, b, MinSigned(w), true, false).Some?
    ensures EvalSub(w, b, Neg(w, MinSigned(w)), true, false).None?
  {
    SignedNeg(w, MinSigned(w));
  }

  /** `sub nsw b, INT_MIN` is defined for negative `b`; its rewrite
      `add nsw b, INT_MIN` is not. */
  lemma SubRewriteCopiedNswAtMin(w: Width, b: int)
    requires IsWord(w, b) && Signed(w, b) < 0
    ensures EvalSub(w, b, MinSigned(w), true, false).Some?
    ensures EvalAdd(w, b, Neg(w, MinSigned(w)), true, false).None?
  {
    SignedNeg(w, MinSigned(w));
  }

  /** On `i8`: `add nuw 1, 1` is 2, while `sub nuw 1, 255` is poison. */
  lemma CopiedNuwExample()
    ensures EvalAdd(8, 1, 1, false, true) == Some(2)
    ensures Neg(8, 1) == 255
    ensures EvalSub(8, 1, Neg(8, 1), false, true).None?
  {
    assert Pow2(8) == 256;
    WrapShift(8, -1, 1);
  }
}
