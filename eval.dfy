/** Evaluation of a sparse polynomial at a real point: a homomorphism from the polynomial
    operations of `Polynomial` to the operations on reals. */
module PolyEval {
  import opened Polynomial
  import opened PolyAlgebra

  function Pow(z: real, n: nat): real
    decreases n
  {
    if n == 0 then 1.0 else Times(z, Pow(z, n - 1))
  }

  lemma {:induction false} PowAdd(z: real, m: nat, n: nat)
    ensures Pow(z, m + n) == Times(Pow(z, m), Pow(z, n))
    decreases m
  {
    if m == 0 {
      TimesOne(Pow(z, n));
    } else {
      PowAdd(z, m - 1, n);
      assert Pow(z, m + n) == Times(z, Pow(z, (m - 1) + n));
      TimesAssoc(z, Pow(z, m - 1), Pow(z, n));
    }
  }

  /** The terms `p_k z^k`. */
  function Terms(p: Poly, z: real): nat -> real {
    (k: nat) => Times(Coef(p, k), Pow(z, k))
  }

  /** `p_0 + p_1 z + ... + p_(n-1) z^(n-1)`. */
  function EvalBelow(p: Poly, z: real, n: nat): real {
    if n == 0 then 0.0 else EvalBelow(p, z, n - 1) + Times(Coef(p, n - 1), Pow(z, n - 1))
  }

  /** The value of `p` at `z`. */
  function Eval(p: Poly, z: real): real {
    EvalBelow(p, z, Bound(p))
  }

  /** `EvalBelow` is the sum of the first `n` terms. */
  lemma {:induction false} EvalBelowTerms(p: Poly, z: real, n: nat)
    ensures EvalBelow(p, z, n) == SumBelow(Terms(p, z), n)
  {
    if n > 0 {
      EvalBelowTerms(p, z, n - 1);
    }
  }

  /** Any bound past the non-zero coefficients gives the value. */
  lemma EvalUpTo(p: Poly, z: real, n: nat)
    requires forall k: nat :: n <= k ==> Coef(p, k) == 0.0
    ensures SumBelow(Terms(p, z), n) == Eval(p, z)
  {
    EvalBelowTerms(p, z, Bound(p));
    if n <= Bound(p) {
      SumBelowExtend(Terms(p, z), n, Bound(p));
    } else {
      SumBelowExtend(Terms(p, z), Bound(p), n);
    }
  }

  /** Polynomials with the same coefficients have the same value. */
  lemma EvalCongruence(p: Poly, p': Poly, z: real)
    requires forall k: nat :: Coef(p, k) == Coef(p', k)
    ensures Eval(p, z) == Eval(p', z)
  {
    var n := Bound(p) + Bound(p');
    BoundCoef(p, n);
    BoundCoef(p', n);
    EvalUpTo(p, z, n);
    EvalUpTo(p', z, n);
    SumBelowExt(Terms(p, z), Terms(p', z), n);
  }

  lemma TermsAdd(a: Poly, b: Poly, s: Poly, z: real, n: nat)
    requires forall k: nat :: Coef(s, k) == Coef(a, k) + Coef(b, k)
    ensures forall k: nat :: k < n ==> Terms(s, z)(k) == Terms(a, z)(k) + Terms(b, z)(k)
  {
    forall k: nat | k < n
      ensures Terms(s, z)(k) == Terms(a, z)(k) + Terms(b, z)(k)
    {
      TimesAddLeft(Coef(a, k), Coef(b, k), Pow(z, k));
    }
  }

  /** A polynomial whose coefficients are those of `a` plus those of `b` has the value of `a`
      plus that of `b`. */
  lemma EvalAdd(a: Poly, b: Poly, s: Poly, z: real)
    requires forall k: nat :: Coef(s, k) == Coef(a, k) + Coef(b, k)
    ensures Eval(s, z) == Eval(a, z) + Eval(b, z)
  {
    var n := Bound(a) + Bound(b) + Bound(s);
    BoundCoef(a, n);
    BoundCoef(b, n);
    BoundCoef(s, n);
    EvalUpTo(a, z, n);
    EvalUpTo(b, z, n);
    EvalUpTo(s, z, n);
    TermsAdd(a, b, s, z, n);
    SumBelowAdd(Terms(a, z), Terms(b, z), Terms(s, z), n);
  }

  lemma EvalSum(a: Poly, b: Poly, z: real)
    ensures Eval(Sum(a, b), z) == Eval(a, z) + Eval(b, z)
  {
    EvalAdd(a, b, Sum(a, b), z);
  }

  lemma TermsNegate(a: Poly, s: Poly, z: real, n: nat)
    requires forall k: nat :: Coef(s, k) == -Coef(a, k)
    ensures forall k: nat :: k < n ==> Terms(s, z)(k) == Times(-1.0, Terms(a, z)(k))
  {
    forall k: nat | k < n
      ensures Terms(s, z)(k) == Times(-1.0, Terms(a, z)(k))
    {
      TimesNeg(Coef(a, k), Pow(z, k));
      MinusOne(Terms(a, z)(k));
    }
  }

  lemma MinusOne(x: real)
    ensures Times(-1.0, x) == -x
  {
    TimesNeg(1.0, x);
    TimesOne(x);
  }

  /** Negating every coefficient negates the value. */
  lemma EvalNegate(a: Poly, s: Poly, z: real)
    requires forall k: nat :: Coef(s, k) == -Coef(a, k)
    ensures Eval(s, z) == -Eval(a, z)
  {
    var n := Bound(a) + Bound(s);
    BoundCoef(a, n);
    BoundCoef(s, n);
    EvalUpTo(a, z, n);
    EvalUpTo(s, z, n);
    TermsNegate(a, s, z, n);
    SumBelowScale(Terms(a, z), Terms(s, z), -1.0, n);
    MinusOne(SumBelow(Terms(a, z), n));
  }

  lemma EvalNegation(a: Poly, z: real)
    ensures Eval(Negation(a), z) == -Eval(a, z)
  {
    EvalNegate(a, Negation(a), z);
  }

  lemma EvalMonomial(d: nat, c: real, z: real)
    ensures Eval(Monomial(d, c), z) == Times(c, Pow(z, d))
  {
    forall k: nat | k != d
      ensures Terms(Monomial(d, c), z)(k) == 0.0
    {
      TimesZero(Pow(z, k));
    }
    SumBelowPoint(Terms(Monomial(d, c), z), d, Bound(Monomial(d, c)));
    EvalBelowTerms(Monomial(d, c), z, Bound(Monomial(d, c)));
  }

  // ---------------------------------------------------------------------------
  // The value of a product

  /** The coefficients of `a b` vanish from `Bound(a) + Bound(b)` on. */
  lemma ConvBeyond(a: Poly, b: Poly, k: nat)
    requires Bound(a) + Bound(b) <= k
    ensures Conv(a, b, k) == 0.0
  {
    ConvIs(a, b, k);
    forall i: nat | i < k + 1
      ensures ConvTerm(a, b, k)(i) == 0.0
    {
      if i < Bound(a) {
        BoundCoef(b, k - i);
        assert Coef(b, k - i) == 0.0;
      } else {
        BoundCoef(a, i);
        assert Coef(a, i) == 0.0;
      }
      TimesZero(Coef(a, i));
      TimesZero(Coef(b, k - i));
    }
    SumBelowZero(ConvTerm(a, b, k), k + 1);
  }

  /** The terms `z^k a_i b_(k-i)` of the value of `a b`, for `i <= k`. */
  function ProductTerms(a: Poly, b: Poly, z: real): (nat, nat) -> real {
    (i: nat, k: nat) => Times(Pow(z, k), ConvTerm(a, b, k)(i))
  }

  lemma ProductRowShort(a: Poly, b: Poly, z: real, k: nat, n: nat)
    requires k < n
    ensures SumBelow(Row(ProductTerms(a, b, z), k), n) == SumBelow(Row(ProductTerms(a, b, z), k), k + 1)
  {
    var R := Row(ProductTerms(a, b, z), k);
    forall i: nat | k + 1 <= i < n
      ensures R(i) == 0.0
    {
      assert ConvTerm(a, b, k)(i) == 0.0;
      TimesZero(Pow(z, k));
    }
    SumBelowExtend(R, k + 1, n);
  }

  /** Row `k` of `ProductTerms` adds up to `z^k` times the coefficient of `z^k` in `a b`. */
  lemma ProductRowScaled(a: Poly, b: Poly, z: real, k: nat)
    ensures SumBelow(Row(ProductTerms(a, b, z), k), k + 1) == Times(Pow(z, k), Conv(a, b, k))
  {
    ConvIs(a, b, k);
    SumBelowScale(ConvTerm(a, b, k), Row(ProductTerms(a, b, z), k), Pow(z, k), k + 1);
  }

  lemma ProductRowSum(a: Poly, b: Poly, z: real, k: nat, n: nat)
    requires k < n
    ensures RowSums(ProductTerms(a, b, z), n)(k) == Times(Pow(z, k), Conv(a, b, k))
  {
    ProductRowShort(a, b, z, k, n);
    ProductRowScaled(a, b, z, k);
  }

  lemma ProductRow(a: Poly, b: Poly, ab: Poly, z: real, k: nat, n: nat)
    requires IsConv(ab, a, b) && k < n
    ensures Terms(ab, z)(k) == RowSums(ProductTerms(a, b, z), n)(k)
  {
    var P := Pow(z, k);
    assert Terms(ab, z)(k) == Times(P, Conv(a, b, k)) by {
      assert Coef(ab, k) == Conv(a, b, k);
      TimesComm(Coef(ab, k), P);
    }
    assert RowSums(ProductTerms(a, b, z), n)(k) == Times(P, Conv(a, b, k)) by {
      ProductRowSum(a, b, z, k, n);
    }
  }

  /** The value of `a b`, summed by the exponent of `z`. */
  lemma ProductByDegree(a: Poly, b: Poly, ab: Poly, z: real, n: nat)
    requires IsConv(ab, a, b)
    ensures SumBelow(Terms(ab, z), n) == SumBelow(RowSums(ProductTerms(a, b, z), n), n)
  {
    forall k: nat | k < n
      ensures Terms(ab, z)(k) == RowSums(ProductTerms(a, b, z), n)(k)
    {
      ProductRow(a, b, ab, z, k, n);
    }
    SumBelowExt(Terms(ab, z), RowSums(ProductTerms(a, b, z), n), n);
  }

  lemma Regroup(p: real, q: real, x: real, y: real)
    ensures Times(Times(p, q), Times(x, y)) == Times(Times(x, p), Times(y, q))
  {
    TimesAssoc(p, q, Times(x, y));
    TimesAssoc(q, x, y);
    TimesComm(q, x);
    TimesAssoc(x, q, y);
    TimesAssoc(p, x, Times(q, y));
    TimesComm(p, x);
    TimesComm(q, y);
  }

  lemma PowRegroup(z: real, i: nat, j: nat, x: real, y: real)
    ensures Times(Pow(z, i + j), Times(x, y)) == Times(Times(x, Pow(z, i)), Times(y, Pow(z, j)))
  {
    PowAdd(z, i, j);
    Regroup(Pow(z, i), Pow(z, j), x, y);
  }

  lemma ProductColEntry(a: Poly, b: Poly, z: real, i: nat, j: nat)
    ensures Col(ProductTerms(a, b, z), i)(i + j) == Times(Pow(z, i + j), Times(Coef(a, i), Coef(b, j)))
  {
    assert ConvTerm(a, b, i + j)(i) == Times(Coef(a, i), Coef(b, j));
  }

  /** Column `i` of `ProductTerms`, read from `k = i` on. */
  lemma ProductColTerm(a: Poly, b: Poly, z: real, i: nat, j: nat)
    ensures Col(ProductTerms(a, b, z), i)(i + j) == Times(Terms(a, z)(i), Terms(b, z)(j))
  {
    var A, B := Terms(a, z)(i), Terms(b, z)(j);
    assert A == Times(Coef(a, i), Pow(z, i));
    assert B == Times(Coef(b, j), Pow(z, j));
    ProductColEntry(a, b, z, i, j);
    PowRegroup(z, i, j, Coef(a, i), Coef(b, j));
  }

  /** The terms `a_i z^i b_j z^j` for a fixed `i`. */
  function ColTermsAt(a: Poly, b: Poly, z: real, i: nat): nat -> real {
    (j: nat) => Times(Terms(a, z)(i), Terms(b, z)(j))
  }

  lemma ProductColZero(a: Poly, b: Poly, z: real, i: nat)
    ensures forall k: nat :: k < i ==> Col(ProductTerms(a, b, z), i)(k) == 0.0
  {
    forall k: nat | k < i
      ensures Col(ProductTerms(a, b, z), i)(k) == 0.0
    {
      assert ConvTerm(a, b, k)(i) == 0.0;
      TimesZero(Pow(z, k));
    }
  }

  lemma ProductColShift(a: Poly, b: Poly, z: real, i: nat, m: nat)
    ensures forall j: nat :: j < m ==> ColTermsAt(a, b, z, i)(j) == Col(ProductTerms(a, b, z), i)(i + j)
  {
    forall j: nat | j < m
      ensures ColTermsAt(a, b, z, i)(j) == Col(ProductTerms(a, b, z), i)(i + j)
    {
      ProductColTerm(a, b, z, i, j);
    }
  }

  /** Column `i` adds up to the terms `a_i z^i b_j z^j` over `j < m`. */
  lemma ProductColShifted(a: Poly, b: Poly, z: real, i: nat, m: nat)
    ensures SumBelow(Col(ProductTerms(a, b, z), i), i + m) == SumBelow(ColTermsAt(a, b, z, i), m)
  {
    ProductColZero(a, b, z, i);
    ProductColShift(a, b, z, i, m);
    SumBelowShift(Col(ProductTerms(a, b, z), i), ColTermsAt(a, b, z, i), i, m);
  }

  /** The terms `b(z) a_i z^i`. */
  function ScaledTerms(a: Poly, b: Poly, z: real): nat -> real {
    (i: nat) => Times(Eval(b, z), Terms(a, z)(i))
  }

  /** Column `i`, with room for all of `b` above `i`, adds up to `b(z) a_i z^i`. */
  lemma ProductColSum(a: Poly, b: Poly, z: real, i: nat, n: nat)
    requires i + Bound(b) <= n
    ensures ColSums(ProductTerms(a, b, z), n)(i) == ScaledTerms(a, b, z)(i)
  {
    var m := n - i;
    var T := Terms(a, z)(i);
    assert SumBelow(Col(ProductTerms(a, b, z), i), i + m) == Times(T, SumBelow(Terms(b, z), m)) by {
      ProductColShifted(a, b, z, i, m);
      SumBelowScale(Terms(b, z), ColTermsAt(a, b, z, i), T, m);
    }
    assert SumBelow(Terms(b, z), m) == Eval(b, z) by {
      BoundCoef(b, m);
      EvalUpTo(b, z, m);
    }
    TimesComm(T, Eval(b, z));
  }

  /** Column `i` of an exponent `i` past those of `a` adds up to nothing. */
  lemma ProductColEmpty(a: Poly, b: Poly, z: real, i: nat, n: nat)
    requires Bound(a) <= i
    ensures ColSums(ProductTerms(a, b, z), n)(i) == ScaledTerms(a, b, z)(i)
  {
    BoundCoef(a, i);
    forall k: nat | k < n
      ensures Col(ProductTerms(a, b, z), i)(k) == 0.0
    {
      assert Coef(a, i) == 0.0;
      if i <= k {
        TimesZero(Coef(b, k - i));
      }
      assert ConvTerm(a, b, k)(i) == 0.0;
      TimesZero(Pow(z, k));
    }
    SumBelowZero(Col(ProductTerms(a, b, z), i), n);
    assert Terms(a, z)(i) == 0.0 by {
      TimesZero(Pow(z, i));
    }
    assert ScaledTerms(a, b, z)(i) == Times(Eval(b, z), 0.0);
    TimesZero(Eval(b, z));
  }

  lemma ProductCol(a: Poly, b: Poly, z: real, i: nat, n: nat)
    requires Bound(a) + Bound(b) == n && i < n
    ensures ColSums(ProductTerms(a, b, z), n)(i) == ScaledTerms(a, b, z)(i)
  {
    if i < Bound(a) {
      ProductColSum(a, b, z, i, n);
    } else {
      ProductColEmpty(a, b, z, i, n);
    }
  }

  lemma ProductByExponent(a: Poly, b: Poly, z: real, n: nat)
    requires Bound(a) + Bound(b) == n
    ensures SumBelow(ColSums(ProductTerms(a, b, z), n), n) == Times(Eval(b, z), Eval(a, z))
  {
    forall i: nat | i < n
      ensures ColSums(ProductTerms(a, b, z), n)(i) == ScaledTerms(a, b, z)(i)
    {
      ProductCol(a, b, z, i, n);
    }
    SumBelowExt(ColSums(ProductTerms(a, b, z), n), ScaledTerms(a, b, z), n);
    SumBelowScale(Terms(a, z), ScaledTerms(a, b, z), Eval(b, z), n);
    BoundCoef(a, n);
    EvalUpTo(a, z, n);
  }

  /** A polynomial with the coefficients of `a b` has the value of `a` times that of `b`. */
  lemma EvalConv(a: Poly, b: Poly, ab: Poly, z: real)
    requires IsConv(ab, a, b)
    ensures Eval(ab, z) == Times(Eval(a, z), Eval(b, z))
  {
    var n := Bound(a) + Bound(b);
    forall k: nat | n <= k
      ensures Coef(ab, k) == 0.0
    {
      ConvBeyond(a, b, k);
    }
    EvalUpTo(ab, z, n);
    ProductByDegree(a, b, ab, z, n);
    Fubini(ProductTerms(a, b, z), n, n);
    ProductByExponent(a, b, z, n);
    TimesComm(Eval(b, z), Eval(a, z));
  }

  /** The value of `mul(a, b)` is the product of the values. */
  lemma EvalProduct(a: Poly, b: Poly, z: real)
    ensures Eval(Product(a, b), z) == Times(Eval(a, z), Eval(b, z))
  {
    EvalConv(a, b, Product(a, b), z);
  }
}
