/** The ring laws of the sparse polynomials of `Polynomial`, proved on coefficients:
    the Cauchy product is commutative, associative, linear in each factor and has the
    monomial `1` as unit. */
module PolyAlgebra {
  import opened Polynomial

  // ---------------------------------------------------------------------------
  // Finite sums

  /** Vanishing terms past `n` add nothing. */
  lemma {:induction false} SumBelowExtend(f: nat -> real, n: nat, m: nat)
    requires n <= m
    requires forall i: nat :: n <= i < m ==> f(i) == 0.0
    ensures SumBelow(f, m) == SumBelow(f, n)
    decreases m
  {
    if m > n {
      SumBelowExtend(f, n, m - 1);
    }
  }

  /** A sum whose first `d` terms vanish is the sum of the terms from `d` on. */
  lemma {:induction false} SumBelowShift(f: nat -> real, g: nat -> real, d: nat, n: nat)
    requires forall i: nat :: i < d ==> f(i) == 0.0
    requires forall j: nat :: j < n ==> g(j) == f(d + j)
    ensures SumBelow(f, d + n) == SumBelow(g, n)
    decreases n
  {
    if n == 0 {
      SumBelowZero(f, d);
    } else {
      SumBelowShift(f, g, d, n - 1);
      assert SumBelow(f, d + n) == SumBelow(f, d + (n - 1)) + f(d + (n - 1));
    }
  }

  /** The first term of a sum, and the others. */
  lemma {:induction false} SumBelowPeel(f: nat -> real, g: nat -> real, n: nat)
    requires forall j: nat :: j < n ==> g(j) == f(j + 1)
    ensures SumBelow(f, n + 1) == f(0) + SumBelow(g, n)
    decreases n
  {
    if n > 0 {
      SumBelowPeel(f, g, n - 1);
    }
  }

  /** A sum read backwards. */
  lemma {:induction false} SumBelowReverse(f: nat -> real, g: nat -> real, n: nat)
    requires forall i: nat :: i < n ==> g(i) == f(n - 1 - i)
    ensures SumBelow(g, n) == SumBelow(f, n)
    decreases n
  {
    if n > 0 {
      var h := (i: nat) => f(i + 1);
      SumBelowReverse(h, g, n - 1);
      SumBelowPeel(f, h, n - 1);
    }
  }

  /** The terms `F(i, m)` for a fixed `m`. */
  function Row(F: (nat, nat) -> real, m: nat): nat -> real {
    (i: nat) => F(i, m)
  }

  /** The terms `F(i, m)` for a fixed `i`. */
  function Col(F: (nat, nat) -> real, i: nat): nat -> real {
    (m: nat) => F(i, m)
  }

  /** For each `m`, the sum of `F(i, m)` over `i < I`. */
  function RowSums(F: (nat, nat) -> real, I: nat): nat -> real {
    (m: nat) => SumBelow(Row(F, m), I)
  }

  /** For each `i`, the sum of `F(i, m)` over `m < M`. */
  function ColSums(F: (nat, nat) -> real, M: nat): nat -> real {
    (i: nat) => SumBelow(Col(F, i), M)
  }

  /** A rectangular double sum can be added up in either order. */
  lemma {:induction false} Fubini(F: (nat, nat) -> real, I: nat, M: nat)
    ensures SumBelow(RowSums(F, I), M) == SumBelow(ColSums(F, M), I)
    decreases M
  {
    if M == 0 {
      SumBelowZero(ColSums(F, 0), I);
    } else {
      Fubini(F, I, M - 1);
      SumBelowAdd(ColSums(F, M - 1), Row(F, M - 1), ColSums(F, M), I);
    }
  }

  // ---------------------------------------------------------------------------
  // The Cauchy product

  /** Polynomials with the same coefficients have the same products. */
  lemma ConvCongruence(a: Poly, a': Poly, b: Poly, b': Poly, k: nat)
    requires forall i: nat :: Coef(a, i) == Coef(a', i)
    requires forall i: nat :: Coef(b, i) == Coef(b', i)
    ensures Conv(a, b, k) == Conv(a', b', k)
  {
    ConvIs(a, b, k);
    ConvIs(a', b', k);
    SumBelowExt(ConvTerm(a, b, k), ConvTerm(a', b', k), k + 1);
  }

  lemma ConvComm(a: Poly, b: Poly, k: nat)
    ensures Conv(a, b, k) == Conv(b, a, k)
  {
    ConvIs(a, b, k);
    ConvIs(b, a, k);
    forall i: nat | i < k + 1
      ensures ConvTerm(b, a, k)(i) == ConvTerm(a, b, k)(k + 1 - 1 - i)
    {
      TimesComm(Coef(b, i), Coef(a, k - i));
    }
    SumBelowReverse(ConvTerm(a, b, k), ConvTerm(b, a, k), k + 1);
  }

  /** The product is additive in its left factor. */
  lemma ConvAddLeft(x: Poly, y: Poly, s: Poly, b: Poly, k: nat)
    requires forall i: nat :: Coef(s, i) == Coef(x, i) + Coef(y, i)
    ensures Conv(s, b, k) == Conv(x, b, k) + Conv(y, b, k)
  {
    ConvIs(s, b, k);
    ConvIs(x, b, k);
    ConvIs(y, b, k);
    forall i: nat | i < k + 1
      ensures ConvTerm(s, b, k)(i) == ConvTerm(x, b, k)(i) + ConvTerm(y, b, k)(i)
    {
      TimesAddLeft(Coef(x, i), Coef(y, i), Coef(b, k - i));
    }
    SumBelowAdd(ConvTerm(x, b, k), ConvTerm(y, b, k), ConvTerm(s, b, k), k + 1);
  }

  lemma ConvTermScale(x: Poly, s: Poly, c: real, b: Poly, k: nat)
    requires forall i: nat :: Coef(s, i) == Times(c, Coef(x, i))
    ensures forall i: nat :: i < k + 1 ==> ConvTerm(s, b, k)(i) == Times(c, ConvTerm(x, b, k)(i))
  {
    forall i: nat | i < k + 1
      ensures ConvTerm(s, b, k)(i) == Times(c, ConvTerm(x, b, k)(i))
    {
      TimesAssoc(c, Coef(x, i), Coef(b, k - i));
    }
  }

  /** The product is homogeneous in its left factor. */
  lemma ConvScaleLeft(x: Poly, s: Poly, c: real, b: Poly, k: nat)
    requires forall i: nat :: Coef(s, i) == Times(c, Coef(x, i))
    ensures Conv(s, b, k) == Times(c, Conv(x, b, k))
  {
    ConvIs(s, b, k);
    ConvIs(x, b, k);
    ConvTermScale(x, s, c, b, k);
    SumBelowScale(ConvTerm(x, b, k), ConvTerm(s, b, k), c, k + 1);
  }

  lemma ConvAddRight(a: Poly, x: Poly, y: Poly, s: Poly, k: nat)
    requires forall i: nat :: Coef(s, i) == Coef(x, i) + Coef(y, i)
    ensures Conv(a, s, k) == Conv(a, x, k) + Conv(a, y, k)
  {
    ConvAddLeft(x, y, s, a, k);
    ConvComm(a, s, k);
    ConvComm(a, x, k);
    ConvComm(a, y, k);
  }

  lemma ConvScaleRight(a: Poly, x: Poly, s: Poly, c: real, k: nat)
    requires forall i: nat :: Coef(s, i) == Times(c, Coef(x, i))
    ensures Conv(a, s, k) == Times(c, Conv(a, x, k))
  {
    ConvScaleLeft(x, s, c, a, k);
    ConvComm(a, s, k);
    ConvComm(a, x, k);
  }

  /** Multiplying by `c z^d` scales by `c` and shifts the exponents up by `d`. */
  lemma ConvMonomial(d: nat, c: real, b: Poly, k: nat)
    ensures Conv(Monomial(d, c), b, k) == if d <= k then Times(c, Coef(b, k - d)) else 0.0
  {
    ConvIs(Monomial(d, c), b, k);
    forall i: nat | i < k + 1 && i != d
      ensures ConvTerm(Monomial(d, c), b, k)(i) == 0.0
    {
      TimesZero(Coef(b, k - i));
    }
    SumBelowPoint(ConvTerm(Monomial(d, c), b, k), d, k + 1);
  }

  /** The constant `1` is the unit of the product. */
  lemma ConvOne(b: Poly, k: nat)
    ensures Conv(Monomial(0, 1.0), b, k) == Coef(b, k)
  {
    ConvMonomial(0, 1.0, b, k);
    TimesOne(Coef(b, k));
  }

  /** `p` has the coefficients of the product `a b`. */
  ghost predicate IsConv(p: Poly, a: Poly, b: Poly) {
    forall k: nat :: Coef(p, k) == Conv(a, b, k)
  }

  /** The term `c_(k-m) (a_i b_(m-i))` of the coefficient of `z^k` in `a b c`, for `i <= m <= k`. */
  function Triple(a: Poly, b: Poly, c: Poly, k: nat): (nat, nat) -> real {
    (i: nat, m: nat) => if m <= k then Times(Coef(c, k - m), ConvTerm(a, b, m)(i)) else 0.0
  }

  /** Row `m` of `Triple` is `c_(k-m)` times the terms of `a b`. */
  lemma AssocRowScaled(a: Poly, b: Poly, c: Poly, k: nat, m: nat)
    requires m <= k
    ensures SumBelow(Row(Triple(a, b, c, k), m), m + 1) == Times(Coef(c, k - m), Conv(a, b, m))
  {
    ConvIs(a, b, m);
    SumBelowScale(ConvTerm(a, b, m), Row(Triple(a, b, c, k), m), Coef(c, k - m), m + 1);
  }

  /** Row `m` of `Triple` vanishes past `m`. */
  lemma AssocRowShort(a: Poly, b: Poly, c: Poly, k: nat, m: nat)
    requires m <= k
    ensures SumBelow(Row(Triple(a, b, c, k), m), k + 1) == SumBelow(Row(Triple(a, b, c, k), m), m + 1)
  {
    var R := Row(Triple(a, b, c, k), m);
    forall i: nat | m + 1 <= i < k + 1
      ensures R(i) == 0.0
    {
      assert ConvTerm(a, b, m)(i) == 0.0;
      TimesZero(Coef(c, k - m));
    }
    SumBelowExtend(R, m + 1, k + 1);
  }

  /** Row `m` of `Triple` adds up to `c_(k-m)` times the coefficient of `z^m` in `a b`. */
  lemma AssocRowSum(a: Poly, b: Poly, c: Poly, k: nat, m: nat)
    requires m <= k
    ensures RowSums(Triple(a, b, c, k), k + 1)(m) == Times(Coef(c, k - m), Conv(a, b, m))
  {
    AssocRowShort(a, b, c, k, m);
    AssocRowScaled(a, b, c, k, m);
  }

  /** Row `m` of `Triple` adds up to the term `m` of `(a b) c`. */
  lemma AssocRow(a: Poly, b: Poly, c: Poly, ab: Poly, k: nat, m: nat)
    requires IsConv(ab, a, b) && m <= k
    ensures ConvTerm(ab, c, k)(m) == RowSums(Triple(a, b, c, k), k + 1)(m)
  {
    var C := Coef(c, k - m);
    assert ConvTerm(ab, c, k)(m) == Times(C, Conv(a, b, m)) by {
      assert Coef(ab, m) == Conv(a, b, m);
      TimesComm(Coef(ab, m), C);
    }
    assert RowSums(Triple(a, b, c, k), k + 1)(m) == Times(C, Conv(a, b, m)) by {
      AssocRowSum(a, b, c, k, m);
    }
  }

  /** The coefficient of `z^k` in `(a b) c`, as the row sums of `Triple`. */
  lemma AssocLeft(a: Poly, b: Poly, c: Poly, ab: Poly, k: nat)
    requires IsConv(ab, a, b)
    ensures Conv(ab, c, k) == SumBelow(RowSums(Triple(a, b, c, k), k + 1), k + 1)
  {
    ConvIs(ab, c, k);
    forall m: nat | m < k + 1
      ensures ConvTerm(ab, c, k)(m) == RowSums(Triple(a, b, c, k), k + 1)(m)
    {
      AssocRow(a, b, c, ab, k, m);
    }
    SumBelowExt(ConvTerm(ab, c, k), RowSums(Triple(a, b, c, k), k + 1), k + 1);
  }

  lemma Rotate(x: real, y: real, w: real)
    ensures Times(w, Times(x, y)) == Times(x, Times(y, w))
  {
    TimesComm(w, Times(x, y));
    TimesAssoc(x, y, w);
  }

  /** Column `i` of `Triple`, read from `m = i` on, is `a_i` times the terms of `b c`. */
  lemma AssocColTerm(a: Poly, b: Poly, c: Poly, k: nat, i: nat, n: nat, j: nat)
    requires i + n == k && j < n + 1
    ensures Col(Triple(a, b, c, k), i)(i + j) == Times(Coef(a, i), ConvTerm(b, c, n)(j))
  {
    var A, B, C := Coef(a, i), Coef(b, j), Coef(c, n - j);
    var left, right := Col(Triple(a, b, c, k), i)(i + j), ConvTerm(b, c, n)(j);
    assert left == Times(C, Times(A, B)) by {
      assert ConvTerm(a, b, i + j)(i) == Times(A, B);
    }
    assert right == Times(B, C);
    Rotate(A, B, C);
  }

  /** Column `i` of `Triple` vanishes before `i`. */
  lemma AssocColZero(a: Poly, b: Poly, c: Poly, k: nat, i: nat)
    ensures forall m: nat :: m < i ==> Col(Triple(a, b, c, k), i)(m) == 0.0
  {
    forall m: nat | m < i
      ensures Col(Triple(a, b, c, k), i)(m) == 0.0
    {
      assert ConvTerm(a, b, m)(i) == 0.0;
      if m <= k {
        TimesZero(Coef(c, k - m));
      }
    }
  }

  /** The terms `a_i (b c)_j` of column `i` of `Triple`. */
  function ColTerms(a: Poly, b: Poly, c: Poly, i: nat, n: nat): nat -> real {
    (j: nat) => Times(Coef(a, i), ConvTerm(b, c, n)(j))
  }

  /** From `m = i` on, column `i` of `Triple` is `a_i` times the terms of `b c`. */
  lemma AssocColShift(a: Poly, b: Poly, c: Poly, k: nat, i: nat, n: nat)
    requires i + n == k
    ensures forall j: nat :: j < n + 1 ==> ColTerms(a, b, c, i, n)(j) == Col(Triple(a, b, c, k), i)(i + j)
  {
    forall j: nat | j < n + 1
      ensures ColTerms(a, b, c, i, n)(j) == Col(Triple(a, b, c, k), i)(i + j)
    {
      AssocColTerm(a, b, c, k, i, n, j);
    }
  }

  /** Column `i` of `Triple` adds up to the terms of `ColTerms`. */
  lemma AssocColShifted(a: Poly, b: Poly, c: Poly, k: nat, i: nat, n: nat)
    requires i + n == k
    ensures SumBelow(Col(Triple(a, b, c, k), i), k + 1) == SumBelow(ColTerms(a, b, c, i, n), n + 1)
  {
    AssocColZero(a, b, c, k, i);
    AssocColShift(a, b, c, k, i, n);
    SumBelowShift(Col(Triple(a, b, c, k), i), ColTerms(a, b, c, i, n), i, n + 1);
  }

  /** Column `i` of `Triple` adds up to `a_i` times the coefficient of `z^(k-i)` in `b c`. */
  lemma AssocColSum(a: Poly, b: Poly, c: Poly, k: nat, i: nat, n: nat)
    requires i + n == k
    ensures SumBelow(Col(Triple(a, b, c, k), i), k + 1) == Times(Coef(a, i), Conv(b, c, n))
  {
    ConvIs(b, c, n);
    AssocColShifted(a, b, c, k, i, n);
    SumBelowScale(ConvTerm(b, c, n), ColTerms(a, b, c, i, n), Coef(a, i), n + 1);
  }

  /** Column `i` of `Triple` adds up to the term `i` of `a (b c)`. */
  lemma AssocCol(a: Poly, b: Poly, c: Poly, bc: Poly, k: nat, i: nat)
    requires IsConv(bc, b, c) && i <= k
    ensures ConvTerm(a, bc, k)(i) == ColSums(Triple(a, b, c, k), k + 1)(i)
  {
    assert ColSums(Triple(a, b, c, k), k + 1)(i) == Times(Coef(a, i), Conv(b, c, k - i)) by {
      AssocColSum(a, b, c, k, i, k - i);
    }
  }

  /** The coefficient of `z^k` in `a (b c)`, as the column sums of `Triple`. */
  lemma AssocRight(a: Poly, b: Poly, c: Poly, bc: Poly, k: nat)
    requires IsConv(bc, b, c)
    ensures Conv(a, bc, k) == SumBelow(ColSums(Triple(a, b, c, k), k + 1), k + 1)
  {
    ConvIs(a, bc, k);
    forall i: nat | i < k + 1
      ensures ConvTerm(a, bc, k)(i) == ColSums(Triple(a, b, c, k), k + 1)(i)
    {
      AssocCol(a, b, c, bc, k, i);
    }
    SumBelowExt(ConvTerm(a, bc, k), ColSums(Triple(a, b, c, k), k + 1), k + 1);
  }

  /** The product is associative. */
  lemma ConvAssoc(a: Poly, b: Poly, c: Poly, ab: Poly, bc: Poly, k: nat)
    requires IsConv(ab, a, b) && IsConv(bc, b, c)
    ensures Conv(ab, c, k) == Conv(a, bc, k)
  {
    AssocLeft(a, b, c, ab, k);
    AssocRight(a, b, c, bc, k);
    Fubini(Triple(a, b, c, k), k + 1, k + 1);
  }

  lemma ProductComm(a: Poly, b: Poly)
    ensures Product(a, b) == Product(b, a)
  {
    forall k: nat ensures Coef(Product(a, b), k) == Coef(Product(b, a), k) {
      ConvComm(a, b, k);
    }
    Extensionality(Product(a, b), Product(b, a));
  }

  lemma ProductAssoc(a: Poly, b: Poly, c: Poly)
    ensures Product(Product(a, b), c) == Product(a, Product(b, c))
  {
    forall k: nat ensures Coef(Product(Product(a, b), c), k) == Coef(Product(a, Product(b, c)), k) {
      ConvAssoc(a, b, c, Product(a, b), Product(b, c), k);
    }
    Extensionality(Product(Product(a, b), c), Product(a, Product(b, c)));
  }

  lemma ProductOne(b: Poly)
    ensures Product(Monomial(0, 1.0), b) == Processed(b)
  {
    forall k: nat ensures Coef(Product(Monomial(0, 1.0), b), k) == Coef(Processed(b), k) {
      ConvOne(b, k);
    }
    Extensionality(Product(Monomial(0, 1.0), b), Processed(b));
  }

  /** `a (x + y) = a x + a y`. */
  lemma ProductDistributes(a: Poly, x: Poly, y: Poly)
    ensures Product(a, Sum(x, y)) == Sum(Product(a, x), Product(a, y))
  {
    forall k: nat ensures Coef(Product(a, Sum(x, y)), k) == Coef(Sum(Product(a, x), Product(a, y)), k) {
      ConvAddRight(a, x, y, Sum(x, y), k);
    }
    Extensionality(Product(a, Sum(x, y)), Sum(Product(a, x), Product(a, y)));
  }

}
