/** Sparse polynomials in one variable `z`: a map from exponent to coefficient. Coefficients
    are exact reals, so `process` keeps exactly the non-zero coefficients. */
module Polynomial {

  type Poly = map<nat, real>

  // ---------------------------------------------------------------------------
  // Coefficient arithmetic

  /** The product `x * y` of two coefficients. The proofs below work with the ring laws
      proved about it rather than with nonlinear arithmetic. */
  function Times(x: real, y: real): real {
    x * y
  }

  lemma TimesIs(x: real, y: real)
    ensures Times(x, y) == x * y
  {
  }

  lemma TimesComm(x: real, y: real)
    ensures Times(x, y) == Times(y, x)
  {
    TimesIs(x, y);
    TimesIs(y, x);
  }

  lemma TimesAssoc(x: real, y: real, w: real)
    ensures Times(Times(x, y), w) == Times(x, Times(y, w))
  {
    TimesIs(x, y);
    TimesIs(y, w);
    TimesIs(Times(x, y), w);
    TimesIs(x, Times(y, w));
  }

  lemma TimesAddRight(c: real, x: real, y: real)
    ensures Times(c, x + y) == Times(c, x) + Times(c, y)
  {
    TimesIs(c, x + y);
    TimesIs(c, x);
    TimesIs(c, y);
  }

  lemma TimesAddLeft(x: real, y: real, c: real)
    ensures Times(x + y, c) == Times(x, c) + Times(y, c)
  {
    TimesIs(x + y, c);
    TimesIs(x, c);
    TimesIs(y, c);
  }

  lemma TimesZero(x: real)
    ensures Times(x, 0.0) == 0.0 && Times(0.0, x) == 0.0
  {
    TimesIs(x, 0.0);
    TimesIs(0.0, x);
  }

  lemma TimesOne(x: real)
    ensures Times(x, 1.0) == x && Times(1.0, x) == x
  {
    TimesIs(x, 1.0);
    TimesIs(1.0, x);
  }

  lemma TimesNeg(x: real, y: real)
    ensures Times(-x, y) == -Times(x, y) && Times(x, -y) == -Times(x, y)
  {
    TimesIs(-x, y);
    TimesIs(x, -y);
    TimesIs(x, y);
  }

  /** The quotient `x / y` of two coefficients. */
  function Over(x: real, y: real): real
    requires y != 0.0
  {
    x / y
  }

  /** `x / y` times `y` is `x`. */
  lemma Cancel(x: real, y: real)
    requires y != 0.0
    ensures Times(Over(x, y), y) == x
  {
    TimesIs(x / y, y);
  }

  /** A product of non-zero coefficients is not zero. */
  lemma TimesNonZero(x: real, y: real)
    requires x != 0.0 && y != 0.0
    ensures Times(x, y) != 0.0
  {
    TimesIs(x, y);
  }

  // ---------------------------------------------------------------------------
  // Polynomials

  /** The coefficient of `z^k`; an absent key is a zero coefficient. */
  function Coef(p: Poly, k: nat): real {
    if k in p then p[k] else 0.0
  }

  /** The canonical form `process` produces: no stored zero coefficient. */
  predicate IsProcessed(p: Poly) {
    forall k :: k in p ==> p[k] != 0.0
  }

  /** The zero polynomial. */
  predicate IsZero(p: Poly) {
    forall k :: k in p ==> p[k] == 0.0
  }

  /** Two processed polynomials with the same coefficients are the same map. */
  lemma Extensionality(a: Poly, b: Poly)
    requires IsProcessed(a) && IsProcessed(b)
    requires forall k: nat :: Coef(a, k) == Coef(b, k)
    ensures a == b
  {
    assert a.Keys == b.Keys by {
      forall k | k in a ensures k in b { assert Coef(a, k) != 0.0; }
      forall k | k in b ensures k in a { assert Coef(b, k) != 0.0; }
    }
    forall k | k in a ensures a[k] == b[k] { assert Coef(a, k) == Coef(b, k); }
  }

  /** `m` is the largest element of `s`. */
  predicate IsMax(m: nat, s: set<nat>) {
    m in s && forall k :: k in s ==> k <= m
  }

  /** The largest exponent of a non-empty set of exponents. */
  function MaxKey(s: set<nat>): (m: nat)
    requires s != {}
    ensures IsMax(m, s)
  {
    MaxExists(s);
    var m :| IsMax(m, s);
    m
  }

  lemma MaxExists(s: set<nat>)
    requires s != {}
    ensures exists m :: IsMax(m, s)
    decreases s
  {
    var x :| x in s;
    var rest := s - {x};
    if rest == {} {
      assert s == {x};
      assert IsMax(x, s);
    } else {
      MaxExists(rest);
      var m :| IsMax(m, rest);
      var top := if m < x then x else m;
      forall k | k in s
        ensures k <= top
      {
        if k != x {
          assert k in rest;
        }
      }
      assert IsMax(top, s);
    }
  }

  lemma ProcessedZero(p: Poly)
    requires IsProcessed(p)
    ensures IsZero(p) <==> p == map[]
  {
    if p != map[] {
      var k :| k in p;
      assert p[k] != 0.0;
    }
  }

  // ---------------------------------------------------------------------------
  // Finite sums and the Cauchy product

  /** `f(0) + ... + f(m - 1)`. */
  function SumBelow(f: nat -> real, m: nat): real
    decreases m
  {
    if m == 0 then 0.0 else SumBelow(f, m - 1) + f(m - 1)
  }

  lemma {:induction false} SumBelowExt(f: nat -> real, g: nat -> real, m: nat)
    requires forall i: nat :: i < m ==> f(i) == g(i)
    ensures SumBelow(f, m) == SumBelow(g, m)
    decreases m
  {
    if m > 0 {
      SumBelowExt(f, g, m - 1);
    }
  }

  lemma {:induction false} SumBelowZero(f: nat -> real, m: nat)
    requires forall i: nat :: i < m ==> f(i) == 0.0
    ensures SumBelow(f, m) == 0.0
    decreases m
  {
    if m > 0 {
      SumBelowZero(f, m - 1);
    }
  }

  lemma {:induction false} SumBelowAdd(f: nat -> real, g: nat -> real, h: nat -> real, m: nat)
    requires forall i: nat :: i < m ==> h(i) == f(i) + g(i)
    ensures SumBelow(h, m) == SumBelow(f, m) + SumBelow(g, m)
    decreases m
  {
    if m > 0 {
      SumBelowAdd(f, g, h, m - 1);
    }
  }

  lemma {:induction false} SumBelowScale(f: nat -> real, g: nat -> real, c: real, m: nat)
    requires forall i: nat :: i < m ==> g(i) == Times(c, f(i))
    ensures SumBelow(g, m) == Times(c, SumBelow(f, m))
    decreases m
  {
    if m == 0 {
      TimesZero(c);
    } else {
      SumBelowScale(f, g, c, m - 1);
      TimesAddRight(c, SumBelow(f, m - 1), f(m - 1));
    }
  }

  /** A sum whose terms vanish except at `x` is the term at `x`. */
  lemma {:induction false} SumBelowPoint(f: nat -> real, x: nat, m: nat)
    requires forall i: nat :: i < m && i != x ==> f(i) == 0.0
    ensures SumBelow(f, m) == if x < m then f(x) else 0.0
    decreases m
  {
    if m > 0 {
      SumBelowPoint(f, x, m - 1);
    }
  }

  /** The term `a_i b_(k-i)` of the coefficient of `z^k` in `a b`. */
  function ConvTerm(a: Poly, b: Poly, k: nat): nat -> real {
    (i: nat) => if i <= k then Times(Coef(a, i), Coef(b, k - i)) else 0.0
  }

  /** The coefficient of `z^k` in `a * b`: the sum of `a_i * b_j` over `i + j = k`. */
  function Conv(a: Poly, b: Poly, k: nat): real {
    ConvBelow(a, b, k, k + 1)
  }

  /** `a_0 b_k + ... + a_(n-1) b_(k-n+1)`, the first `n` products of `Conv`. */
  function ConvBelow(a: Poly, b: Poly, k: nat, n: nat): real
    requires n <= k + 1
  {
    if n == 0 then 0.0 else ConvBelow(a, b, k, n - 1) + Times(Coef(a, n - 1), Coef(b, k - (n - 1)))
  }

  /** `ConvBelow` adds up the first `n` of the terms `ConvTerm`. */
  lemma {:induction false} ConvBelowTerms(a: Poly, b: Poly, k: nat, n: nat)
    requires n <= k + 1
    ensures ConvBelow(a, b, k, n) == SumBelow(ConvTerm(a, b, k), n)
  {
    if n > 0 {
      ConvBelowTerms(a, b, k, n - 1);
    }
  }

  /** The coefficient of `z^k` in `a * b` as a sum of the terms `ConvTerm`. */
  lemma ConvIs(a: Poly, b: Poly, k: nat)
    ensures Conv(a, b, k) == SumBelow(ConvTerm(a, b, k), k + 1)
  {
    ConvBelowTerms(a, b, k, k + 1);
  }

  /** One past the largest stored exponent; zero for the empty map. */
  function Bound(p: Poly): (n: nat)
    ensures forall k :: k in p ==> k < n
    ensures p != map[] ==> n - 1 in p
  {
    if p == map[] then 0 else MaxKey(p.Keys) + 1
  }

  /** No coefficient is stored at or past `Bound`. */
  lemma BoundCoef(p: Poly, n: nat)
    requires Bound(p) <= n
    ensures forall k: nat :: n <= k ==> Coef(p, k) == 0.0
  {
  }

  /** Past `Bound(a) + Bound(b)` every product term has a zero factor. */
  lemma ConvOutside(a: Poly, b: Poly)
    ensures forall k: nat :: Bound(a) + Bound(b) <= k ==> Conv(a, b, k) == 0.0
  {
    forall k: nat | Bound(a) + Bound(b) <= k
      ensures Conv(a, b, k) == 0.0
    {
      forall i: nat | i < k + 1
        ensures ConvTerm(a, b, k)(i) == 0.0
      {
        if i < Bound(a) {
          assert Coef(b, k - i) == 0.0;
        }
      }
      SumBelowZero(ConvTerm(a, b, k), k + 1);
      ConvIs(a, b, k);
    }
  }

  // ---------------------------------------------------------------------------
  // What `process`, `add`, `neg` and `mul` compute

  /** `process(p)`: `p` without its zero coefficients. */
  function Processed(p: Poly): (r: Poly)
    ensures IsProcessed(r) && r.Keys <= p.Keys
    ensures forall k: nat {:trigger Coef(r, k)} :: Coef(r, k) == Coef(p, k)
  {
    map k | k in p && p[k] != 0.0 :: p[k]
  }

  /** `add(a, b)`: the coefficient-wise sum, processed. */
  function Sum(a: Poly, b: Poly): (r: Poly)
    ensures IsProcessed(r)
    ensures forall k: nat {:trigger Coef(r, k)} :: Coef(r, k) == Coef(a, k) + Coef(b, k)
  {
    map k | k in a.Keys + b.Keys && SumAt(a, b, k) != 0.0 :: SumAt(a, b, k)
  }

  /** The coefficient of `a + b` at `z^k`. */
  function SumAt(a: Poly, b: Poly, k: nat): real {
    Coef(a, k) + Coef(b, k)
  }

  /** `neg(a)`: every coefficient negated, processed. */
  function Negation(a: Poly): (r: Poly)
    ensures IsProcessed(r)
    ensures forall k: nat {:trigger Coef(r, k)} :: Coef(r, k) == -Coef(a, k)
  {
    map k | k in a && a[k] != 0.0 :: -a[k]
  }

  /** `mul(a, b)`: the Cauchy product, processed. */
  function Product(a: Poly, b: Poly): (r: Poly)
    ensures IsProcessed(r)
    ensures forall k: nat {:trigger Coef(r, k)} :: Coef(r, k) == Conv(a, b, k)
  {
    ConvOutside(a, b);
    map k: nat | k < Bound(a) + Bound(b) && Conv(a, b, k) != 0.0 :: Conv(a, b, k)
  }

  /** The polynomial `c * z^d`, as the program writes `{d: c}`. */
  function Monomial(d: nat, c: real): Poly {
    map[d := c]
  }

  // ---------------------------------------------------------------------------
  // The program's loops

  /** `process(p)`: keeps the keys whose coefficient is not zero. */
  method Process(p: Poly) returns (q: Poly)
    ensures q == Processed(p)
  {
    q := map[];
    var todo := p.Keys;
    while todo != {}
      invariant todo <= p.Keys
      invariant q == map k | k in p.Keys - todo && p[k] != 0.0 :: p[k]
      decreases |todo|
    {
      var key :| key in todo;
      if p[key] != 0.0 {
        q := q[key := p[key]];
      }
      todo := todo - {key};
    }
  }

  /** `e` holds `d` plus the terms of `src` outside `todo`. */
  ghost predicate Accumulated(e: Poly, d: Poly, src: Poly, todo: set<nat>) {
    forall k: nat :: Coef(e, k) == Coef(d, k) + (if k in todo then 0.0 else Coef(src, k))
  }

  lemma AccumulateStep(e: Poly, d: Poly, src: Poly, todo: set<nat>, key: nat)
    requires Accumulated(e, d, src, todo) && key in todo && key in src
    ensures Accumulated(e[key := Coef(e, key) + src[key]], d, src, todo - {key})
  {
    var e' := e[key := Coef(e, key) + src[key]];
    forall k: nat
      ensures Coef(e', k) == Coef(d, k) + (if k in todo - {key} then 0.0 else Coef(src, k))
    {
      if k != key {
        assert Coef(e', k) == Coef(e, k);
      }
    }
  }

  /** One loop of `add`: `for p, n in src.items(): d[p] += n` on a `defaultdict`. */
  method Accumulate(d: Poly, src: Poly) returns (e: Poly)
    ensures forall k: nat :: Coef(e, k) == Coef(d, k) + Coef(src, k)
  {
    e := d;
    var todo := src.Keys;
    while todo != {}
      invariant todo <= src.Keys
      invariant Accumulated(e, d, src, todo)
      decreases |todo|
    {
      var key :| key in todo;
      AccumulateStep(e, d, src, todo, key);
      e, todo := e[key := Coef(e, key) + src[key]], todo - {key};
    }
    assert Accumulated(e, d, src, {});
  }

  /** `add(v1, v2)`: accumulates both coefficient maps into a fresh map, then processes it. */
  method Add(a: Poly, b: Poly) returns (r: Poly)
    ensures r == Sum(a, b)
  {
    var d := Accumulate(map[], a);
    d := Accumulate(d, b);
    r := Process(d);
    forall k: nat
      ensures Coef(r, k) == Coef(Sum(a, b), k)
    {
      assert Coef(r, k) == Coef(d, k);
    }
    Extensionality(r, Sum(a, b));
  }

  /** `neg(v)`: negates every coefficient into a fresh map, then processes it. */
  method Neg(a: Poly) returns (r: Poly)
    ensures r == Negation(a)
  {
    var d: Poly := map[];
    var todo := a.Keys;
    while todo != {}
      invariant todo <= a.Keys
      invariant d.Keys == a.Keys - todo
      invariant forall k :: k in d ==> d[k] == -a[k]
      decreases |todo|
    {
      var key :| key in todo;
      d := d[key := -a[key]];
      todo := todo - {key};
    }
    r := Process(d);
    forall k: nat
      ensures Coef(r, k) == Coef(Negation(a), k)
    {
      assert Coef(r, k) == Coef(d, k);
    }
    Extensionality(r, Negation(a));
  }

  /** `f` restricted to the arguments in `s`. */
  function Restrict(f: nat -> real, s: set<nat>): nat -> real {
    (i: nat) => if i in s then f(i) else 0.0
  }

  lemma RestrictEmpty(f: nat -> real, m: nat)
    ensures SumBelow(Restrict(f, {}), m) == 0.0
  {
    SumBelowZero(Restrict(f, {}), m);
  }

  /** Adding one argument to the restriction adds its term. */
  lemma RestrictStep(f: nat -> real, s: set<nat>, x: nat, m: nat)
    requires x !in s
    ensures SumBelow(Restrict(f, s + {x}), m) == SumBelow(Restrict(f, s), m) + (if x < m then f(x) else 0.0)
  {
    var point := (i: nat) => if i == x then f(i) else 0.0;
    SumBelowAdd(Restrict(f, s), point, Restrict(f, s + {x}), m);
    SumBelowPoint(point, x, m);
  }

  /** Restricting to a set outside which `f` vanishes changes nothing. */
  lemma RestrictCovering(f: nat -> real, s: set<nat>, m: nat)
    requires forall i: nat :: i !in s ==> f(i) == 0.0
    ensures SumBelow(Restrict(f, s), m) == SumBelow(f, m)
  {
    SumBelowExt(Restrict(f, s), f, m);
  }

  /** The coefficient of `z^k` in `a * b`, counting only left exponents in `done`. */
  function Partial(a: Poly, b: Poly, done: set<nat>, k: nat): real {
    SumBelow(Restrict(ConvTerm(a, b, k), done), k + 1)
  }

  lemma PartialStep(a: Poly, b: Poly, done: set<nat>, i0: nat, k: nat)
    requires i0 !in done
    ensures Partial(a, b, done + {i0}, k)
            == Partial(a, b, done, k) + (if i0 <= k then ConvTerm(a, b, k)(i0) else 0.0)
  {
    RestrictStep(ConvTerm(a, b, k), done, i0, k + 1);
  }

  lemma PartialAll(a: Poly, b: Poly, k: nat)
    ensures Partial(a, b, a.Keys, k) == Conv(a, b, k)
  {
    ConvIs(a, b, k);
    RestrictCovering(ConvTerm(a, b, k), a.Keys, k + 1);
  }

  /** The state of `mul` after the outer keys `done`, and the inner keys `seen` of `i0`. */
  ghost predicate MulState(d: Poly, a: Poly, b: Poly, done: set<nat>, i0: nat, seen: set<nat>) {
    forall k: nat :: Coef(d, k) == Partial(a, b, done, k)
      + (if i0 <= k && k - i0 in seen then ConvTerm(a, b, k)(i0) else 0.0)
  }

  lemma MulStep(d: Poly, a: Poly, b: Poly, done: set<nat>, i0: nat, seen: set<nat>, j: nat)
    requires MulState(d, a, b, done, i0, seen) && j !in seen && i0 in a && j in b
    ensures MulState(d[i0 + j := Coef(d, i0 + j) + Times(a[i0], b[j])], a, b, done, i0, seen + {j})
  {
    var d' := d[i0 + j := Coef(d, i0 + j) + Times(a[i0], b[j])];
    forall k: nat
      ensures Coef(d', k) == Partial(a, b, done, k)
        + (if i0 <= k && k - i0 in seen + {j} then ConvTerm(a, b, k)(i0) else 0.0)
    {
      if k != i0 + j {
        assert Coef(d', k) == Coef(d, k);
      }
    }
  }

  lemma MulRowDone(d: Poly, a: Poly, b: Poly, done: set<nat>, i0: nat)
    requires MulState(d, a, b, done, i0, b.Keys) && i0 !in done
    ensures MulDone(d, a, b, done + {i0})
  {
    forall k: nat
      ensures Coef(d, k) == Partial(a, b, done + {i0}, k)
    {
      PartialStep(a, b, done, i0, k);
      if i0 <= k && k - i0 !in b {
        TimesZero(Coef(a, i0));
      }
    }
  }

  ghost predicate MulDone(d: Poly, a: Poly, b: Poly, done: set<nat>) {
    forall k: nat :: Coef(d, k) == Partial(a, b, done, k)
  }

  /** The inner loop of `mul` for the outer key `i`: `d3[i + p2] += a[i] * n2` for every key `p2`
      of `b`. */
  method MulRow(d0: Poly, a: Poly, b: Poly, ghost done: set<nat>, i: nat) returns (d: Poly)
    requires i in a && i !in done && MulDone(d0, a, b, done)
    ensures MulDone(d, a, b, done + {i})
  {
    d := d0;
    var inner := b.Keys;
    ghost var seen: set<nat> := {};
    while inner != {}
      invariant inner <= b.Keys && seen == b.Keys - inner
      invariant MulState(d, a, b, done, i, seen)
      decreases |inner|
    {
      var j :| j in inner;
      MulStep(d, a, b, done, i, seen, j);
      d := d[i + j := Coef(d, i + j) + Times(a[i], b[j])];
      seen, inner := seen + {j}, inner - {j};
    }
    assert seen == b.Keys;
    MulRowDone(d, a, b, done, i);
  }

  lemma MulStart(a: Poly, b: Poly)
    ensures MulDone(map[], a, b, {})
  {
    forall k: nat
      ensures Coef(map[], k) == Partial(a, b, {}, k)
    {
      RestrictEmpty(ConvTerm(a, b, k), k + 1);
    }
  }

  lemma MulFinish(d: Poly, r: Poly, a: Poly, b: Poly)
    requires MulDone(d, a, b, a.Keys) && r == Processed(d)
    ensures r == Product(a, b)
  {
    forall k: nat
      ensures Coef(r, k) == Coef(Product(a, b), k)
    {
      PartialAll(a, b, k);
    }
    Extensionality(r, Product(a, b));
  }

  /** `mul(v1, v2)`: for every pair of keys, `d3[p1 + p2] += n1 * n2`; then processes. */
  method Mul(a: Poly, b: Poly) returns (r: Poly)
    ensures r == Product(a, b)
  {
    var d: Poly := map[];
    var todo := a.Keys;
    ghost var done: set<nat> := {};
    MulStart(a, b);
    while todo != {}
      invariant done + todo == a.Keys && done !! todo
      invariant MulDone(d, a, b, done)
      decreases |todo|
    {
      var i :| i in todo;
      d := MulRow(d, a, b, done, i);
      done, todo := done + {i}, todo - {i};
    }
    r := Process(d);
    MulFinish(d, r, a, b);
  }
}
