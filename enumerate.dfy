/** `exact`, `exact_coefficients` and `collate`: the number of words of length `n` read off the
    rational generating function `overflow + top / bottom` of a regular expression, by
    expanding `top / bottom` as the power series `p + p q + p q^2 + ...`. */
module Enumerate {
  import opened Wrappers
  import opened Regex
  import opened Polynomial
  import opened PolyAlgebra
  import opened Transfer
  import opened Euclid
  import opened Pipeline
  import Parser
  import Language

  // ---------------------------------------------------------------------------
  // Power series of a quotient

  /** `s` agrees with the power series of `top / bottom` up to `z^n`: the coefficients of
      `bottom s` and of `top` are the same up to `z^n`. */
  predicate IsSeriesPrefix(top: Poly, bottom: Poly, s: Poly, n: nat) {
    forall k: nat :: k <= n ==> Conv(bottom, s, k) == Coef(top, k)
  }

  /** `top = b0 p` and `bottom = b0 (1 - q)`, where `b0` is the constant term of `bottom`. */
  ghost predicate IsNormalForm(top: Poly, bottom: Poly, p: Poly, q: Poly) {
    && Coef(q, 0) == 0.0
    && forall k: nat ::
         && Coef(top, k) == Times(Coef(bottom, 0), Coef(p, k))
         && (k > 0 ==> Coef(bottom, k) == Times(Coef(bottom, 0), -Coef(q, k)))
  }

  /** A product with the constant `c` scales every coefficient by `c`. */
  lemma ScaleCoef(a: Poly, c: real, k: nat)
    ensures Coef(Product(a, Monomial(0, c)), k) == Times(c, Coef(a, k))
  {
    ConvComm(a, Monomial(0, c), k);
    ConvMonomial(0, c, a, k);
  }

  /** `bottom * {0: -1/bottom[0]}` has the constant term `-1`, so `q.pop(0)` finds its key. */
  lemma ConstantPresent(bottom: Poly)
    requires 0 in bottom && bottom[0] != 0.0
    ensures 0 in Product(bottom, Monomial(0, Over(-1.0, bottom[0])))
  {
    ScaleCoef(bottom, Over(-1.0, bottom[0]), 0);
    TimesComm(Over(-1.0, bottom[0]), bottom[0]);
    Cancel(-1.0, bottom[0]);
  }

  /** The normalisation step of `exact`: `assert bottom[0]`, then `p = top * {0: 1/bottom[0]}` and
      `q = bottom * {0: -1/bottom[0]}` with its constant term popped. */
  function Normalise(top: Poly, bottom: Poly): (r: Result<(Poly, Poly)>)
    ensures r.Ok? <==> Coef(bottom, 0) != 0.0
    ensures r.Err? ==> r.error == (if 0 in bottom then AssertionFailed else KeyError)
  {
    if 0 !in bottom then Err(KeyError)
    else if bottom[0] == 0.0 then Err(AssertionFailed)
    else
      var b0 := bottom[0];
      var p := DownP(PMul(V(top), V(Monomial(0, Over(1.0, b0)))));
      var q := DownP(PMul(V(bottom), V(Monomial(0, Over(-1.0, b0)))));
      DownPProduct(bottom, Monomial(0, Over(-1.0, b0)));
      ConstantPresent(bottom);
      if 0 !in q then Err(KeyError)
      else Ok((p, q - {0}))
  }

  lemma Unscale(b0: real, t: real)
    requires b0 != 0.0
    ensures Times(b0, Times(Over(1.0, b0), t)) == t
    ensures Times(b0, -Times(Over(-1.0, b0), t)) == t
  {
    TimesIs(Over(1.0, b0), t);
    TimesIs(b0, Times(Over(1.0, b0), t));
    TimesIs(Over(-1.0, b0), t);
    TimesIs(b0, -Times(Over(-1.0, b0), t));
    assert b0 * (1.0 / b0) == 1.0;
    assert b0 * (-1.0 / b0) == -1.0;
  }

  /** The normalisation writes `top / bottom` as `p / (1 - q)` with `q` free of a constant
      term. */
  lemma NormaliseMeaning(top: Poly, bottom: Poly)
    requires Normalise(top, bottom).Ok?
    ensures IsNormalForm(top, bottom, Normalise(top, bottom).value.0, Normalise(top, bottom).value.1)
  {
    var b0 := bottom[0];
    var (p, q) := Normalise(top, bottom).value;
    var q0 := Product(bottom, Monomial(0, Over(-1.0, b0)));
    DownPProduct(top, Monomial(0, Over(1.0, b0)));
    DownPProduct(bottom, Monomial(0, Over(-1.0, b0)));
    assert p == Product(top, Monomial(0, Over(1.0, b0)));
    assert q == q0 - {0};
    forall k: nat
      ensures Coef(top, k) == Times(b0, Coef(p, k))
      ensures k > 0 ==> Coef(bottom, k) == Times(b0, -Coef(q, k))
    {
      ScaleCoef(top, Over(1.0, b0), k);
      ScaleCoef(bottom, Over(-1.0, b0), k);
      Unscale(b0, Coef(top, k));
      Unscale(b0, Coef(bottom, k));
      if k > 0 {
        assert Coef(q, k) == Coef(q0, k);
      }
    }
  }

  /** Every product term of `a b` at `z^k` has a zero factor, so the coefficient is zero. */
  lemma ConvVanishes(a: Poly, b: Poly, k: nat)
    requires forall j: nat :: j <= k ==> Coef(a, j) == 0.0 || Coef(b, k - j) == 0.0
    ensures Conv(a, b, k) == 0.0
  {
    ConvIs(a, b, k);
    forall j: nat | j < k + 1
      ensures ConvTerm(a, b, k)(j) == 0.0
    {
      TimesZero(Coef(a, j));
      TimesZero(Coef(b, k - j));
    }
    SumBelowZero(ConvTerm(a, b, k), k + 1);
  }

  /** `bottom x = b0 (x - q x)`, coefficient by coefficient. */
  lemma BottomTimes(top: Poly, bottom: Poly, p: Poly, q: Poly, x: Poly, k: nat)
    requires IsNormalForm(top, bottom, p, q)
    ensures Conv(bottom, x, k) == Times(Coef(bottom, 0), Coef(x, k) - Conv(q, x, k))
  {
    var b0 := Coef(bottom, 0);
    var one := Monomial(0, 1.0);
    var u := Sum(one, Negation(q));
    forall i: nat
      ensures Coef(bottom, i) == Times(b0, Coef(u, i))
    {
      if i == 0 {
        TimesOne(b0);
      }
    }
    ConvScaleLeft(u, bottom, b0, x, k);
    ConvAddLeft(one, Negation(q), u, x, k);
    ConvOne(x, k);
    ConvComm(Negation(q), x, k);
    ConvNegateRight(x, q, k);
    ConvComm(x, q, k);
  }

  /** One step of the telescoping sum: adding `last` to the partial sum `prev` replaces `last`
      by `next = last q` on the right-hand side. */
  lemma TelescopeStep(bottom: Poly, p: Poly, q: Poly, prev: Poly, last: Poly, k: nat)
    requires Conv(bottom, last, k) == Times(Coef(bottom, 0), Coef(last, k) - Conv(q, last, k))
    requires Conv(bottom, prev, k) == Times(Coef(bottom, 0), Coef(p, k) - Coef(last, k))
    ensures Conv(bottom, Sum(prev, last), k)
            == Times(Coef(bottom, 0), Coef(p, k) - Coef(Product(last, q), k))
  {
    var b0 := Coef(bottom, 0);
    var next := Product(last, q);
    ConvAddRight(bottom, prev, last, Sum(prev, last), k);
    ConvComm(q, last, k);
    TimesAddRight(b0, Coef(p, k) - Coef(last, k), Coef(last, k) - Coef(next, k));
  }

  /** The state of the loop in `exact` after a round: `bottom s = b0 (p - qn)` up to `z^n`,
      where `s` is the sum of the terms added so far and `qn` the next term. */
  predicate Telescoped(bottom: Poly, p: Poly, s: Poly, qn: Poly, n: nat) {
    forall k: nat :: k <= n ==> Conv(bottom, s, k) == Times(Coef(bottom, 0), Coef(p, k) - Coef(qn, k))
  }

  /** `x` has no term below `z^i`. */
  predicate VanishesBelow(x: Poly, i: nat) {
    forall k: nat :: k < i ==> Coef(x, k) == 0.0
  }

  /** Before the first round nothing has been added and `qn = p`. */
  lemma TelescopeStart(bottom: Poly, p: Poly, n: nat)
    ensures Telescoped(bottom, p, map[], p, n)
  {
    forall k: nat | k <= n
      ensures Conv(bottom, map[], k) == Times(Coef(bottom, 0), Coef(p, k) - Coef(p, k))
    {
      ConvComm(bottom, map[], k);
      ConvZeroLeft(map[], bottom, k);
      TimesZero(Coef(bottom, 0));
    }
  }

  /** A round of the loop, `s += qn` and `qn *= q`, keeps the telescoping identity. */
  lemma TelescopeRound(top: Poly, bottom: Poly, p: Poly, q: Poly, s: Poly, qn: Poly, n: nat)
    requires IsNormalForm(top, bottom, p, q)
    requires Telescoped(bottom, p, s, qn, n)
    ensures Telescoped(bottom, p, Sum(s, qn), Product(qn, q), n)
  {
    forall k: nat | k <= n
      ensures Conv(bottom, Sum(s, qn), k) == Times(Coef(bottom, 0), Coef(p, k) - Coef(Product(qn, q), k))
    {
      BottomTimes(top, bottom, p, q, qn, k);
      TelescopeStep(bottom, p, q, s, qn, k);
    }
  }

  /** Multiplying by `q`, which has no constant term, raises the lowest power of `qn`. */
  lemma ValuationRound(q: Poly, qn: Poly, i: nat)
    requires Coef(q, 0) == 0.0 && VanishesBelow(qn, i)
    ensures VanishesBelow(Product(qn, q), i + 1)
  {
    forall k: nat | k < i + 1
      ensures Coef(Product(qn, q), k) == 0.0
    {
      forall j: nat | j <= k
        ensures Coef(qn, j) == 0.0 || Coef(q, k - j) == 0.0
      {
        if j == i {
          assert k - j == 0;
        }
      }
      ConvVanishes(qn, q, k);
    }
  }

  /** After `n + 1` rounds `qn` has no term up to `z^n`, so the sum is the power series of
      `top / bottom` up to `z^n`. */
  lemma TelescopeEnd(top: Poly, bottom: Poly, p: Poly, q: Poly, s: Poly, qn: Poly, n: nat)
    requires IsNormalForm(top, bottom, p, q)
    requires Telescoped(bottom, p, s, qn, n) && VanishesBelow(qn, n + 1)
    ensures IsSeriesPrefix(top, bottom, s, n)
  {
    forall k: nat | k <= n
      ensures Conv(bottom, s, k) == Coef(top, k)
    {
      assert Coef(qn, k) == 0.0;
      assert Coef(p, k) - Coef(qn, k) == Coef(p, k);
    }
  }

  /** When `bottom` has a constant term, `top / bottom` has a power series up to any `z^n`:
      the sum the loop of `exact` accumulates. */
  lemma SeriesExists(top: Poly, bottom: Poly, n: nat)
    requires Coef(bottom, 0) != 0.0
    ensures exists s :: IsSeriesPrefix(top, bottom, s, n)
  {
    NormaliseMeaning(top, bottom);
    var (p, q) := Normalise(top, bottom).value;
    var s: Poly, qn, i := map[], p, 0;
    TelescopeStart(bottom, p, n);
    while i < n + 1
      invariant i <= n + 1
      invariant Telescoped(bottom, p, s, qn, n) && VanishesBelow(qn, i)
    {
      TelescopeRound(top, bottom, p, q, s, qn, n);
      ValuationRound(q, qn, i);
      s, qn, i := Sum(s, qn), Product(qn, q), i + 1;
    }
    TelescopeEnd(top, bottom, p, q, s, qn, n);
  }

  /** Once the coefficients of `d` below `z^k` are zero, `bottom d` at `z^k` is `b0 d_k`. */
  lemma ConvLeading(bottom: Poly, d: Poly, k: nat)
    requires forall j: nat :: j < k ==> Coef(d, j) == 0.0
    ensures Conv(bottom, d, k) == Times(Coef(bottom, 0), Coef(d, k))
  {
    ConvComm(bottom, d, k);
    ConvIs(d, bottom, k);
    var f := ConvTerm(d, bottom, k);
    forall j: nat | j < k
      ensures f(j) == 0.0
    {
      TimesZero(Coef(bottom, k - j));
    }
    SumBelowZero(f, k);
    TimesComm(Coef(d, k), Coef(bottom, 0));
  }

  /** A series `d` with `bottom d = 0` up to `z^n` and `b0 != 0` is zero up to `z^n`. */
  lemma {:induction false} NoDivisorOfZero(bottom: Poly, d: Poly, n: nat, k: nat)
    requires Coef(bottom, 0) != 0.0
    requires forall j: nat :: j <= n ==> Conv(bottom, d, j) == 0.0
    requires k <= n
    ensures Coef(d, k) == 0.0
    decreases k
  {
    forall j: nat | j < k
      ensures Coef(d, j) == 0.0
    {
      NoDivisorOfZero(bottom, d, n, j);
    }
    ConvLeading(bottom, d, k);
    if Coef(d, k) != 0.0 {
      TimesNonZero(Coef(bottom, 0), Coef(d, k));
    }
  }

  /** The power series of `top / bottom` is unique up to `z^n` when `bottom(0) != 0`. */
  lemma SeriesUnique(top: Poly, bottom: Poly, s: Poly, t: Poly, n: nat)
    requires Coef(bottom, 0) != 0.0
    requires IsSeriesPrefix(top, bottom, s, n) && IsSeriesPrefix(top, bottom, t, n)
    ensures forall k: nat :: k <= n ==> Coef(s, k) == Coef(t, k)
  {
    var d := Sum(s, Negation(t));
    forall j: nat | j <= n
      ensures Conv(bottom, d, j) == 0.0
    {
      ConvAddRight(bottom, s, Negation(t), d, j);
      ConvNegateRight(bottom, t, j);
    }
    forall k: nat | k <= n
      ensures Coef(s, k) == Coef(t, k)
    {
      NoDivisorOfZero(bottom, d, n, k);
    }
  }

  /** Every power series of `top / bottom` up to `z^n` has the coefficient of `s` at `z^n`. */
  lemma SeriesAgree(top: Poly, bottom: Poly, s: Poly, n: nat)
    requires Coef(bottom, 0) != 0.0 && IsSeriesPrefix(top, bottom, s, n)
    ensures forall t :: IsSeriesPrefix(top, bottom, t, n) ==> Coef(t, n) == Coef(s, n)
  {
    forall t | IsSeriesPrefix(top, bottom, t, n)
      ensures Coef(t, n) == Coef(s, n)
    {
      SeriesUnique(top, bottom, s, t, n);
    }
  }

  /** The coefficient of `z^n` in the power series of `top / bottom`. */
  ghost function SeriesCoef(top: Poly, bottom: Poly, n: nat): (c: real)
    requires Coef(bottom, 0) != 0.0
    ensures forall s :: IsSeriesPrefix(top, bottom, s, n) ==> Coef(s, n) == c
  {
    SeriesExists(top, bottom, n);
    var s :| IsSeriesPrefix(top, bottom, s, n);
    SeriesAgree(top, bottom, s, n);
    Coef(s, n)
  }

  // ---------------------------------------------------------------------------
  // exact

  /** Python's `round` on a number: the nearest integer, ties to the even one. */
  function RoundHalfEven(x: real): (r: int)
    ensures r as real - 0.5 <= x <= r as real + 0.5
    ensures x - r as real == 0.5 || r as real - x == 0.5 ==> r % 2 == 0
  {
    var f := x.Floor;
    var d := x - f as real;
    if d < 0.5 then f
    else if d > 0.5 then f + 1
    else if f % 2 == 0 then f
    else f + 1
  }

  /** `simplify(*rationalize(transfer(regex, what)))`, parsing the text first. */
  function Stages(input: Input, what: Option<set<char>>): Result<(Poly, (Poly, Poly))> {
    var tree :- TreeOf(input);
    var fraction := Rationalize(Transfer.Transfer(tree, what));
    Simplify(fraction.0, fraction.1)
  }

  /** `process` leaves nothing exactly when every coefficient is zero. */
  lemma ProcessedEmpty(p: Poly)
    ensures Processed(p) == map[] <==> IsZero(p)
  {
    if !IsZero(p) {
      var k :| k in p && p[k] != 0.0;
      assert k in Processed(p);
    }
  }

  /** The tail of `exact`, from `overflow + top / bottom` to the returned number: the
      overflow's coefficient of `z^n` (unless it is switched off) plus that of the power series
      of `top / bottom`, rounded to an integer when the overflow is in use. */
  ghost function Extract(overflow: Poly, top: Poly, bottom: Poly, n: nat, useOverflow: bool): (r: Result<real>)
    ensures IsZero(top) ==> r == Ok(Coef(if useOverflow then overflow else map[], n))
    ensures !IsZero(top) ==> (r.Ok? <==> Coef(bottom, 0) != 0.0)
    ensures !IsZero(top) && r.Err? ==> r.error == (if 0 in bottom then AssertionFailed else KeyError)
    ensures !IsZero(top) && r.Ok? && useOverflow ==> r.value == r.value.Floor as real
  {
    var overflow := if useOverflow then overflow else map[];
    ProcessedEmpty(top);
    var top' := Processed(top);
    if top' == map[] then Ok(Coef(overflow, n))
    else
      var _ :- Normalise(top', bottom);
      var c := Coef(overflow, n) + SeriesCoef(top', bottom, n);
      Ok(if useOverflow then RoundHalfEven(c) as real else c)
  }

  /** `exact(regex, n, what, use_overflow)`. */
  ghost function ExactValue(input: Input, n: nat, what: Option<set<char>>, useOverflow: bool): Result<real> {
    ExactOf(Stages(input, what), n, useOverflow)
  }

  /** `exact` once the stages have produced `stages`. */
  ghost function ExactOf(stages: Result<(Poly, (Poly, Poly))>, n: nat, useOverflow: bool): Result<real> {
    var parts :- stages;
    Extract(parts.0, parts.1.0, parts.1.1, n, useOverflow)
  }

  /** Whether `exact` fails does not depend on `n`, and neither does the failure. */
  lemma ExactFailsUniformly(stages: Result<(Poly, (Poly, Poly))>, n: nat, m: nat, useOverflow: bool)
    ensures ExactOf(stages, n, useOverflow).Err? <==> ExactOf(stages, m, useOverflow).Err?
    ensures ExactOf(stages, n, useOverflow).Err?
            ==> ExactOf(stages, n, useOverflow) == ExactOf(stages, m, useOverflow)
  {
  }

  /** A failure of `exact` for one `n` is the failure for every `n`. */
  lemma ExactFailsEverywhere(stages: Result<(Poly, (Poly, Poly))>, n: nat, useOverflow: bool)
    requires ExactOf(stages, n, useOverflow).Err?
    ensures forall m: nat :: ExactOf(stages, m, useOverflow) == ExactOf(stages, n, useOverflow)
  {
    forall m: nat
      ensures ExactOf(stages, m, useOverflow) == ExactOf(stages, n, useOverflow)
    {
      ExactFailsUniformly(stages, n, m, useOverflow);
    }
  }

  /** `exact`: runs the stages, then extracts the coefficient of `z^n`. */
  method Exact(input: Input, n: nat, what: Option<set<char>>, useOverflow: bool) returns (r: Result<real>)
    ensures r == ExactValue(input, n, what, useOverflow)
  {
    var parts := Stages(input, what);
    if parts.Err? {
      return Err(parts.error);
    }
    r := ExactFrom(parts.value.0, parts.value.1.0, parts.value.1.1, n, useOverflow);
  }

  /** The tail of `exact`: switches the overflow off if asked, returns early when `top` is
      zero, and otherwise expands `top / bottom`. */
  method ExactFrom(overflow: Poly, top: Poly, bottom: Poly, n: nat, useOverflow: bool) returns (r: Result<real>)
    ensures r == Extract(overflow, top, bottom, n, useOverflow)
  {
    var ov := overflow;
    if !useOverflow {
      ov := map[];
    }
    var top' := Process(top);
    if top' == map[] {
      return Ok(Coef(ov, n));
    }
    var coefficients := Expand(top', bottom, n, Coef(ov, n));
    if coefficients.Err? {
      return Err(coefficients.error);
    }
    r := Ok(if useOverflow then RoundHalfEven(coefficients.value) as real else coefficients.value);
  }

  /** The expansion loop of `exact`: normalises `top / bottom` to `p / (1 - q)` and adds the
      coefficients of `z^n` in `p, p q, ..., p q^n` to `start`, which is the power series
      coefficient of `top / bottom` at `z^n`. */
  method Expand(top: Poly, bottom: Poly, n: nat, start: real) returns (r: Result<real>)
    ensures r.Ok? <==> Coef(bottom, 0) != 0.0
    ensures r.Err? ==> r.error == (if 0 in bottom then AssertionFailed else KeyError)
    ensures r.Ok? ==> r.value == start + SeriesCoef(top, bottom, n)
  {
    if 0 !in bottom {
      return Err(KeyError);
    }
    if bottom[0] == 0.0 {
      return Err(AssertionFailed);
    }
    var p := Mul(top, Monomial(0, Over(1.0, bottom[0])));
    var q := Mul(bottom, Monomial(0, Over(-1.0, bottom[0])));
    DownPProduct(top, Monomial(0, Over(1.0, bottom[0])));
    DownPProduct(bottom, Monomial(0, Over(-1.0, bottom[0])));
    ConstantPresent(bottom);
    q := q - {0};
    assert Normalise(top, bottom) == Ok((p, q));
    NormaliseMeaning(top, bottom);
    var qn := p;
    ghost var s: Poly := map[];
    var coefficients := start;
    TelescopeStart(bottom, p, n);
    for i := 0 to n + 1
      invariant Telescoped(bottom, p, s, qn, n) && VanishesBelow(qn, i)
      invariant coefficients == start + Coef(s, n)
    {
      coefficients := coefficients + Coef(qn, n);
      TelescopeRound(top, bottom, p, q, s, qn, n);
      ValuationRound(q, qn, i);
      s := Sum(s, qn);
      qn := Mul(qn, q);
    }
    TelescopeEnd(top, bottom, p, q, s, qn, n);
    r := Ok(coefficients);
  }

  /** `values` are `exact(regex, 0), ..., exact(regex, |values| - 1)`, the stages having
      produced `stages`. */
  ghost predicate Listed(stages: Result<(Poly, (Poly, Poly))>, useOverflow: bool, values: seq<real>) {
    forall n :: 0 <= n < |values| ==> ExactOf(stages, n, useOverflow) == Ok(values[n])
  }

  /** Appending `exact(regex, |values|)` keeps the list. */
  lemma ListedAppend(stages: Result<(Poly, (Poly, Poly))>, useOverflow: bool, values: seq<real>, v: real)
    requires Listed(stages, useOverflow, values)
    requires ExactOf(stages, |values|, useOverflow) == Ok(v)
    ensures Listed(stages, useOverflow, values + [v])
  {
    var longer := values + [v];
    assert forall n :: 0 <= n < |values| ==> longer[n] == values[n];
    assert longer[|values|] == v;
  }

  /** The first `count` values of the generator `exact_coefficients`, as `islice` takes them:
      `exact(regex, 0), exact(regex, 1), ...`, or the failure of the first call. */
  method ExactCoefficients(input: Input, what: Option<set<char>>, useOverflow: bool, count: nat)
    returns (r: Result<seq<real>>)
    ensures r.Ok? <==> count == 0 || ExactValue(input, 0, what, useOverflow).Ok?
    ensures r.Ok? ==> |r.value| == count
    ensures r.Ok? ==> forall n :: 0 <= n < count ==> ExactValue(input, n, what, useOverflow) == Ok(r.value[n])
    ensures r.Err? ==> forall n: nat :: ExactValue(input, n, what, useOverflow) == Err(r.error)
  {
    ghost var stages := Stages(input, what);
    var values: seq<real> := [];
    for n := 0 to count
      invariant |values| == n
      invariant Listed(stages, useOverflow, values)
    {
      var v := Exact(input, n, what, useOverflow);
      if v.Err? {
        ExactFailsEverywhere(stages, n, useOverflow);
        return Err(v.error);
      }
      ListedAppend(stages, useOverflow, values, v.value);
      values := values + [v.value];
    }
    r := Ok(values);
    if count > 0 {
      assert ExactOf(stages, 0, useOverflow) == Ok(values[0]);
    }
  }

  // ---------------------------------------------------------------------------
  // collate

  /** A complex root, ordered as the program's sort orders it: by real part, then by
      imaginary part. */
  datatype Complex = Complex(re: real, im: real)

  /** A root with one of its multiplicities. */
  type Pole = (Complex, nat)

  /** The lexicographic order of `(root, k)` pairs. */
  predicate Below(a: Pole, b: Pole) {
    || a.0.re < b.0.re
    || (a.0.re == b.0.re && a.0.im < b.0.im)
    || (a.0 == b.0 && a.1 < b.1)
  }

  /** Strictly increasing: sorted with no pair repeated. */
  predicate Increasing(s: seq<Pole>) {
    forall i, j :: 0 <= i < j < |s| ==> Below(s[i], s[j])
  }

  /** The pairs `(root, k)` for `1 <= k <= clusters[root]`. */
  predicate Expands(clusters: map<Complex, nat>, x: Pole) {
    x.0 in clusters && 1 <= x.1 <= clusters[x.0]
  }

  /** `x` put into its place in the increasing sequence `s`. */
  function Insert(s: seq<Pole>, x: Pole): (r: seq<Pole>)
    ensures multiset(r) == multiset(s) + multiset{x}
  {
    if s == [] then [x]
    else if Below(s[0], x) then
      assert s == [s[0]] + s[1..];
      [s[0]] + Insert(s[1..], x)
    else [x] + s
  }

  lemma {:induction false} InsertIncreasing(s: seq<Pole>, x: Pole)
    requires Increasing(s) && x !in s
    ensures Increasing(Insert(s, x))
  {
    if s != [] && Below(s[0], x) {
      assert s == [s[0]] + s[1..];
      InsertIncreasing(s[1..], x);
      var rest := Insert(s[1..], x);
      forall y | y in rest
        ensures Below(s[0], y)
      {
        assert y in multiset(rest);
      }
      ConsIncreasing(s[0], rest);
    } else if s != [] {
      assert x != s[0];
      forall y | y in s
        ensures Below(x, y)
      {
        if y != s[0] {
          BelowFirst(s, y);
        }
      }
      ConsIncreasing(x, s);
    }
  }

  /** In a strictly increasing list, every element other than the first is above it. */
  lemma BelowFirst(s: seq<Pole>, y: Pole)
    requires Increasing(s) && y in s && y != s[0]
    ensures Below(s[0], y)
  {
  }

  /** A pair below every element of a strictly increasing list extends it at the front. */
  lemma ConsIncreasing(a: Pole, s: seq<Pole>)
    requires Increasing(s) && forall y :: y in s ==> Below(a, y)
    ensures Increasing([a] + s)
  {
    var r := [a] + s;
    forall i, j | 0 <= i < j < |r|
      ensures Below(r[i], r[j])
    {
      assert r[j] == s[j - 1];
      if i > 0 {
        assert r[i] == s[i - 1];
      } else {
        assert s[j - 1] in s;
      }
    }
  }

  predicate Distinct(xs: seq<Pole>) {
    forall i, j :: 0 <= i < j < |xs| ==> xs[i] != xs[j]
  }

  /** `sorted(xs)`, as an insertion sort: a permutation of `xs`, strictly increasing when
      the pairs of `xs` are all different. */
  function Sort(xs: seq<Pole>): (r: seq<Pole>)
    ensures multiset(r) == multiset(xs)
    ensures Distinct(xs) ==> Increasing(r)
  {
    if xs == [] then []
    else
      var init, x := xs[..|xs| - 1], xs[|xs| - 1];
      assert xs == init + [x];
      var sorted := Sort(init);
      assert Distinct(xs) ==> Increasing(Insert(sorted, x)) by {
        if Distinct(xs) {
          assert x !in multiset(init);
          InsertIncreasing(sorted, x);
        }
      }
      Insert(sorted, x)
  }

  /** The first element of an increasing sequence is below every other element. */
  lemma LeastFirst(s: seq<Pole>, x: Pole)
    requires Increasing(s) && x in s
    ensures x == s[0] || Below(s[0], x)
  {
    var i :| 0 <= i < |s| && s[i] == x;
    if i != 0 {
      assert Below(s[0], s[i]);
    }
  }

  /** `Below` is a strict order: never both ways. */
  lemma BelowAsymmetric(a: Pole, b: Pole)
    ensures !(Below(a, b) && Below(b, a))
  {
  }

  /** An element of the tail of `s` is in the tail of `t` when both start alike. */
  lemma InTail(s: seq<Pole>, t: seq<Pole>, x: Pole)
    requires Increasing(s) && s != [] && t != [] && s[0] == t[0]
    requires forall y :: y in s <==> y in t
    requires x in s[1..]
    ensures x in t[1..]
  {
    var j' :| 0 <= j' < |s| - 1 && s[1..][j'] == x;
    assert s[j' + 1] == x;
    assert Below(s[0], x);
    assert x in s;
    assert x in t;
    var i :| 0 <= i < |t| && t[i] == x;
    assert i != 0;
    assert t[1..][i - 1] == x;
  }

  /** Two increasing sequences with the same elements are the same: `collate` does not depend
      on the order in which the dictionary hands out its roots. */
  lemma {:induction false} IncreasingUnique(s: seq<Pole>, t: seq<Pole>)
    requires Increasing(s) && Increasing(t)
    requires forall x :: x in s <==> x in t
    ensures s == t
  {
    assert s == [] <==> t == [] by {
      if s != [] {
        assert s[0] in t;
      }
      if t != [] {
        assert t[0] in s;
      }
    }
    if s != [] {
      assert s[0] == t[0] by {
        LeastFirst(s, t[0]);
        LeastFirst(t, s[0]);
        BelowAsymmetric(s[0], t[0]);
      }
      forall x
        ensures x in s[1..] <==> x in t[1..]
      {
        if x in s[1..] {
          InTail(s, t, x);
        }
        if x in t[1..] {
          InTail(t, s, x);
        }
      }
      IncreasingUnique(s[1..], t[1..]);
      assert s == [s[0]] + s[1..] && t == [t[0]] + t[1..];
    }
  }

  /** `collate(clusters)`: lists `(root, k)` for every root and every `k` from 1 up to its
      multiplicity, then sorts the list. */
  method Collate(clusters: map<Complex, nat>) returns (r: seq<Pole>)
    ensures Increasing(r)
    ensures forall x :: x in r <==> Expands(clusters, x)
  {
    var collection: seq<Pole> := [];
    var todo := clusters.Keys;
    while todo != {}
      invariant todo <= clusters.Keys
      invariant Distinct(collection)
      invariant forall x :: x in collection <==> Expands(clusters, x) && x.0 !in todo
      decreases |todo|
    {
      var root :| root in todo;
      for k := 1 to clusters[root] + 1
        invariant Distinct(collection)
        invariant forall x :: x in collection <==>
          (Expands(clusters, x) && x.0 !in todo) || (x.0 == root && 1 <= x.1 < k)
      {
        collection := collection + [(root, k)];
      }
      todo := todo - {root};
    }
    r := Sort(collection);
    forall x
      ensures x in r <==> x in collection
    {
      assert x in r <==> x in multiset(r);
    }
  }

  // ---------------------------------------------------------------------------
  // What `exact` counts

  /** `a|a`: two alternatives, each the single token `a`. */
  function AmbiguousTree(): Regex {
    Alt([Cat([Tok('a')]), Cat([Tok('a')])])
  }

  /** The text `a|a` parses to the tree with two equal alternatives. */
  lemma AmbiguousParse()
    ensures TreeOf(Text("a|a")) == Ok(AmbiguousTree())
  {
    var t := AmbiguousTree();
    assert Parser.IsCatShape(t.alts[0]) && Parser.IsCatShape(t.alts[1]);
    assert Parser.ShowTail([t.alts[1]]) == "|a";
    assert Parser.Show(t) == "a|a";
    Parser.ParseShow(t);
  }

  /** The language of `a|a` is the one word `a`. */
  lemma AmbiguousLanguage(w: string)
    ensures Matches(AmbiguousTree(), w) <==> w == "a"
  {
    var t := AmbiguousTree();
    Language.CatSingle(Tok('a'), w);
    if w == "a" {
      assert Matches(t.alts[0], w);
    }
  }

  /** `transfer` and `rationalize` give `a|a` the fraction `2z / 1`: each alternative adds
      its own `z`. */
  lemma AmbiguousFraction()
    ensures Rationalize(Transfer.Transfer(AmbiguousTree(), None)) == (map[1 := 2.0], map[0 := 1.0])
  {
    var t := AmbiguousTree();
    assert Transfer.Transfer(t.alts[0], None) == Z;
    assert Transfer.Transfer(t, None) == Plus(Z, Z);
    var one, z, two := map[0 := 1.0], map[1 := 1.0], map[1 := 2.0];
    assert Monomial(0, 1.0) == one;
    ProductComm(z, one);
    ProductOne(z);
    ProductOne(one);
    Extensionality(Processed(z), z);
    Extensionality(Processed(one), one);
    assert DownR(Plus(Z, Z)) == (Sum(z, z), one);
    Extensionality(Sum(z, z), two);
    Extensionality(Processed(two), two);
    Extensionality(Processed(one), one);
  }

  /** `division(2z, 1)`: the quotient is `2z` and nothing remains. */
  lemma AmbiguousDivision()
    ensures Division(map[1 := 2.0], map[0 := 1.0]).Ok?
    ensures IsZero(Division(map[1 := 2.0], map[0 := 1.0]).value.1.0)
    ensures Coef(Division(map[1 := 2.0], map[0 := 1.0]).value.0, 1) == 2.0
  {
    var p, q := map[1 := 2.0], map[0 := 1.0];
    assert q[0] != 0.0;
    var d := Division(p, q).value;
    assert Degree(q) == 0;
    DivisionIdentity(p, q);
    assert Coef(d.1.0, 1) == 0.0;
    ProductComm(d.0, q);
    ProductOne(d.0);
    assert Monomial(0, 1.0) == q;
    assert Conv(d.0, q, 1) == Coef(Product(d.0, q), 1);
  }

  /** `simplify(2z, 1)` leaves nothing over `1`: the whole of `2z` is the overflow. */
  lemma AmbiguousSimplify()
    ensures Simplify(map[1 := 2.0], map[0 := 1.0]).Ok?
    ensures IsZero(Simplify(map[1 := 2.0], map[0 := 1.0]).value.1.0)
    ensures Coef(Simplify(map[1 := 2.0], map[0 := 1.0]).value.0, 1) == 2.0
  {
    var p, q := map[1 := 2.0], map[0 := 1.0];
    assert q[0] != 0.0;
    AmbiguousDivision();
    SimplifyParts(p, q);
  }

  /** `exact` counts derivations, not words: `a|a` has one word of length 1, but
      `exact("a|a", 1)` is 2, because `transfer` adds up the alternatives without removing
      the repeated one. */
  lemma ExactCountsDerivations()
    ensures forall w :: |w| == 1 ==> (Matches(AmbiguousTree(), w) <==> w == "a")
    ensures ExactValue(Text("a|a"), 1, None, true) == Ok(2.0)
  {
    forall w | |w| == 1
      ensures Matches(AmbiguousTree(), w) <==> w == "a"
    {
      AmbiguousLanguage(w);
    }
    AmbiguousParse();
    AmbiguousFraction();
    AmbiguousSimplify();
  }
}
