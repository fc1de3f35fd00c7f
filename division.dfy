/** `leading_term`, long `division`, Euclid's `gcd` and `simplify` on the sparse polynomials
    of `Polynomial`. */
module Euclid {
  import opened Wrappers
  import opened Polynomial
  import opened PolyAlgebra
  import opened PolyEval

  // ---------------------------------------------------------------------------
  // Leading terms

  /** `leading_term(p)`: the largest exponent with a non-zero coefficient and that
      coefficient, or `(0, 0)` for the zero polynomial. */
  function LeadingTerm(p: Poly): (t: (nat, real))
    ensures IsZero(p) ==> t == (0, 0.0)
    ensures !IsZero(p) ==> t.0 in p && p[t.0] == t.1 && t.1 != 0.0
    ensures forall k :: k in p && p[k] != 0.0 ==> k <= t.0
  {
    var keys := Processed(p).Keys;
    if keys == {} then
      assert forall k :: k in p ==> p[k] == 0.0 by {
        forall k | k in p ensures p[k] == 0.0 {
          assert Coef(Processed(p), k) == p[k];
        }
      }
      (0, 0.0)
    else
      var key := MaxKey(keys);
      assert forall k :: k in p && p[k] != 0.0 ==> k in keys;
      (key, p[key])
  }

  /** The exponent of the leading term. */
  function Degree(p: Poly): nat {
    LeadingTerm(p).0
  }

  /** No coefficient past the degree is non-zero. */
  lemma PastDegree(p: Poly, k: nat)
    requires Degree(p) < k
    ensures Coef(p, k) == 0.0
  {
  }

  /** The measure long division and Euclid's algorithm decrease: one past the degree, and
      zero for the zero polynomial. */
  lemma BoundProcessed(p: Poly)
    ensures IsZero(p) ==> Bound(Processed(p)) == 0
    ensures !IsZero(p) ==> Bound(Processed(p)) == Degree(p) + 1
  {
    ProcessedSame(p);
  }

  /** A polynomial whose keys all lie below `d` has a measure of at most `d`. */
  lemma BoundBelow(p: Poly, d: nat)
    requires forall k :: k in p ==> k < d
    ensures Bound(Processed(p)) <= d
  {
  }

  // ---------------------------------------------------------------------------
  // Long division

  /** The term `(cp / cq) z^(dp - dq)` one step of `division` adds to the quotient. */
  function Lead(p: Poly, q: Poly): Poly
    requires !IsZero(q) && Degree(q) <= Degree(p)
  {
    Monomial(Degree(p) - Degree(q), Over(LeadingTerm(p).1, LeadingTerm(q).1))
  }

  /** `p - q * lead`, what one step of `division` leaves to divide. */
  function Rest(p: Poly, q: Poly): Poly
    requires !IsZero(q) && Degree(q) <= Degree(p)
  {
    Sum(p, Negation(Product(q, Lead(p, q))))
  }

  /** The coefficient of `z^k` in `Rest`: that of `p` less `c` times that of `q` at
      `k - d`, for the exponent `d` and coefficient `c` of `Lead`. */
  lemma RestCoef(p: Poly, q: Poly, k: nat)
    requires !IsZero(q) && Degree(q) <= Degree(p) <= k
    ensures Coef(Rest(p, q), k)
            == Coef(p, k) - Times(Over(LeadingTerm(p).1, LeadingTerm(q).1), Coef(q, k - (Degree(p) - Degree(q))))
  {
    var lead := Lead(p, q);
    assert Coef(Rest(p, q), k) == Coef(p, k) - Conv(q, lead, k);
    ConvComm(q, lead, k);
    ConvMonomial(Degree(p) - Degree(q), Over(LeadingTerm(p).1, LeadingTerm(q).1), q, k);
  }

  /** The step cancels the leading term of `p`. */
  lemma RestVanishesAtDegree(p: Poly, q: Poly)
    requires !IsZero(p) && !IsZero(q) && Degree(q) <= Degree(p)
    ensures Coef(Rest(p, q), Degree(p)) == 0.0
  {
    var cp, cq := LeadingTerm(p).1, LeadingTerm(q).1;
    RestCoef(p, q, Degree(p));
    assert Degree(p) - (Degree(p) - Degree(q)) == Degree(q);
    assert Coef(p, Degree(p)) == cp && Coef(q, Degree(q)) == cq;
    Cancel(cp, cq);
  }

  /** The step adds nothing above the degree of `p`. */
  lemma RestVanishesAbove(p: Poly, q: Poly, k: nat)
    requires !IsZero(q) && Degree(q) <= Degree(p) < k
    ensures Coef(Rest(p, q), k) == 0.0
  {
    var c := Over(LeadingTerm(p).1, LeadingTerm(q).1);
    var j := k - (Degree(p) - Degree(q));
    assert Coef(Rest(p, q), k) == Coef(p, k) - Times(c, Coef(q, j)) by {
      RestCoef(p, q, k);
    }
    assert Coef(p, k) == 0.0 by {
      PastDegree(p, k);
    }
    assert Coef(q, j) == 0.0 by {
      PastDegree(q, j);
    }
    TimesZero(c);
  }

  /** One step of `division` lowers the degree: every key of `Rest` lies below that of `p`. */
  lemma RestSmaller(p: Poly, q: Poly)
    requires !IsZero(p) && !IsZero(q) && Degree(q) <= Degree(p)
    ensures forall k :: k in Rest(p, q) ==> k < Degree(p)
    ensures Bound(Processed(Rest(p, q))) < Bound(Processed(p))
  {
    forall k: nat | Degree(p) <= k
      ensures k !in Rest(p, q)
    {
      if k == Degree(p) {
        RestVanishesAtDegree(p, q);
      } else {
        RestVanishesAbove(p, q, k);
      }
    }
    BoundBelow(Rest(p, q), Degree(p));
    BoundProcessed(p);
  }

  /** `division(p, q)`: the quotient, and as the second component the pair the recursion
      bottoms out with: `({}, {0: 1})` when what is left is zero, and otherwise what is left
      together with `q`. Dividing a non-zero polynomial by zero divides its leading
      coefficient by zero. */
  function Division(p: Poly, q: Poly): (r: Result<(Poly, (Poly, Poly))>)
    ensures r.Err? <==> !IsZero(p) && IsZero(q)
    ensures r.Err? ==> r.error == ZeroDivision
    ensures r.Ok? ==> IsProcessed(r.value.0)
    ensures r.Ok? ==> IsZero(r.value.1.0) || Degree(r.value.1.0) < Degree(q)
    ensures r.Ok? && IsZero(r.value.1.0) ==> r.value.1 == (map[], map[0 := 1.0])
    ensures r.Ok? && !IsZero(r.value.1.0) ==> r.value.1.1 == q
    ensures IsZero(p) ==> r == Ok((map[], (map[], map[0 := 1.0])))
    ensures !IsZero(p) && Degree(p) < Degree(q) ==> r == Ok((map[], (p, q)))
    decreases Bound(Processed(p))
  {
    var (dp, cp) := LeadingTerm(p);
    var (dq, cq) := LeadingTerm(q);
    if dp == 0 && cp == 0.0 then Ok((map[], (map[], map[0 := 1.0])))
    else if dp < dq then Ok((map[], (p, q)))
    else if cq == 0.0 then Err(ZeroDivision)
    else
      RestSmaller(p, q);
      match Division(Rest(p, q), q)
      case Err(e) => Err(e)
      case Ok((quotient, remainder)) => Ok((Sum(Lead(p, q), quotient), remainder))
  }

  /** The zero polynomial times anything is zero. */
  lemma ConvZeroLeft(a: Poly, b: Poly, k: nat)
    requires IsZero(a)
    ensures Conv(a, b, k) == 0.0
  {
    ConvIs(a, b, k);
    forall i: nat | i < k + 1
      ensures ConvTerm(a, b, k)(i) == 0.0
    {
      TimesZero(Coef(b, k - i));
    }
    SumBelowZero(ConvTerm(a, b, k), k + 1);
  }

  /** Long division is division with remainder: `p = quotient * q + remainder`. */
  lemma {:induction false} DivisionIdentity(p: Poly, q: Poly)
    requires Division(p, q).Ok?
    ensures forall k: nat :: Coef(p, k) == Conv(Division(p, q).value.0, q, k) + Coef(Division(p, q).value.1.0, k)
    decreases Bound(Processed(p))
  {
    var (dp, cp) := LeadingTerm(p);
    var (dq, cq) := LeadingTerm(q);
    var r := Division(p, q).value;
    if dp == 0 && cp == 0.0 {
      forall k: nat
        ensures Coef(p, k) == Conv(r.0, q, k) + Coef(r.1.0, k)
      {
        ConvZeroLeft(r.0, q, k);
      }
    } else if dp < dq {
      forall k: nat
        ensures Coef(p, k) == Conv(r.0, q, k) + Coef(r.1.0, k)
      {
        ConvZeroLeft(r.0, q, k);
      }
    } else {
      var lead := Lead(p, q);
      var rest := Rest(p, q);
      RestSmaller(p, q);
      DivisionIdentity(rest, q);
      var r' := Division(rest, q).value;
      assert r == (Sum(lead, r'.0), r'.1);
      forall k: nat
        ensures Coef(p, k) == Conv(r.0, q, k) + Coef(r.1.0, k)
      {
        ConvAddLeft(lead, r'.0, r.0, q, k);
        ConvComm(q, lead, k);
      }
    }
  }

  // ---------------------------------------------------------------------------
  // Divisibility and Euclid's algorithm

  /** `g` divides `p`: `p` has the coefficients of `g x` for some `x`. */
  ghost predicate Divides(g: Poly, p: Poly) {
    exists x: Poly :: IsConv(p, g, x)
  }

  /** A cofactor witnesses divisibility. */
  lemma DividesWitness(g: Poly, p: Poly, x: Poly)
    requires IsConv(p, g, x)
    ensures Divides(g, p)
  {
  }

  lemma DividesSelf(p: Poly)
    ensures Divides(p, p)
  {
    forall k: nat
      ensures Coef(p, k) == Conv(p, Monomial(0, 1.0), k)
    {
      ConvComm(p, Monomial(0, 1.0), k);
      ConvOne(p, k);
    }
    DividesWitness(p, p, Monomial(0, 1.0));
  }

  lemma DividesZero(g: Poly, p: Poly)
    requires IsZero(p)
    ensures Divides(g, p)
  {
    forall k: nat
      ensures Coef(p, k) == Conv(g, map[], k)
    {
      ConvComm(g, map[], k);
      ConvZeroLeft(map[], g, k);
    }
    DividesWitness(g, p, map[]);
  }

  /** Divisibility depends on coefficients only. */
  lemma DividesCongruence(g: Poly, p: Poly, p': Poly)
    requires Divides(g, p)
    requires forall k: nat :: Coef(p, k) == Coef(p', k)
    ensures Divides(g, p')
  {
    var x :| IsConv(p, g, x);
    DividesWitness(g, p', x);
  }

  /** `g (x quotient + y) = (g x) quotient + g y`. */
  lemma CombinationTerm(g: Poly, q: Poly, quotient: Poly, x: Poly, y: Poly, k: nat)
    requires IsConv(q, g, x)
    ensures Conv(g, Sum(Product(x, quotient), y), k) == Conv(quotient, q, k) + Conv(g, y, k)
  {
    ConvAddRight(g, Product(x, quotient), y, Sum(Product(x, quotient), y), k);
    ConvAssoc(g, x, quotient, q, Product(x, quotient), k);
    ConvComm(quotient, q, k);
  }

  /** If `g` divides `q` and `r`, it divides `p = quotient * q + r`. */
  lemma DividesCombination(g: Poly, p: Poly, q: Poly, quotient: Poly, r: Poly)
    requires Divides(g, q) && Divides(g, r)
    requires forall k: nat :: Coef(p, k) == Conv(quotient, q, k) + Coef(r, k)
    ensures Divides(g, p)
  {
    var x :| IsConv(q, g, x);
    var y :| IsConv(r, g, y);
    var w := Sum(Product(x, quotient), y);
    forall k: nat
      ensures Coef(p, k) == Conv(g, w, k)
    {
      CombinationTerm(g, q, quotient, x, y, k);
    }
    DividesWitness(g, p, w);
  }

  /** `-1 * x`, coefficient by coefficient, is the negation. */
  lemma ConvNegateRight(a: Poly, x: Poly, k: nat)
    ensures Conv(a, Negation(x), k) == -Conv(a, x, k)
  {
    forall i: nat
      ensures Coef(Negation(x), i) == Times(-1.0, Coef(x, i))
    {
      MinusOne(Coef(x, i));
    }
    ConvScaleRight(a, x, Negation(x), -1.0, k);
    MinusOne(Conv(a, x, k));
  }

  /** If `d` divides `p` and `q`, it divides `r = p - quotient * q`. */
  lemma DividesDifference(d: Poly, p: Poly, q: Poly, quotient: Poly, r: Poly)
    requires Divides(d, p) && Divides(d, q)
    requires forall k: nat :: Coef(p, k) == Conv(quotient, q, k) + Coef(r, k)
    ensures Divides(d, r)
  {
    var x :| IsConv(p, d, x);
    var y :| IsConv(q, d, y);
    var yq := Product(y, quotient);
    var w := Sum(x, Negation(yq));
    forall k: nat
      ensures Coef(r, k) == Conv(d, w, k)
    {
      ConvAddRight(d, x, Negation(yq), w, k);
      ConvNegateRight(d, yq, k);
      ConvAssoc(d, y, quotient, q, yq, k);
      ConvComm(quotient, q, k);
    }
    DividesWitness(d, r, w);
  }

  lemma ProcessedSame(p: Poly)
    ensures forall k: nat :: Coef(Processed(p), k) == Coef(p, k)
    ensures IsZero(p) <==> Processed(p) == map[]
  {
    ProcessedZero(Processed(p));
    if Processed(p) == map[] {
      forall k | k in p ensures p[k] == 0.0 {
        assert Coef(Processed(p), k) == p[k];
      }
    } else {
      var k :| k in Processed(p);
      assert Coef(p, k) != 0.0;
    }
  }

  /** Degree depends on coefficients only. */
  lemma DegreeSame(p: Poly, p': Poly)
    requires forall k: nat :: Coef(p, k) == Coef(p', k)
    ensures Degree(p) == Degree(p') && (IsZero(p) <==> IsZero(p'))
  {
    assert IsZero(p) <==> IsZero(p') by {
      if !IsZero(p) {
        var k :| k in p && p[k] != 0.0;
        assert Coef(p', k) != 0.0;
      }
      if !IsZero(p') {
        var k :| k in p' && p'[k] != 0.0;
        assert Coef(p, k) != 0.0;
      }
    }
    if !IsZero(p) {
      assert Coef(p', Degree(p)) != 0.0;
      assert Coef(p, Degree(p')) != 0.0;
    }
  }

  /** Euclid's algorithm only goes on with a remainder of lower measure. */
  lemma RemainderSmaller(p: Poly, q: Poly)
    requires q != map[] && IsProcessed(q)
    ensures Division(p, q).Ok?
    ensures Bound(Processed(Division(p, q).value.1.0)) < Bound(Processed(q))
  {
    ProcessedZero(q);
    var rem := Division(p, q).value.1.0;
    BoundProcessed(rem);
    BoundProcessed(q);
  }

  /** `gcd(p, q)`: Euclid's algorithm on the processed arguments. */
  function Gcd(p: Poly, q: Poly): (g: Poly)
    ensures IsProcessed(g)
    ensures IsZero(q) ==> g == Processed(p)
    decreases Bound(Processed(q))
  {
    var p', q' := Processed(p), Processed(q);
    if q' == map[] then p'
    else
      RemainderSmaller(p', q');
      ProcessedTwice(q);
      Gcd(q', Division(p', q').value.1.0)
  }

  lemma ProcessedTwice(p: Poly)
    ensures Processed(Processed(p)) == Processed(p)
  {
    Extensionality(Processed(Processed(p)), Processed(p));
  }

  /** The result of `gcd` divides both arguments. */
  lemma {:induction false} GcdDivides(p: Poly, q: Poly)
    ensures Divides(Gcd(p, q), p) && Divides(Gcd(p, q), q)
    decreases Bound(Processed(q))
  {
    var p', q' := Processed(p), Processed(q);
    var g := Gcd(p, q);
    ProcessedSame(p);
    ProcessedSame(q);
    if q' == map[] {
      DividesSelf(p');
      DividesCongruence(g, p', p);
      DividesZero(g, q);
    } else {
      RemainderSmaller(p', q');
      ProcessedTwice(q);
      var d := Division(p', q').value;
      GcdDivides(q', d.1.0);
      assert g == Gcd(q', d.1.0);
      DivisionIdentity(p', q');
      DividesCombination(g, p', q', d.0, d.1.0);
      DividesCongruence(g, p', p);
      DividesCongruence(g, q', q);
    }
  }

  /** Every common divisor of the arguments divides the result of `gcd`. */
  lemma {:induction false} GcdGreatest(e: Poly, p: Poly, q: Poly)
    requires Divides(e, p) && Divides(e, q)
    ensures Divides(e, Gcd(p, q))
    decreases Bound(Processed(q))
  {
    var p', q' := Processed(p), Processed(q);
    ProcessedSame(p);
    ProcessedSame(q);
    DividesCongruence(e, p, p');
    DividesCongruence(e, q, q');
    if q' != map[] {
      RemainderSmaller(p', q');
      ProcessedTwice(q);
      var d := Division(p', q').value;
      DivisionIdentity(p', q');
      DividesDifference(e, p', q', d.0, d.1.0);
      GcdGreatest(e, q', d.1.0);
    }
  }

  // ---------------------------------------------------------------------------
  // Exact division

  /** The top coefficient of a product is the product of the top coefficients. */
  lemma TopCoefficient(g: Poly, w: Poly)
    requires !IsZero(g) && !IsZero(w)
    ensures Conv(g, w, Degree(g) + Degree(w)) != 0.0
  {
    ConvIs(g, w, Degree(g) + Degree(w));
    var dg, dw := Degree(g), Degree(w);
    var k := dg + dw;
    forall i: nat | i < k + 1 && i != dg
      ensures ConvTerm(g, w, k)(i) == 0.0
    {
      if i < dg {
        PastDegree(w, k - i);
        TimesZero(Coef(g, i));
      } else {
        PastDegree(g, i);
        TimesZero(Coef(w, k - i));
      }
    }
    SumBelowPoint(ConvTerm(g, w, k), dg, k + 1);
    TimesNonZero(Coef(g, dg), Coef(w, dw));
  }

  /** A non-zero multiple of `g` has at least the degree of `g`. */
  lemma DegreeOfMultiple(g: Poly, w: Poly, r: Poly)
    requires IsConv(r, g, w) && !IsZero(r) && !IsZero(g)
    ensures Degree(g) <= Degree(r)
  {
    if IsZero(w) {
      var k :| k in r && r[k] != 0.0;
      ConvComm(g, w, k);
      ConvZeroLeft(w, g, k);
      assert false;
    }
    TopCoefficient(g, w);
    assert Coef(r, Degree(g) + Degree(w)) != 0.0;
  }

  /** Dividing a multiple of `g` by `g` leaves the empty remainder. */
  lemma ExactDivision(a: Poly, g: Poly)
    requires Divides(g, a)
    ensures Division(a, g).Ok? && Division(a, g).value.1.0 == map[]
  {
    var x :| IsConv(a, g, x);
    if IsZero(g) {
      forall k: nat
        ensures Coef(a, k) == 0.0
      {
        ConvZeroLeft(g, x, k);
      }
      assert IsZero(a) by {
        forall k | k in a ensures a[k] == 0.0 {
          assert Coef(a, k) == a[k];
        }
      }
    } else {
      var d := Division(a, g).value;
      DivisionIdentity(a, g);
      DividesSelf(g);
      DividesDifference(g, a, g, d.0, d.1.0);
      if !IsZero(d.1.0) {
        var w :| IsConv(d.1.0, g, w);
        DegreeOfMultiple(g, w, d.1.0);
        assert false;
      }
    }
  }

  // ---------------------------------------------------------------------------
  // Simplification

  /** `simplify(p, q)`: `p / q` as `overflow + top / bottom`, where `overflow` is the
      quotient of `p` by `q`, and `top` and `bottom` are the remainder and `q` divided by
      their `gcd`. Either of the two assertions that those divisions are exact fails the
      call. */
  function Simplify(p: Poly, q: Poly): (r: Result<(Poly, (Poly, Poly))>)
    ensures r.Err? <==> !IsZero(p) && IsZero(q)
    ensures r.Err? ==> r.error == ZeroDivision
  {
    match Division(p, q)
    case Err(e) => Err(e)
    case Ok((quotient, (remainder, _))) =>
      var g := Gcd(remainder, q);
      GcdDivides(remainder, q);
      ExactDivision(remainder, g);
      ExactDivision(q, g);
      match (Division(remainder, g), Division(q, g))
      case (Err(e), _) => Err(e)
      case (_, Err(e)) => Err(e)
      case (Ok((top, (rt, _))), Ok((bottom, (rb, _)))) =>
        if rt != map[] || rb != map[] then Err(AssertionFailed)
        else Ok((quotient, (top, bottom)))
  }

  /** The three steps from `p bottom` to `(overflow bottom + top) q`. */
  lemma FractionLeft(p: Poly, q: Poly, overflow: Poly, rem: Poly, bottom: Poly, k: nat)
    requires forall i: nat :: Coef(p, i) == Conv(overflow, q, i) + Coef(rem, i)
    ensures Conv(p, bottom, k) == Conv(Product(overflow, q), bottom, k) + Conv(rem, bottom, k)
  {
    var s := Sum(Product(overflow, q), rem);
    ConvCongruence(p, s, bottom, bottom, k);
    ConvAddLeft(Product(overflow, q), rem, s, bottom, k);
  }

  lemma FractionOverflow(q: Poly, overflow: Poly, bottom: Poly, k: nat)
    ensures Conv(Product(overflow, q), bottom, k) == Conv(Product(overflow, bottom), q, k)
  {
    ConvAssoc(overflow, q, bottom, Product(overflow, q), Product(q, bottom), k);
    ProductComm(q, bottom);
    ConvAssoc(overflow, bottom, q, Product(overflow, bottom), Product(bottom, q), k);
  }

  lemma FractionTop(q: Poly, rem: Poly, top: Poly, bottom: Poly, g: Poly, k: nat)
    requires IsConv(rem, top, g) && IsConv(q, bottom, g)
    ensures Conv(rem, bottom, k) == Conv(top, q, k)
  {
    ConvCongruence(rem, Product(top, g), bottom, bottom, k);
    ConvAssoc(top, g, bottom, Product(top, g), Product(g, bottom), k);
    forall j: nat
      ensures Coef(Product(g, bottom), j) == Coef(q, j)
    {
      ConvComm(g, bottom, j);
    }
    ConvCongruence(top, top, Product(g, bottom), q, k);
  }

  /** From `p = overflow q + rem`, `rem = top g` and `q = bottom g`:
      `p bottom = (overflow bottom + top) q`, that is `p / q = overflow + top / bottom`. */
  lemma FractionIdentity(p: Poly, q: Poly, overflow: Poly, rem: Poly, top: Poly, bottom: Poly, g: Poly)
    requires forall i: nat :: Coef(p, i) == Conv(overflow, q, i) + Coef(rem, i)
    requires IsConv(rem, top, g) && IsConv(q, bottom, g)
    ensures forall k: nat :: Conv(p, bottom, k) == Conv(Sum(Product(overflow, bottom), top), q, k)
  {
    forall k: nat
      ensures Conv(p, bottom, k) == Conv(Sum(Product(overflow, bottom), top), q, k)
    {
      FractionLeft(p, q, overflow, rem, bottom, k);
      FractionOverflow(q, overflow, bottom, k);
      FractionTop(q, rem, top, bottom, g, k);
      ConvAddLeft(Product(overflow, bottom), top, Sum(Product(overflow, bottom), top), q, k);
    }
  }

  /** Dividing a multiple of `g` by `g` gives the cofactor. */
  lemma ExactQuotient(a: Poly, g: Poly)
    requires Divides(g, a)
    ensures Division(a, g).Ok? && IsConv(a, Division(a, g).value.0, g)
  {
    ExactDivision(a, g);
    DivisionIdentity(a, g);
  }

  /** A non-zero polynomial has only non-zero factors. */
  lemma FactorNonZero(q: Poly, bottom: Poly, g: Poly)
    requires IsConv(q, bottom, g) && !IsZero(q)
    ensures !IsZero(bottom)
  {
    if IsZero(bottom) {
      var k :| k in q && q[k] != 0.0;
      ConvZeroLeft(bottom, g, k);
      assert false;
    }
  }

  /** The parts of a successful `simplify`: the quotient of `p` by `q`, and the remainder and
      `q` divided exactly by their `gcd`. */
  lemma SimplifyParts(p: Poly, q: Poly)
    requires Simplify(p, q).Ok?
    ensures Division(p, q).Ok?
    ensures var rem := Division(p, q).value.1.0;
      && Division(rem, Gcd(rem, q)).Ok? && Division(q, Gcd(rem, q)).Ok?
      && IsConv(rem, Division(rem, Gcd(rem, q)).value.0, Gcd(rem, q))
      && IsConv(q, Division(q, Gcd(rem, q)).value.0, Gcd(rem, q))
      && Simplify(p, q).value
         == (Division(p, q).value.0, (Division(rem, Gcd(rem, q)).value.0, Division(q, Gcd(rem, q)).value.0))
  {
    var rem := Division(p, q).value.1.0;
    GcdDivides(rem, q);
    ExactQuotient(rem, Gcd(rem, q));
    ExactQuotient(q, Gcd(rem, q));
  }

  /** What `simplify` promises: `p / q = overflow + top / bottom` with cross-multiplied
      coefficients, and a non-zero `q` leaves a non-zero `bottom`. */
  lemma SimplifyMeaning(p: Poly, q: Poly)
    requires Simplify(p, q).Ok?
    ensures var (overflow, (top, bottom)) := Simplify(p, q).value;
      && (forall k: nat :: Conv(p, bottom, k) == Conv(Sum(Product(overflow, bottom), top), q, k))
      && (!IsZero(q) ==> !IsZero(bottom))
  {
    SimplifyParts(p, q);
    var d := Division(p, q).value;
    var rem := d.1.0;
    var g := Gcd(rem, q);
    var top, bottom := Division(rem, g).value.0, Division(q, g).value.0;
    DivisionIdentity(p, q);
    FractionIdentity(p, q, d.0, rem, top, bottom, g);
    if !IsZero(q) {
      FactorNonZero(q, bottom, g);
    }
  }
}
