/** `transfer`, `down_p` and `rationalize`: from a regular expression to a tree of rational
    operations on the variable `z`, and from that tree to a numerator and a denominator
    polynomial. */
module Transfer {
  import opened Wrappers
  import opened Regex
  import opened Polynomial
  import opened PolyAlgebra
  import opened PolyEval

  // ---------------------------------------------------------------------------
  // The rational-function tree and its value

  /** `('var', 'z')`, `('num', k)`, `('-', e)`, `('+', [l, r])`, `('*', [l, r])` and
      `('/', (l, r))`. */
  datatype Expr =
    | Z
    | Const(c: real)
    | Minus(e: Expr)
    | Plus(l: Expr, r: Expr)
    | Prod(l: Expr, r: Expr)
    | Quot(l: Expr, r: Expr)

  function AddOpt(x: Option<real>, y: Option<real>): Option<real> {
    if x.Some? && y.Some? then Some(x.value + y.value) else None
  }

  function MulOpt(x: Option<real>, y: Option<real>): Option<real> {
    if x.Some? && y.Some? then Some(Times(x.value, y.value)) else None
  }

  /** The value of the tree at the point `z`, or `None` where it divides by zero. */
  function Value(e: Expr, z: real): Option<real> {
    match e
    case Z => Some(z)
    case Const(c) => Some(c)
    case Minus(x) => if Value(x, z).Some? then Some(-Value(x, z).value) else None
    case Plus(l, r) => AddOpt(Value(l, z), Value(r, z))
    case Prod(l, r) => MulOpt(Value(l, z), Value(r, z))
    case Quot(l, r) =>
      if Value(l, z).Some? && Value(r, z).Some? && Value(r, z).value != 0.0
      then Some(Over(Value(l, z).value, Value(r, z).value))
      else None
  }

  // ---------------------------------------------------------------------------
  // transfer

  /** `not what or c in what`: with no filter, or an empty one, every token counts. */
  predicate Counted(c: char, what: Option<set<char>>) {
    what.None? || what.value == {} || c in what.value
  }

  /** `transfer(regex, what)`: alternation becomes `+` and concatenation `*`, both nested to
      the right; the empty alternation is `0` and the empty concatenation `1`; a counted
      token is `z` and any other token, like epsilon, is `1`; `e*` is `1 / (1 + -(e))`. */
  function Transfer(r: Regex, what: Option<set<char>>): Expr
    decreases Size(r)
  {
    match r
    case Alt(rs) =>
      if |rs| == 0 then Const(0.0)
      else
        assert SizeAll(rs) == Size(rs[0]) + SizeAll(rs[1..]);
        if |rs| == 1 then Transfer(rs[0], what)
        else if |rs| == 2 then
          assert SizeAll(rs[1..]) == Size(rs[1]) + SizeAll(rs[2..]);
          Plus(Transfer(rs[0], what), Transfer(rs[1], what))
        else Plus(Transfer(rs[0], what), Transfer(Alt(rs[1..]), what))
    case Cat(rs) =>
      if |rs| == 0 then Const(1.0)
      else
        assert SizeAll(rs) == Size(rs[0]) + SizeAll(rs[1..]);
        if |rs| == 1 then Transfer(rs[0], what)
        else if |rs| == 2 then
          assert SizeAll(rs[1..]) == Size(rs[1]) + SizeAll(rs[2..]);
          Prod(Transfer(rs[0], what), Transfer(rs[1], what))
        else Prod(Transfer(rs[0], what), Transfer(Cat(rs[1..]), what))
    case Tok(c) => if Counted(c, what) then Z else Const(1.0)
    case Eps => Const(1.0)
    case Star(b) => Quot(Const(1.0), Plus(Const(1.0), Minus(Transfer(b, what))))
  }

  /** The generating function of `r` read off its structure: a counted token weighs `z`,
      any other token and epsilon weigh `1`, an alternation is the sum of its alternatives,
      a concatenation the product of its parts, and `e*` is `1 / (1 - e)`, undefined where
      `e` weighs `1`. */
  function Weight(r: Regex, what: Option<set<char>>, z: real): Option<real>
    decreases Size(r), 0
  {
    match r
    case Eps => Some(1.0)
    case Tok(c) => Some(if Counted(c, what) then z else 1.0)
    case Alt(rs) => WeightSum(rs, what, z)
    case Cat(rs) => WeightProduct(rs, what, z)
    case Star(b) =>
      if Weight(b, what, z).Some? && Weight(b, what, z).value != 1.0
      then Some(Over(1.0, 1.0 - Weight(b, what, z).value))
      else None
  }

  function WeightSum(rs: seq<Regex>, what: Option<set<char>>, z: real): Option<real>
    decreases SizeAll(rs), 1
  {
    if rs == [] then Some(0.0)
    else
      assert SizeAll(rs) == Size(rs[0]) + SizeAll(rs[1..]);
      AddOpt(Weight(rs[0], what, z), WeightSum(rs[1..], what, z))
  }

  function WeightProduct(rs: seq<Regex>, what: Option<set<char>>, z: real): Option<real>
    decreases SizeAll(rs), 1
  {
    if rs == [] then Some(1.0)
    else
      assert SizeAll(rs) == Size(rs[0]) + SizeAll(rs[1..]);
      MulOpt(Weight(rs[0], what, z), WeightProduct(rs[1..], what, z))
  }

  /** The right-nested binary tree `transfer` builds has, at every point, the value of the
      generating function of the regular expression. */
  lemma {:induction false} TransferValue(r: Regex, what: Option<set<char>>, z: real)
    ensures Value(Transfer(r, what), z) == Weight(r, what, z)
    decreases Size(r)
  {
    match r
    case Eps =>
    case Tok(_) =>
    case Star(b) =>
      var t := Transfer(b, what);
      TransferValue(b, what, z);
      var s := Plus(Const(1.0), Minus(t));
      if Value(t, z).Some? {
        var v := Value(t, z).value;
        assert Value(Minus(t), z) == Some(-v);
        assert Value(s, z) == Some(1.0 - v);
      } else {
        assert Value(Minus(t), z) == None;
        assert Value(s, z) == None;
      }
    case Alt(rs) =>
      if |rs| > 0 {
        assert SizeAll(rs) == Size(rs[0]) + SizeAll(rs[1..]);
        TransferValue(rs[0], what, z);
        assert WeightSum(rs, what, z) == AddOpt(Weight(rs[0], what, z), WeightSum(rs[1..], what, z));
        if |rs| == 1 {
          assert rs[1..] == [];
        } else if |rs| == 2 {
          assert SizeAll(rs[1..]) == Size(rs[1]) + SizeAll(rs[2..]);
          TransferValue(rs[1], what, z);
          assert rs[1..][1..] == [];
          assert WeightSum(rs[1..], what, z) == AddOpt(Weight(rs[1], what, z), Some(0.0));
        } else {
          TransferValue(Alt(rs[1..]), what, z);
        }
      }
    case Cat(rs) =>
      if |rs| > 0 {
        assert SizeAll(rs) == Size(rs[0]) + SizeAll(rs[1..]);
        TransferValue(rs[0], what, z);
        assert WeightProduct(rs, what, z) == MulOpt(Weight(rs[0], what, z), WeightProduct(rs[1..], what, z));
        if |rs| == 1 {
          assert rs[1..] == [];
          if Weight(rs[0], what, z).Some? {
            TimesOne(Weight(rs[0], what, z).value);
          }
        } else if |rs| == 2 {
          assert SizeAll(rs[1..]) == Size(rs[1]) + SizeAll(rs[2..]);
          TransferValue(rs[1], what, z);
          assert rs[1..][1..] == [];
          assert WeightProduct(rs[1..], what, z) == MulOpt(Weight(rs[1], what, z), Some(1.0));
          if Weight(rs[1], what, z).Some? {
            TimesOne(Weight(rs[1], what, z).value);
          }
        } else {
          TransferValue(Cat(rs[1..]), what, z);
        }
      }
  }

  // ---------------------------------------------------------------------------
  // down_p

  /** The polynomial expressions `down_p` evaluates: `('v', d)`, `('+', [l, r])`,
      `('*', [l, r])`, and `('-', ('v', d))`, whose operand is a stored polynomial. */
  datatype PExpr =
    | V(p: Poly)
    | PAdd(l: PExpr, r: PExpr)
    | PMul(l: PExpr, r: PExpr)
    | PNeg(p: Poly)

  /** `down_p(ast)`: a stored polynomial as it is; sums, products and negations through
      `add`, `mul` and `neg`. */
  function DownP(e: PExpr): Poly {
    match e
    case V(p) => p
    case PAdd(l, r) => Sum(DownP(l), DownP(r))
    case PMul(l, r) => Product(DownP(l), DownP(r))
    case PNeg(p) => Negation(p)
  }

  /** The value of a polynomial expression at `z`. */
  function PValue(e: PExpr, z: real): real {
    match e
    case V(p) => Eval(p, z)
    case PAdd(l, r) => PValue(l, z) + PValue(r, z)
    case PMul(l, r) => Times(PValue(l, z), PValue(r, z))
    case PNeg(p) => -Eval(p, z)
  }

  /** `down_p` computes the polynomial whose value is that of the expression. */
  lemma {:induction false} DownPValue(e: PExpr, z: real)
    ensures Eval(DownP(e), z) == PValue(e, z)
  {
    match e
    case V(_) =>
    case PAdd(l, r) =>
      DownPValue(l, z);
      DownPValue(r, z);
      EvalSum(DownP(l), DownP(r), z);
    case PMul(l, r) =>
      DownPValue(l, z);
      DownPValue(r, z);
      EvalProduct(DownP(l), DownP(r), z);
    case PNeg(p) =>
      EvalNegation(p, z);
  }

  // ---------------------------------------------------------------------------
  // rationalize

  /** `down_r(ast)`: `z` is `z / 1`, a number `k` is `k / 1`, and the fraction rules
      `-(n/d) = (-n)/d`, `n1/d1 + n2/d2 = (n1 d2 + n2 d1)/(d1 d2)`,
      `(n1/d1)(n2/d2) = (n1 n2)/(d1 d2)` and `(n1/d1)/(n2/d2) = (n1 d2)/(d1 n2)`. The program
      builds each side as a `down_p` expression; `DownRIsDownP` shows these are the
      polynomials written here. */
  function DownR(e: Expr): (Poly, Poly) {
    match e
    case Z => (map[1 := 1.0], map[0 := 1.0])
    case Const(c) => (map[0 := c], map[0 := 1.0])
    case Minus(x) => (Negation(DownR(x).0), DownR(x).1)
    case Plus(l, r) =>
      var f1, f2 := DownR(l), DownR(r);
      (Sum(Product(f1.0, f2.1), Product(f2.0, f1.1)), Product(f1.1, f2.1))
    case Prod(l, r) =>
      var f1, f2 := DownR(l), DownR(r);
      (Product(f1.0, f2.0), Product(f1.1, f2.1))
    case Quot(l, r) =>
      var f1, f2 := DownR(l), DownR(r);
      (Product(f1.0, f2.1), Product(f1.1, f2.0))
  }

  /** The `down_p` expressions the program evaluates for each rule of `down_r`. */
  function DownRExprs(e: Expr): (PExpr, PExpr)
    requires !e.Z? && !e.Const?
  {
    match e
    case Minus(x) => (PNeg(DownR(x).0), V(DownR(x).1))
    case Plus(l, r) =>
      var f1, f2 := DownR(l), DownR(r);
      (PAdd(PMul(V(f1.0), V(f2.1)), PMul(V(f2.0), V(f1.1))), PMul(V(f1.1), V(f2.1)))
    case Prod(l, r) =>
      var f1, f2 := DownR(l), DownR(r);
      (PMul(V(f1.0), V(f2.0)), PMul(V(f1.1), V(f2.1)))
    case Quot(l, r) =>
      var f1, f2 := DownR(l), DownR(r);
      (PMul(V(f1.0), V(f2.1)), PMul(V(f1.1), V(f2.0)))
  }

  /** Each rule of `down_r` yields what `down_p` computes from the expression the program
      builds for it. */
  lemma DownRIsDownP(e: Expr)
    requires !e.Z? && !e.Const?
    ensures DownR(e).0 == DownP(DownRExprs(e).0)
    ensures DownR(e).1 == DownP(DownRExprs(e).1)
  {
    match e
    case Minus(x) =>
    case Plus(l, r) =>
      var n1, d1, n2, d2 := DownR(l).0, DownR(l).1, DownR(r).0, DownR(r).1;
      DownPProduct(n1, d2);
      DownPProduct(n2, d1);
      DownPProduct(d1, d2);
      assert DownP(DownRExprs(e).0) == Sum(Product(n1, d2), Product(n2, d1));
    case Prod(l, r) =>
      DownPProduct(DownR(l).0, DownR(r).0);
      DownPProduct(DownR(l).1, DownR(r).1);
    case Quot(l, r) =>
      DownPProduct(DownR(l).0, DownR(r).1);
      DownPProduct(DownR(l).1, DownR(r).0);
  }

  /** `down_p` of the product of two plain polynomials is their product. */
  lemma DownPProduct(a: Poly, b: Poly)
    ensures DownP(PMul(V(a), V(b))) == Product(a, b)
  {
  }

  /** `rationalize(ast)`: the numerator and denominator of `down_r`, processed. */
  function Rationalize(e: Expr): (Poly, Poly) {
    (Processed(DownR(e).0), Processed(DownR(e).1))
  }

  /** `n / d` represents the value `v`: `d` is not zero at `z` and `n = v d` there. */
  predicate Represents(n: Poly, d: Poly, v: real, z: real) {
    Eval(d, z) != 0.0 && Eval(n, z) == Times(v, Eval(d, z))
  }

  lemma PowOne(z: real)
    ensures Pow(z, 0) == 1.0 && Pow(z, 1) == z
  {
    TimesOne(z);
  }

  lemma ConstantValue(c: real, z: real)
    ensures Eval(map[0 := c], z) == c
  {
    EvalMonomial(0, c, z);
    PowOne(z);
    TimesOne(c);
  }

  lemma DownRVar(z: real)
    ensures Represents(map[1 := 1.0], map[0 := 1.0], z, z)
  {
    EvalMonomial(1, 1.0, z);
    PowOne(z);
    TimesOne(z);
    ConstantValue(1.0, z);
  }

  lemma DownRConst(c: real, z: real)
    ensures Represents(map[0 := c], map[0 := 1.0], c, z)
  {
    ConstantValue(c, z);
    ConstantValue(1.0, z);
    TimesOne(c);
  }

  lemma DownRMinus(n: Poly, d: Poly, v: real, z: real)
    requires Represents(n, d, v, z)
    ensures Represents(Negation(n), d, -v, z)
  {
    EvalNegation(n, z);
    TimesNeg(v, Eval(d, z));
  }

  /** The arithmetic behind `n1/d1 + n2/d2 = (n1 d2 + n2 d1)/(d1 d2)`. */
  lemma PlusArith(v1: real, D1: real, N1: real, v2: real, D2: real, N2: real)
    requires D1 != 0.0 && N1 == Times(v1, D1)
    requires D2 != 0.0 && N2 == Times(v2, D2)
    ensures Times(D1, D2) != 0.0
    ensures Times(N1, D2) + Times(N2, D1) == Times(v1 + v2, Times(D1, D2))
  {
    TimesNonZero(D1, D2);
    TimesAssoc(v1, D1, D2);
    TimesAssoc(v2, D2, D1);
    TimesComm(D2, D1);
    TimesAddLeft(v1, v2, Times(D1, D2));
  }

  lemma DownRPlus(n1: Poly, d1: Poly, v1: real, n2: Poly, d2: Poly, v2: real, z: real)
    requires Represents(n1, d1, v1, z) && Represents(n2, d2, v2, z)
    ensures Represents(Sum(Product(n1, d2), Product(n2, d1)), Product(d1, d2), v1 + v2, z)
  {
    var N1, D1, N2, D2 := Eval(n1, z), Eval(d1, z), Eval(n2, z), Eval(d2, z);
    assert Eval(Sum(Product(n1, d2), Product(n2, d1)), z) == Times(N1, D2) + Times(N2, D1) by {
      EvalSum(Product(n1, d2), Product(n2, d1), z);
      EvalProduct(n1, d2, z);
      EvalProduct(n2, d1, z);
    }
    assert Eval(Product(d1, d2), z) == Times(D1, D2) by {
      EvalProduct(d1, d2, z);
    }
    PlusArith(v1, D1, N1, v2, D2, N2);
  }

  /** The arithmetic behind `(n1/d1)(n2/d2) = (n1 n2)/(d1 d2)`. */
  lemma ProdArith(v1: real, D1: real, N1: real, v2: real, D2: real, N2: real)
    requires D1 != 0.0 && N1 == Times(v1, D1)
    requires D2 != 0.0 && N2 == Times(v2, D2)
    ensures Times(D1, D2) != 0.0
    ensures Times(N1, N2) == Times(Times(v1, v2), Times(D1, D2))
  {
    TimesNonZero(D1, D2);
    Regroup(v1, v2, D1, D2);
    TimesComm(D1, v1);
    TimesComm(D2, v2);
  }

  lemma DownRProd(n1: Poly, d1: Poly, v1: real, n2: Poly, d2: Poly, v2: real, z: real)
    requires Represents(n1, d1, v1, z) && Represents(n2, d2, v2, z)
    ensures Represents(Product(n1, n2), Product(d1, d2), Times(v1, v2), z)
  {
    EvalProduct(n1, n2, z);
    EvalProduct(d1, d2, z);
    ProdArith(v1, Eval(d1, z), Eval(n1, z), v2, Eval(d2, z), Eval(n2, z));
  }

  /** `(v1 d1) d2 = (v1 / v2) (d1 (v2 d2))` when `v2` is not zero. */
  lemma QuotRegroup(v1: real, v2: real, D1: real, D2: real)
    requires v2 != 0.0
    ensures Times(Times(v1, D1), D2) == Times(Over(v1, v2), Times(D1, Times(v2, D2)))
  {
    var w := Over(v1, v2);
    calc {
      Times(w, Times(D1, Times(v2, D2)));
      { TimesAssoc(D1, v2, D2); TimesComm(D1, v2); TimesAssoc(v2, D1, D2); }
      Times(w, Times(v2, Times(D1, D2)));
      { TimesAssoc(w, v2, Times(D1, D2)); }
      Times(Times(w, v2), Times(D1, D2));
      { Cancel(v1, v2); }
      Times(v1, Times(D1, D2));
      { TimesAssoc(v1, D1, D2); }
      Times(Times(v1, D1), D2);
    }
  }

  /** The arithmetic behind `(n1/d1)/(n2/d2) = (n1 d2)/(d1 n2)`. */
  lemma QuotArith(v1: real, D1: real, N1: real, v2: real, D2: real, N2: real)
    requires D1 != 0.0 && N1 == Times(v1, D1)
    requires D2 != 0.0 && N2 == Times(v2, D2) && v2 != 0.0
    ensures Times(D1, N2) != 0.0
    ensures Times(N1, D2) == Times(Over(v1, v2), Times(D1, N2))
  {
    TimesNonZero(v2, D2);
    TimesNonZero(D1, Times(v2, D2));
    QuotRegroup(v1, v2, D1, D2);
  }

  lemma DownRQuot(n1: Poly, d1: Poly, v1: real, n2: Poly, d2: Poly, v2: real, z: real)
    requires Represents(n1, d1, v1, z) && Represents(n2, d2, v2, z) && v2 != 0.0
    ensures Represents(Product(n1, d2), Product(d1, n2), Over(v1, v2), z)
  {
    EvalProduct(n1, d2, z);
    EvalProduct(d1, n2, z);
    QuotArith(v1, Eval(d1, z), Eval(n1, z), v2, Eval(d2, z), Eval(n2, z));
  }

  /** Wherever the tree has a value, `down_r` gives a fraction with that value. */
  lemma {:induction false} DownRValue(e: Expr, z: real)
    requires Value(e, z).Some?
    ensures Represents(DownR(e).0, DownR(e).1, Value(e, z).value, z)
    decreases e, 1
  {
    match e
    case Z => DownRVar(z);
    case Const(c) => DownRConst(c, z);
    case Minus(x) =>
      DownRValue(x, z);
      DownRMinus(DownR(x).0, DownR(x).1, Value(x, z).value, z);
    case Plus(l, r) => DownRValuePlus(l, r, z);
    case Prod(l, r) => DownRValueProd(l, r, z);
    case Quot(l, r) => DownRValueQuot(l, r, z);
  }

  lemma {:induction false} DownRValuePlus(l: Expr, r: Expr, z: real)
    requires Value(Plus(l, r), z).Some?
    ensures Represents(DownR(Plus(l, r)).0, DownR(Plus(l, r)).1, Value(Plus(l, r), z).value, z)
    decreases Plus(l, r), 0
  {
    assert Value(l, z).Some? && Value(r, z).Some?;
    var v1, v2 := Value(l, z).value, Value(r, z).value;
    var n1, d1, n2, d2 := DownR(l).0, DownR(l).1, DownR(r).0, DownR(r).1;
    assert Value(Plus(l, r), z).value == v1 + v2;
    assert DownR(Plus(l, r)).0 == Sum(Product(n1, d2), Product(n2, d1));
    assert DownR(Plus(l, r)).1 == Product(d1, d2);
    DownRValue(l, z);
    DownRValue(r, z);
    DownRPlus(n1, d1, v1, n2, d2, v2, z);
  }

  lemma {:induction false} DownRValueProd(l: Expr, r: Expr, z: real)
    requires Value(Prod(l, r), z).Some?
    ensures Represents(DownR(Prod(l, r)).0, DownR(Prod(l, r)).1, Value(Prod(l, r), z).value, z)
    decreases Prod(l, r), 0
  {
    assert Value(l, z).Some? && Value(r, z).Some?;
    var v1, v2 := Value(l, z).value, Value(r, z).value;
    var n1, d1, n2, d2 := DownR(l).0, DownR(l).1, DownR(r).0, DownR(r).1;
    assert Value(Prod(l, r), z).value == Times(v1, v2);
    assert DownR(Prod(l, r)).0 == Product(n1, n2);
    assert DownR(Prod(l, r)).1 == Product(d1, d2);
    DownRValue(l, z);
    DownRValue(r, z);
    DownRProd(n1, d1, v1, n2, d2, v2, z);
  }

  lemma {:induction false} DownRValueQuot(l: Expr, r: Expr, z: real)
    requires Value(Quot(l, r), z).Some?
    ensures Represents(DownR(Quot(l, r)).0, DownR(Quot(l, r)).1, Value(Quot(l, r), z).value, z)
    decreases Quot(l, r), 0
  {
    assert Value(l, z).Some? && Value(r, z).Some? && Value(r, z).value != 0.0;
    var v1, v2 := Value(l, z).value, Value(r, z).value;
    var n1, d1, n2, d2 := DownR(l).0, DownR(l).1, DownR(r).0, DownR(r).1;
    assert Value(Quot(l, r), z).value == Over(v1, v2);
    assert DownR(Quot(l, r)).0 == Product(n1, d2);
    assert DownR(Quot(l, r)).1 == Product(d1, n2);
    DownRValue(l, z);
    DownRValue(r, z);
    DownRQuot(n1, d1, v1, n2, d2, v2, z);
  }

  /** `rationalize` returns processed polynomials whose quotient is the value of the tree
      wherever that value is defined. */
  lemma RationalizeValue(e: Expr, z: real)
    requires Value(e, z).Some?
    ensures IsProcessed(Rationalize(e).0) && IsProcessed(Rationalize(e).1)
    ensures Represents(Rationalize(e).0, Rationalize(e).1, Value(e, z).value, z)
  {
    DownRValue(e, z);
    EvalCongruence(DownR(e).0, Processed(DownR(e).0), z);
    EvalCongruence(DownR(e).1, Processed(DownR(e).1), z);
  }
}
