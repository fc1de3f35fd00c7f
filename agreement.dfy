/** `reduce` as the program writes it and the corrected `Reduce` give the same tree on the
    expressions Kleene's construction builds. Every star there has the body `R(k, k, k - 1)`,
    whose simplified form is epsilon, a concatenation, or an alternation with no starred
    branch; so the two star rules that change the language (`0*` to `0` and `e**` to `e`)
    never fire, and neither does either of them inside the re-simplification of `(% | e)*`. */
module Agreement {
  import opened Regex
  import opened Language
  import opened Reconstruct
  import opened Simplifier

  /** Trees both simplifiers leave as they are: alternations in the shape the `|` rule
      produces, concatenations of at least two parts with no epsilon and no empty
      language, and stars of those (or of a single-token alternation). */
  predicate Canon(y: Regex)
    decreases y
  {
    match y
    case Eps => true
    case Tok(_) => true
    case Alt(xs) =>
      || xs == []
      || (&& |xs| >= 2
          && (forall i :: 0 <= i < |xs| ==> Canon(xs[i]) && xs[i] != Zero)
          && (forall i :: 0 <= i < |xs| - 1 ==> !IsEps(xs[i]))
          && (IsEps(xs[|xs| - 1]) ==> xs[|xs| - 1] == Eps))
    case Cat(xs) =>
      && |xs| >= 2
      && forall i :: 0 <= i < |xs| ==> Canon(xs[i]) && xs[i] != Zero && !IsEps(xs[i])
    case Star(x) =>
      || (x.Alt? && |x.alts| == 1 && x.alts[0].Tok?)
      || (Canon(x) && (x.Cat? || (x.Alt? && |x.alts| >= 2 && !HasEps(x.alts))))
  }

  /** The shape of a simplified loop `R(k, k, m)`: epsilon, a concatenation, or an
      alternation of at least two branches, none starred, and none an alternation when one
      of them is epsilon. */
  predicate LoopShape(b: Regex) {
    || b == Eps
    || b.Cat?
    || (&& b.Alt? && |b.alts| >= 2
        && forall i :: 0 <= i < |b.alts| ==> !b.alts[i].Star? && (HasEps(b.alts) ==> !b.alts[i].Alt?))
  }

  lemma ReduceAllAsWrittenFixed(xs: seq<Regex>)
    requires forall i :: 0 <= i < |xs| ==> ReduceAsWritten(xs[i]) == xs[i]
    ensures ReduceAllAsWritten(xs) == xs
  {
    forall i | 0 <= i < |xs|
      ensures ReduceAllAsWritten(xs)[i] == xs[i]
    {
      ReduceAllAsWrittenAt(xs, i);
    }
  }

  /** Children on which the two simplifiers agree give lists on which they agree. */
  lemma ReduceAllAgree(xs: seq<Regex>)
    requires forall i :: 0 <= i < |xs| ==> ReduceAsWritten(xs[i]) == Reduce(xs[i])
    ensures ReduceAllAsWritten(xs) == ReduceAll(xs)
  {
    forall i | 0 <= i < |xs|
      ensures ReduceAllAsWritten(xs)[i] == ReduceAll(xs)[i]
    {
      ReduceAllAsWrittenAt(xs, i);
      ReduceAllAt(xs, i);
    }
  }

  /** The `|` rule is the same in both: agreement on the children is agreement on the whole. */
  lemma AltAgree(xs: seq<Regex>)
    requires forall i :: 0 <= i < |xs| ==> ReduceAsWritten(xs[i]) == Reduce(xs[i])
    ensures ReduceAsWritten(Alt(xs)) == Reduce(Alt(xs))
  {
    ReduceAllAgree(xs);
    assert !IsEps(Alt(xs));
  }

  /** So is the `.` rule. */
  lemma CatAgree(xs: seq<Regex>)
    requires forall i :: 0 <= i < |xs| ==> ReduceAsWritten(xs[i]) == Reduce(xs[i])
    ensures ReduceAsWritten(Cat(xs)) == Reduce(Cat(xs))
  {
    ReduceAllAgree(xs);
    assert Cat(xs) != Zero;
  }

  /** Both simplifiers leave a canonical tree unchanged. */
  lemma {:induction false} CanonFixed(y: Regex)
    requires Canon(y)
    ensures ReduceAsWritten(y) == y && Reduce(y) == y
    decreases y, 1
  {
    match y
    case Eps =>
    case Tok(_) =>
    case Alt(xs) =>
      if xs != [] {
        CanonFixedAlt(xs);
      }
    case Cat(xs) =>
      CanonFixedCat(xs);
    case Star(x) =>
      CanonFixedStar(x);
  }

  lemma {:induction false} CanonFixedAlt(xs: seq<Regex>)
    requires Canon(Alt(xs)) && xs != []
    ensures ReduceAsWritten(Alt(xs)) == Alt(xs) && Reduce(Alt(xs)) == Alt(xs)
    decreases Alt(xs), 0
  {
    CanonAltParts(xs);
    forall i | 0 <= i < |xs|
      ensures ReduceAsWritten(xs[i]) == xs[i] && Reduce(xs[i]) == xs[i]
    {
      CanonFixed(xs[i]);
    }
    AltFixed(xs);
  }

  lemma {:induction false} CanonFixedCat(xs: seq<Regex>)
    requires Canon(Cat(xs))
    ensures ReduceAsWritten(Cat(xs)) == Cat(xs) && Reduce(Cat(xs)) == Cat(xs)
    decreases Cat(xs), 0
  {
    CanonCatParts(xs);
    forall i | 0 <= i < |xs|
      ensures ReduceAsWritten(xs[i]) == xs[i] && Reduce(xs[i]) == xs[i]
    {
      CanonFixed(xs[i]);
    }
    CatFixed(xs);
  }

  lemma {:induction false} CanonFixedStar(x: Regex)
    requires Canon(Star(x))
    ensures ReduceAsWritten(Star(x)) == Star(x) && Reduce(Star(x)) == Star(x)
    decreases Star(x), 0
  {
    StarUnfold(x);
    if x.Alt? && |x.alts| == 1 && x.alts[0].Tok? {
      assert x == Alt([x.alts[0]]);
      SingleAlt(x.alts[0]);
    } else {
      assert Canon(x) && x != Zero && (x.Cat? || (x.Alt? && !HasEps(x.alts)));
      CanonFixed(x);
      StarKept(x);
    }
  }

  /** A concatenation, or an alternation without epsilon, keeps its star under both rules. */
  lemma StarKept(x: Regex)
    requires x != Zero && (x.Cat? || (x.Alt? && !HasEps(x.alts)))
    ensures StarAsWritten(x, x) == Star(x) && StarRule(x, x) == Star(x)
  {
  }

  /** The parts of a canonical concatenation: at least two, canonical, neither epsilon nor
      the empty language. */
  lemma CanonCatParts(xs: seq<Regex>)
    requires Canon(Cat(xs))
    ensures |xs| >= 2
    ensures forall i :: 0 <= i < |xs| ==> Canon(xs[i]) && xs[i] != Zero && !IsEps(xs[i])
  {
  }

  lemma AltFixed(xs: seq<Regex>)
    requires xs != [] && |xs| >= 2
    requires forall i :: 0 <= i < |xs| ==> xs[i] != Zero
    requires forall i :: 0 <= i < |xs| - 1 ==> !IsEps(xs[i])
    requires IsEps(xs[|xs| - 1]) ==> xs[|xs| - 1] == Eps
    requires forall i :: 0 <= i < |xs| ==> ReduceAsWritten(xs[i]) == xs[i] && Reduce(xs[i]) == xs[i]
    ensures ReduceAsWritten(Alt(xs)) == Alt(xs) && Reduce(Alt(xs)) == Alt(xs)
  {
    ReduceAllFixed(xs);
    ReduceAllAsWrittenFixed(xs);
    assert Zero !in xs;
    AltKeptStable(xs);
    AltUnfold(xs);
  }

  lemma CatFixed(xs: seq<Regex>)
    requires |xs| >= 2
    requires forall i :: 0 <= i < |xs| ==> xs[i] != Zero && !IsEps(xs[i])
    requires forall i :: 0 <= i < |xs| ==> ReduceAsWritten(xs[i]) == xs[i] && Reduce(xs[i]) == xs[i]
    ensures ReduceAsWritten(Cat(xs)) == Cat(xs) && Reduce(Cat(xs)) == Cat(xs)
  {
    ReduceAllFixed(xs);
    ReduceAllAsWrittenFixed(xs);
    DropEpsNone(xs);
    assert Zero !in xs;
    CatUnfold(xs);
  }

  /** A one-branch alternation of a fixed point simplifies to that branch in both. */
  lemma SingleAlt(x: Regex)
    requires ReduceAsWritten(x) == x && Reduce(x) == x && x != Zero && !IsEps(x)
    ensures ReduceAsWritten(Alt([x])) == x && Reduce(Alt([x])) == x
  {
    ReduceAllOne(x);
    AltUnfold([x]);
    CollapseOne(x);
  }

  lemma ReduceAllOne(x: Regex)
    ensures ReduceAll([x]) == [Reduce(x)]
    ensures ReduceAllAsWritten([x]) == [ReduceAsWritten(x)]
  {
    ReduceAllAt([x], 0);
    ReduceAllAsWrittenAt([x], 0);
  }

  /** The `|` rule on a single branch that is neither epsilon nor the empty language. */
  lemma CollapseOne(x: Regex)
    requires x != Zero && !IsEps(x)
    ensures CollapseAlt([x]) == x
  {
    AltKeptStable([x]);
  }

  /** The `|` rule keeps canonical children canonical. */
  lemma CanonCollapseAlt(xs: seq<Regex>)
    requires forall i :: 0 <= i < |xs| ==> Canon(xs[i])
    ensures Canon(CollapseAlt(xs))
  {
    var kept := AltKept(xs);
    forall i | 0 <= i < |kept|
      ensures Canon(kept[i]) && kept[i] != Zero
    {
      assert kept[i] in kept;
      if kept[i] != Eps {
        var j :| 0 <= j < |xs| && xs[j] == kept[i];
      }
    }
  }

  /** The `.` rule keeps canonical children canonical. */
  lemma CanonCollapseCat(xs: seq<Regex>)
    requires forall i :: 0 <= i < |xs| ==> Canon(xs[i])
    ensures Canon(CollapseCat(xs))
  {
    var rest := DropEps(xs);
    forall i | 0 <= i < |rest|
      ensures Canon(rest[i]) && !IsEps(rest[i])
    {
      assert rest[i] in rest;
      var j :| 0 <= j < |xs| && xs[j] == rest[i];
    }
  }

  /** A concatenation with a part that is no epsilon does not simplify to an epsilon. */
  lemma NonEpsCollapseCat(xs: seq<Regex>, i: nat)
    requires i < |xs| && !IsEps(xs[i])
    ensures !IsEps(CollapseCat(xs))
  {
    var rest := DropEps(xs);
    assert xs[i] in rest;
    assert rest[0] in rest;
  }

  /** An alternation of parts none of which is an epsilon does not simplify to an epsilon. */
  lemma NonEpsCollapseAlt(xs: seq<Regex>)
    requires forall i :: 0 <= i < |xs| ==> !IsEps(xs[i])
    ensures !IsEps(CollapseAlt(xs))
  {
  }

  lemma DropEpsThree(a: Regex, s: Regex, c: Regex)
    requires !IsEps(a) && !IsEps(c)
    ensures DropEps([a, s, c]) == if IsEps(s) then [a, c] else [a, s, c]
  {
    assert [a, s, c][1..] == [s, c];
    assert [s, c][1..] == [c];
    DropEpsNone([c]);
    assert DropEps([s, c]) == if IsEps(s) then [c] else [s, c];
  }

  /** An alternation ending with its only epsilon loses exactly that epsilon. */
  lemma DropTrailingEps(alts: seq<Regex>)
    requires |alts| >= 1 && alts[|alts| - 1] == Eps
    requires forall i :: 0 <= i < |alts| - 1 ==> !IsEps(alts[i])
    ensures DropEps(alts) == alts[..|alts| - 1]
  {
    SplitLast(alts, alts[..|alts| - 1]);
    DropSnocEps(alts[..|alts| - 1]);
  }

  lemma SplitLast(alts: seq<Regex>, init: seq<Regex>)
    requires |alts| >= 1 && alts[|alts| - 1] == Eps && init == alts[..|alts| - 1]
    requires forall i :: 0 <= i < |alts| - 1 ==> !IsEps(alts[i])
    ensures alts == init + [Eps]
    ensures forall i :: 0 <= i < |init| ==> !IsEps(init[i])
  {
  }

  lemma DropSnocEps(init: seq<Regex>)
    requires forall i :: 0 <= i < |init| ==> !IsEps(init[i])
    ensures DropEps(init + [Eps]) == init
  {
    DropEpsNone(init);
    DropEpsSnocEps(init);
  }

  /** The branches of a canonical alternation: at least two, canonical and not the empty
      language, none an epsilon except possibly the last, which is then `Eps`. */
  lemma CanonAltParts(alts: seq<Regex>)
    requires Canon(Alt(alts)) && alts != []
    ensures |alts| >= 2
    ensures forall i :: 0 <= i < |alts| ==> Canon(alts[i]) && alts[i] != Zero
    ensures forall i :: 0 <= i < |alts| - 1 ==> !IsEps(alts[i])
    ensures IsEps(alts[|alts| - 1]) ==> alts[|alts| - 1] == Eps
  {
  }

  /** An epsilon that is not among the first `|alts| - 1` branches is the last one. */
  lemma LastEps(alts: seq<Regex>)
    requires HasEps(alts) && forall i :: 0 <= i < |alts| - 1 ==> !IsEps(alts[i])
    ensures IsEps(alts[|alts| - 1])
  {
    var e :| 0 <= e < |alts| && IsEps(alts[e]);
  }

  /** The branches of a simplified loop: none starred, and none an alternation when one of
      them is an epsilon. */
  lemma LoopParts(alts: seq<Regex>)
    requires LoopShape(Alt(alts)) && HasEps(alts)
    ensures forall i :: 0 <= i < |alts| ==> !alts[i].Star? && !alts[i].Alt?
  {
  }

  /** The first `|alts| - 1` branches, as a sequence of their own. */
  lemma InitParts(alts: seq<Regex>, init: seq<Regex>)
    requires |alts| >= 1 && init == alts[..|alts| - 1]
    requires forall i :: 0 <= i < |alts| - 1 ==> Canon(alts[i]) && alts[i] != Zero && !IsEps(alts[i])
    requires forall i :: 0 <= i < |alts| ==> !alts[i].Star? && !alts[i].Alt?
    ensures forall i :: 0 <= i < |init| ==> Canon(init[i]) && init[i] != Zero && !IsEps(init[i])
    ensures forall i :: 0 <= i < |init| ==> !init[i].Star? && !init[i].Alt?
  {
  }

  /** A simplified loop with an epsilon ends with `Eps`, and dropping its epsilons leaves
      the other branches: canonical, neither epsilon nor the empty language, nor starred,
      nor alternations. */
  lemma SplitEps(alts: seq<Regex>, init: seq<Regex>)
    requires Canon(Alt(alts)) && LoopShape(Alt(alts)) && HasEps(alts)
    requires |alts| >= 1 && init == alts[..|alts| - 1]
    ensures init != [] && DropEps(alts) == init
    ensures forall i :: 0 <= i < |init| ==> Canon(init[i]) && init[i] != Zero && !IsEps(init[i])
    ensures forall i :: 0 <= i < |init| ==> !init[i].Star? && !init[i].Alt?
  {
    CanonAltParts(alts);
    LastEps(alts);
    DropTrailingEps(alts);
    LoopParts(alts);
    InitParts(alts, init);
  }

  /** `(x)*` for a single concatenation `x`: both simplifiers give `x*`. */
  lemma StarSingleCat(x: Regex)
    requires Canon(x) && x.Cat?
    ensures ReduceAsWritten(Star(Alt([x]))) == Star(x) && Reduce(Star(Alt([x]))) == Star(x)
    ensures Canon(Star(x))
  {
    CanonFixed(x);
    SingleAlt(x);
    StarSingleWritten(x);
    StarSingleCorrected(x);
  }

  lemma StarSingleWritten(x: Regex)
    requires x.Cat? && |x.parts| >= 2 && ReduceAsWritten(Alt([x])) == x
    ensures ReduceAsWritten(Star(Alt([x]))) == Star(x)
  {
    StarUnfold(Alt([x]));
  }

  lemma StarSingleCorrected(x: Regex)
    requires x.Cat? && |x.parts| >= 2 && Reduce(Alt([x])) == x
    ensures Reduce(Star(Alt([x]))) == Star(x)
  {
    StarUnfold(Alt([x]));
  }

  /** Both simplifiers simplify `e*` by their own star rule. */
  lemma StarUnfold(body: Regex)
    ensures ReduceAsWritten(Star(body)) == StarAsWritten(body, ReduceAsWritten(body))
    ensures Reduce(Star(body)) == StarRule(body, Reduce(body))
  {
    assert Star(body) != Zero && !IsEps(Star(body));
  }

  /** The star of an alternation of at least two branches, none an epsilon or starred or
      an alternation: canonical, so both simplifiers leave it. */
  lemma StarOfMany(init: seq<Regex>)
    requires |init| >= 2
    requires forall i :: 0 <= i < |init| ==> Canon(init[i]) && init[i] != Zero && !IsEps(init[i])
    ensures Canon(Star(Alt(init)))
  {
    assert !HasEps(init);
    assert Canon(Alt(init));
  }

  /** The star of the remaining branches, when there is exactly one: a token under a star is
      canonical as it is, and a concatenation loses its one-branch alternation. */
  lemma StarOfOne(x: Regex)
    requires Canon(x) && x != Zero && !IsEps(x) && !x.Star? && !x.Alt?
    ensures ReduceAsWritten(Star(Alt([x]))) == Reduce(Star(Alt([x])))
    ensures Canon(Reduce(Star(Alt([x])))) && Reduce(Star(Alt([x]))).Star?
  {
    if x.Tok? {
      assert Canon(Star(Alt([x])));
      CanonFixed(Star(Alt([x])));
    } else {
      StarSingleCat(x);
    }
  }

  /** `(% | e)*` re-simplified, for the alternation `e` of a simplified loop without its
      epsilon: both simplifiers give the same canonical star. */
  lemma ThinnedAgree(alts: seq<Regex>)
    requires Canon(Alt(alts)) && LoopShape(Alt(alts)) && HasEps(alts)
    ensures ReduceAsWritten(Star(Alt(DropEps(alts)))) == Reduce(Star(Alt(DropEps(alts))))
    ensures Canon(Reduce(Star(Alt(DropEps(alts)))))
    ensures Reduce(Star(Alt(DropEps(alts)))).Star?
  {
    var init := alts[..|alts| - 1];
    SplitEps(alts, init);
    if |init| >= 2 {
      StarOfMany(init);
      CanonFixed(Star(Alt(init)));
    } else {
      assert init == [init[0]];
      StarOfOne(init[0]);
    }
  }

  /** The star of a simplified loop: both simplifiers give the same tree, a canonical one,
      which is epsilon exactly when the loop is. */
  lemma StarAgree(body: Regex, b: Regex)
    requires Size(b) <= Size(body)
    requires Canon(b) && LoopShape(b)
    ensures StarAsWritten(body, b) == StarRule(body, b)
    ensures Canon(StarRule(body, b))
    ensures b == Eps ==> StarRule(body, b) == Eps
    ensures b != Eps ==> StarRule(body, b).Star?
  {
    if b.Alt? && HasEps(b.alts) {
      ThinnedAgree(b.alts);
    } else if b != Eps {
      assert Canon(Star(b));
    }
  }

  /** Both simplifiers agree on `e*` when they agree on `e` and give a simplified loop. */
  lemma StarOfLoop(body: Regex)
    requires ReduceAsWritten(body) == Reduce(body)
    requires Canon(Reduce(body)) && LoopShape(Reduce(body))
    ensures ReduceAsWritten(Star(body)) == Reduce(Star(body))
    ensures Canon(Reduce(Star(body)))
    ensures Reduce(body) == Eps ==> Reduce(Star(body)) == Eps
    ensures Reduce(body) != Eps ==> Reduce(Star(body)).Star?
  {
    StarUnfold(body);
    StarAgree(body, Reduce(body));
  }

  /** What the two simplifiers do with `R(i, j, k)`, as `RAgree` states it. */
  predicate Tame(e: Regex, loop: bool) {
    && ReduceAsWritten(e) == Reduce(e)
    && Canon(Reduce(e))
    && (loop ==> LoopShape(Reduce(e)))
    && (!loop ==> !IsEps(Reduce(e)))
  }

  /** An alternation of tokens and epsilons: both simplifiers give the `|` rule applied to
      it as it is, a canonical tree. */
  lemma TokEpsAlt(xs: seq<Regex>)
    requires forall a :: 0 <= a < |xs| ==> xs[a].Tok? || xs[a] == Eps
    ensures ReduceAsWritten(Alt(xs)) == Reduce(Alt(xs)) == CollapseAlt(xs)
    ensures Canon(CollapseAlt(xs))
  {
    ReduceAllFixed(xs);
    ReduceAllAsWrittenFixed(xs);
    AltAgree(xs);
    CanonCollapseAlt(xs);
    assert !IsEps(Alt(xs));
  }

  /** ... ending with an epsilon: a simplified loop. */
  lemma TokEpsLoop(xs: seq<Regex>)
    requires forall a :: 0 <= a < |xs| ==> xs[a].Tok? || xs[a] == Eps
    requires |xs| >= 1 && xs[|xs| - 1] == Eps
    ensures LoopShape(CollapseAlt(xs))
  {
    var kept := AltKept(xs);
    assert HasEps(xs);
    forall a | 0 <= a < |kept|
      ensures kept[a].Tok? || kept[a] == Eps
    {
      assert kept[a] in kept;
    }
  }

  /** The branches of `R(i, j, 0)` are tokens and epsilons. */
  lemma BaseBranches(toks: seq<Regex>, tail: seq<Regex>)
    requires forall t :: t in toks ==> t.Tok?
    requires tail == [] || tail == [Eps]
    ensures forall a :: 0 <= a < |toks + tail| ==> (toks + tail)[a].Tok? || (toks + tail)[a] == Eps
  {
    forall a | 0 <= a < |toks + tail|
      ensures (toks + tail)[a].Tok? || (toks + tail)[a] == Eps
    {
      if a < |toks| {
        assert toks[a] in toks;
      }
    }
  }

  /** `R(i, j, 0)`: an alternation of the direct tokens, with an epsilon when `i = j`. */
  lemma BaseAgree(edges: seq<NEdge>, i: nat, j: nat)
    ensures Tame(R(edges, i, j, 0), i == j)
  {
    var toks := DirectTokens(edges, i, j);
    if i == j {
      assert R(edges, i, j, 0) == Alt(toks + [Eps]);
      BaseLoop(toks);
    } else {
      assert R(edges, i, j, 0) == Alt(toks + []);
      assert toks + [] == toks;
      BaseOther(toks);
    }
  }

  lemma BaseLoop(toks: seq<Regex>)
    requires forall t :: t in toks ==> t.Tok?
    ensures Tame(Alt(toks + [Eps]), true)
  {
    var xs := toks + [Eps];
    BaseBranches(toks, [Eps]);
    TokEpsAlt(xs);
    TokEpsLoop(xs);
  }

  lemma BaseOther(toks: seq<Regex>)
    requires forall t :: t in toks ==> t.Tok?
    ensures Tame(Alt(toks), false)
  {
    forall a | 0 <= a < |toks|
      ensures toks[a].Tok?
    {
      assert toks[a] in toks;
    }
    TokEpsAlt(toks);
    NonEpsCollapseAlt(toks);
  }

  /** Both simplifiers simplify an alternation and a concatenation by the shared rules,
      applied to their own simplified children. */
  lemma AltUnfold(xs: seq<Regex>)
    requires xs != []
    ensures ReduceAsWritten(Alt(xs)) == CollapseAlt(ReduceAllAsWritten(xs))
    ensures Reduce(Alt(xs)) == CollapseAlt(ReduceAll(xs))
  {
    assert Alt(xs) != Zero && !IsEps(Alt(xs));
  }

  lemma CatUnfold(xs: seq<Regex>)
    requires xs != []
    ensures ReduceAsWritten(Cat(xs)) == CollapseCat(ReduceAllAsWritten(xs))
    ensures Reduce(Cat(xs)) == CollapseCat(ReduceAll(xs))
  {
    assert Cat(xs) != Zero && !IsEps(Cat(xs));
  }

  lemma ReduceAllTwo(a: Regex, c: Regex)
    ensures ReduceAll([a, c]) == [Reduce(a), Reduce(c)]
    ensures ReduceAllAsWritten([a, c]) == [ReduceAsWritten(a), ReduceAsWritten(c)]
  {
    ReduceAllAt([a, c], 0);
    ReduceAllAt([a, c], 1);
    ReduceAllAsWrittenAt([a, c], 0);
    ReduceAllAsWrittenAt([a, c], 1);
  }

  lemma ReduceAllThree(a: Regex, s: Regex, c: Regex)
    ensures ReduceAll([a, s, c]) == [Reduce(a), Reduce(s), Reduce(c)]
    ensures ReduceAllAsWritten([a, s, c]) == [ReduceAsWritten(a), ReduceAsWritten(s), ReduceAsWritten(c)]
  {
    ReduceAllAt([a, s, c], 0);
    ReduceAllAt([a, s, c], 1);
    ReduceAllAt([a, s, c], 2);
    ReduceAllAsWrittenAt([a, s, c], 0);
    ReduceAllAsWrittenAt([a, s, c], 1);
    ReduceAllAsWrittenAt([a, s, c], 2);
  }

  /** Three canonical parts, the outer two no epsilon: the `.` rule gives the empty
      language or a canonical concatenation. */
  lemma CatOfThree(a: Regex, s: Regex, c: Regex)
    requires Canon(a) && Canon(s) && Canon(c) && !IsEps(a) && !IsEps(c)
    ensures Canon(CollapseCat([a, s, c]))
    ensures CollapseCat([a, s, c]) == Zero || CollapseCat([a, s, c]).Cat?
  {
    CanonCollapseCat([a, s, c]);
    DropEpsThree(a, s, c);
  }

  /** A concatenation of three parts on which the simplifiers agree. */
  lemma CatOfAgreeing3(a: Regex, s: Regex, c: Regex)
    requires ReduceAsWritten(a) == Reduce(a)
    requires ReduceAsWritten(s) == Reduce(s)
    requires ReduceAsWritten(c) == Reduce(c)
    ensures ReduceAsWritten(Cat([a, s, c])) == Reduce(Cat([a, s, c]))
    ensures Reduce(Cat([a, s, c])) == CollapseCat([Reduce(a), Reduce(s), Reduce(c)])
  {
    ReduceAllThree(a, s, c);
    CatUnfold([a, s, c]);
  }

  /** A concatenation of two parts on which the simplifiers agree. */
  lemma CatOfAgreeing2(a: Regex, c: Regex)
    requires ReduceAsWritten(a) == Reduce(a)
    requires ReduceAsWritten(c) == Reduce(c)
    ensures ReduceAsWritten(Cat([a, c])) == Reduce(Cat([a, c]))
    ensures Reduce(Cat([a, c])) == CollapseCat([Reduce(a), Reduce(c)])
  {
    ReduceAllTwo(a, c);
    CatUnfold([a, c]);
  }

  /** An alternation of two parts on which the simplifiers agree. */
  lemma AltOfAgreeing2(a: Regex, c: Regex)
    requires ReduceAsWritten(a) == Reduce(a)
    requires ReduceAsWritten(c) == Reduce(c)
    ensures ReduceAsWritten(Alt([a, c])) == Reduce(Alt([a, c]))
    ensures Reduce(Alt([a, c])) == CollapseAlt([Reduce(a), Reduce(c)])
  {
    ReduceAllTwo(a, c);
    AltUnfold([a, c]);
  }

  /** The path `R(i, k) R(k, k)* R(k, j)` through `k`, with `i` and `j` other than `k`: the
      two simplifiers agree, and give the empty language or a concatenation. */
  lemma ThroughAgree(ik: Regex, kk: Regex, kj: Regex)
    requires ReduceAsWritten(ik) == Reduce(ik) && Canon(Reduce(ik)) && !IsEps(Reduce(ik))
    requires ReduceAsWritten(kk) == Reduce(kk) && Canon(Reduce(kk)) && LoopShape(Reduce(kk))
    requires ReduceAsWritten(kj) == Reduce(kj) && Canon(Reduce(kj)) && !IsEps(Reduce(kj))
    ensures ReduceAsWritten(Cat([ik, Star(kk), kj])) == Reduce(Cat([ik, Star(kk), kj]))
    ensures Canon(Reduce(Cat([ik, Star(kk), kj])))
    ensures Reduce(Cat([ik, Star(kk), kj])) == Zero || Reduce(Cat([ik, Star(kk), kj])).Cat?
  {
    StarOfLoop(kk);
    CatOfAgreeing3(ik, Star(kk), kj);
    CatOfThree(Reduce(ik), Reduce(Star(kk)), Reduce(kj));
  }

  /** An alternation of a simplified loop with a path that is empty or a concatenation is
      again a simplified loop. */
  lemma LoopAlt(a: Regex, c: Regex)
    requires Canon(a) && LoopShape(a)
    requires c == Zero || (c.Cat? && c != Cat([]))
    ensures LoopShape(CollapseAlt([a, c]))
  {
    if a == Eps {
      if c == Zero {
        CollapseEpsZero();
      } else {
        CollapseEpsPart(c);
      }
    } else {
      assert a != Zero && !IsEps(a);
      if c == Zero {
        CollapsePartZero(a);
      } else {
        CollapsePair(a, c);
      }
    }
  }

  // The `|` rule on the two-branch alternations `R(i, j, k)` is made of.

  lemma CollapseEpsZero()
    ensures CollapseAlt([Eps, Zero]) == Eps
  {
    var kept := AltKept([Eps, Zero]);
    assert HasEps([Eps, Zero]) by { assert IsEps([Eps, Zero][0]); }
    forall y | y in kept ensures y == Eps {
    }
    assert kept == [Eps];
  }

  lemma CollapseEpsPart(c: Regex)
    requires c != Zero && !IsEps(c)
    ensures CollapseAlt([Eps, c]) == Alt([c, Eps])
  {
    assert DropZeros([Eps, c]) == [Eps, c] by { DropZerosNone([Eps, c]); }
    assert DropEps([Eps, c]) == [c] by {
      assert [Eps, c][1..] == [c];
      DropEpsNone([c]);
    }
    assert HasEps([Eps, c]) by { assert IsEps([Eps, c][0]); }
  }

  lemma CollapsePartZero(a: Regex)
    requires a != Zero && !IsEps(a)
    ensures CollapseAlt([a, Zero]) == a
  {
    assert DropZeros([a, Zero]) == [a] by {
      assert [a, Zero][1..] == [Zero];
      assert [Zero][1..] == [];
    }
    DropEpsNone([a]);
    assert !HasEps([a]);
  }

  lemma CollapsePair(a: Regex, c: Regex)
    requires a != Zero && !IsEps(a) && c != Zero && !IsEps(c)
    ensures CollapseAlt([a, c]) == Alt([a, c])
  {
    AltKeptStable([a, c]);
  }

  /** `R(i, j, k - 1) | R(i, k, k - 1) R(k, k, k - 1)* R(k, j, k - 1)`. */
  lemma BypassStep(left: Regex, ik: Regex, kk: Regex, kj: Regex, loop: bool)
    requires Tame(left, loop) && Tame(ik, false) && Tame(kk, true) && Tame(kj, false)
    ensures Tame(Alt([left, Cat([ik, Star(kk), kj])]), loop)
  {
    var through := Cat([ik, Star(kk), kj]);
    ThroughAgree(ik, kk, kj);
    AltOfAgreeing2(left, through);
    AltPair(Reduce(left), Reduce(through), loop);
  }

  /** The `|` rule on a simplified `R(i, j, k - 1)` and a simplified path through `k`. */
  lemma AltPair(a: Regex, c: Regex, loop: bool)
    requires Canon(a) && Canon(c) && (c == Zero || c.Cat?)
    requires loop ==> LoopShape(a)
    requires !loop ==> !IsEps(a)
    ensures Canon(CollapseAlt([a, c]))
    ensures loop ==> LoopShape(CollapseAlt([a, c]))
    ensures !loop ==> !IsEps(CollapseAlt([a, c]))
  {
    CanonCollapseAlt([a, c]);
    if loop {
      LoopAlt(a, c);
    } else {
      NonEpsCollapseAlt([a, c]);
    }
  }

  /** Two canonical parts, one of them no epsilon: the `.` rule gives a canonical tree
      that is no epsilon. */
  lemma CatPair(x: Regex, y: Regex, i: nat)
    requires Canon(x) && Canon(y) && i < 2 && !IsEps([x, y][i])
    ensures Canon(CollapseCat([x, y])) && !IsEps(CollapseCat([x, y]))
  {
    CanonCollapseCat([x, y]);
    NonEpsCollapseCat([x, y], i);
  }

  /** `R(i, i, k - 1)* R(i, j, k - 1)` for `i = k != j`. */
  lemma EnterStep(ii: Regex, ij: Regex)
    requires Tame(ii, true) && Tame(ij, false)
    ensures Tame(Cat([Star(ii), ij]), false)
  {
    StarOfLoop(ii);
    CatOfAgreeing2(Star(ii), ij);
    CatPair(Reduce(Star(ii)), Reduce(ij), 1);
  }

  /** `R(i, j, k - 1) R(j, j, k - 1)*` for `j = k`. */
  lemma LeaveStep(ij: Regex, jj: Regex, loop: bool)
    requires Tame(ij, loop) && Tame(jj, true)
    requires loop ==> ij == jj
    ensures Tame(Cat([ij, Star(jj)]), loop)
  {
    StarOfLoop(jj);
    CatOfAgreeing2(ij, Star(jj));
    if loop {
      LoopCatPair(Reduce(ij), Reduce(Star(jj)));
    } else {
      CatPair(Reduce(ij), Reduce(Star(jj)), 0);
    }
  }

  /** A simplified loop followed by its own simplified star: the `.` rule gives a canonical
      simplified loop. */
  lemma LoopCatPair(a: Regex, s: Regex)
    requires Canon(a) && LoopShape(a) && Canon(s)
    requires a == Eps ==> s == Eps
    requires a != Eps ==> s.Star?
    ensures Canon(CollapseCat([a, s])) && LoopShape(CollapseCat([a, s]))
  {
    CanonCollapseCat([a, s]);
    LoopCat(a, s);
  }

  lemma RBypass(edges: seq<NEdge>, i: nat, j: nat, k: nat)
    requires k > 0 && k != i && k != j
    requires Tame(R(edges, i, j, k - 1), i == j)
    requires Tame(R(edges, i, k, k - 1), false)
    requires Tame(R(edges, k, k, k - 1), true)
    requires Tame(R(edges, k, j, k - 1), false)
    ensures Tame(R(edges, i, j, k), i == j)
  {
    BypassStep(R(edges, i, j, k - 1), R(edges, i, k, k - 1), R(edges, k, k, k - 1), R(edges, k, j, k - 1), i == j);
  }

  lemma REnter(edges: seq<NEdge>, i: nat, j: nat, k: nat)
    requires k > 0 && k == i && k != j
    requires Tame(R(edges, i, i, k - 1), true)
    requires Tame(R(edges, i, j, k - 1), false)
    ensures Tame(R(edges, i, j, k), false)
  {
    EnterStep(R(edges, i, i, k - 1), R(edges, i, j, k - 1));
  }

  lemma RLeave(edges: seq<NEdge>, i: nat, j: nat, k: nat)
    requires k > 0 && k == j
    requires Tame(R(edges, i, j, k - 1), i == j)
    requires Tame(R(edges, j, j, k - 1), true)
    ensures Tame(R(edges, i, j, k), i == j)
  {
    assert R(edges, i, j, k) == Cat([R(edges, i, j, k - 1), Star(R(edges, j, j, k - 1))]);
    LeaveStep(R(edges, i, j, k - 1), R(edges, j, j, k - 1), i == j);
  }

  /** One more intermediate state: from every `R(p, q, m)` to `R(i, j, m + 1)`. */
  lemma RStep(edges: seq<NEdge>, i: nat, j: nat, m: nat)
    requires forall p: nat, q: nat :: Tame(R(edges, p, q, m), p == q)
    ensures Tame(R(edges, i, j, m + 1), i == j)
  {
    var k := m + 1;
    if k != i && k != j {
      RBypass(edges, i, j, k);
    } else if k == i && k != j {
      REnter(edges, i, j, k);
    } else {
      RLeave(edges, i, j, k);
    }
  }

  /** On every expression `R(i, j, n)` the two simplifiers agree, and give a canonical tree:
      a simplified loop when `i = j`, and no epsilon when `i != j`. The induction runs over
      the number of intermediate states, as `reconstruct` builds them. */
  lemma RAgree(edges: seq<NEdge>, n: nat)
    ensures forall i: nat, j: nat :: Tame(R(edges, i, j, n), i == j)
  {
    forall i: nat, j: nat
      ensures Tame(R(edges, i, j, 0), i == j)
    {
      BaseAgree(edges, i, j);
    }
    for m := 0 to n
      invariant forall i: nat, j: nat :: Tame(R(edges, i, j, m), i == j)
    {
      var k := m + 1;
      forall i: nat, j: nat
        ensures Tame(R(edges, i, j, k), i == j)
      {
        RStep(edges, i, j, m);
      }
    }
  }

  /** A simplified loop followed by its own simplified star is again a simplified loop. */
  lemma LoopCat(a: Regex, s: Regex)
    requires Canon(a) && LoopShape(a)
    requires a == Eps ==> s == Eps
    requires a != Eps ==> s.Star?
    ensures LoopShape(CollapseCat([a, s]))
  {
    var rest := DropEps([a, s]);
    if a == Eps {
      assert [a, s][1..] == [Eps];
      assert [Eps][1..] == [];
    } else {
      assert a != Zero && !IsEps(a);
      DropEpsNone([a, s]);
    }
  }
}
