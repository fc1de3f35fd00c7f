/** The algebraic simplifier `reduce`, which canonicalises operations on the empty language
    `('|', [])` and on epsilon. `ReduceAsWritten` follows the program rule by rule, including
    its two star rules that change the language; `Reduce` is the same simplifier with those
    two rules corrected, and is the one proved to preserve the language. */
module Simplifier {
  import opened Regex
  import opened Language

  lemma SizeAllCons(x: Regex, ys: seq<Regex>)
    ensures SizeAll([x] + ys) == Size(x) + SizeAll(ys)
  {
    assert ([x] + ys)[1..] == ys;
  }

  lemma {:induction false} SizeElem(xs: seq<Regex>, i: nat)
    requires i < |xs|
    ensures Size(xs[i]) < 1 + SizeAll(xs)
    decreases i
  {
    if i > 0 {
      SizeElem(xs[1..], i - 1);
    }
  }

  /** Some element of `xs` is an epsilon. */
  predicate HasEps(xs: seq<Regex>) {
    exists i :: 0 <= i < |xs| && IsEps(xs[i])
  }

  /** `xs` without its empty-language elements, in order. */
  function DropZeros(xs: seq<Regex>): (ys: seq<Regex>)
    ensures SizeAll(ys) <= SizeAll(xs)
    ensures forall y :: y in ys <==> y in xs && y != Zero
    decreases |xs|
  {
    if xs == [] then []
    else
      var tail := DropZeros(xs[1..]);
      assert forall y :: y in xs <==> y == xs[0] || y in xs[1..];
      if xs[0] == Zero then tail
      else SizeAllCons(xs[0], tail); [xs[0]] + tail
  }

  /** `xs` without its epsilon elements, in order; dropping at least one when there is one. */
  function DropEps(xs: seq<Regex>): (ys: seq<Regex>)
    ensures SizeAll(ys) + (if HasEps(xs) then 1 else 0) <= SizeAll(xs)
    ensures forall y :: y in ys <==> y in xs && !IsEps(y)
    decreases |xs|
  {
    if xs == [] then []
    else
      var tail := DropEps(xs[1..]);
      assert forall y :: y in xs <==> y == xs[0] || y in xs[1..];
      assert HasEps(xs) ==> IsEps(xs[0]) || HasEps(xs[1..]) by {
        if HasEps(xs) {
          var i :| 0 <= i < |xs| && IsEps(xs[i]);
          if i > 0 {
            assert xs[1..][i - 1] == xs[i];
          }
        }
      }
      if IsEps(xs[0]) then tail
      else SizeAllCons(xs[0], tail); [xs[0]] + tail
  }

  /** The children an alternation keeps, given its already reduced children: no empty
      language, no epsilon except one trailing `Eps` exactly when some child was nullable,
      and every other child. */
  function AltKept(reduced: seq<Regex>): (kept: seq<Regex>)
    ensures SizeAll(kept) <= SizeAll(reduced)
    ensures forall y :: y in kept ==> y != Zero
    ensures forall i :: 0 <= i < |kept| - 1 ==> !IsEps(kept[i])
    ensures (|kept| > 0 && IsEps(kept[|kept| - 1])) <==> HasEps(reduced)
    ensures HasEps(reduced) ==> kept[|kept| - 1] == Eps
    ensures forall x :: x in reduced && x != Zero && !IsEps(x) ==> x in kept
    ensures forall y :: y in kept ==> y in reduced || y == Eps
  {
    var rest := DropZeros(reduced);
    assert HasEps(reduced) <==> HasEps(rest) by {
      if HasEps(reduced) {
        var i :| 0 <= i < |reduced| && IsEps(reduced[i]);
        assert reduced[i] in rest;
      }
      if HasEps(rest) {
        var i :| 0 <= i < |rest| && IsEps(rest[i]);
        assert rest[i] in reduced;
      }
    }
    var others := DropEps(rest);
    if HasEps(rest) then
      SizeAllCons(Eps, []);
      assert SizeAll(others + [Eps]) == SizeAll(others) + 1 by { SizeAllSnoc(others, Eps); }
      assert forall i :: 0 <= i < |others| ==> others[i] in others;
      others + [Eps]
    else
      assert forall i :: 0 <= i < |others| ==> others[i] in others;
      assert forall i :: 0 <= i < |others| ==> !IsEps(others[i]);
      others
  }

  lemma {:induction false} SizeAllSnoc(xs: seq<Regex>, y: Regex)
    ensures SizeAll(xs + [y]) == SizeAll(xs) + Size(y)
    decreases |xs|
  {
    if xs == [] {
      assert xs + [y] == [y];
      SizeAllCons(y, []);
    } else {
      assert (xs + [y])[1..] == xs[1..] + [y];
      SizeAllSnoc(xs[1..], y);
    }
  }

  /** The result of the `|` rule on already reduced children. */
  function CollapseAlt(reduced: seq<Regex>): (out: Regex)
    ensures Size(out) <= 1 + SizeAll(reduced)
  {
    var kept := AltKept(reduced);
    if |kept| == 1 then
      SizeElem(kept, 0);
      kept[0]
    else if kept != [] then Alt(kept)
    else Zero
  }

  /** The result of the `.` rule on already reduced children: epsilons are dropped, and an
      empty-language part makes the whole concatenation empty. */
  function CollapseCat(reduced: seq<Regex>): (out: Regex)
    ensures Size(out) <= 1 + SizeAll(reduced)
    ensures Zero in reduced ==> out == Zero
  {
    var rest := DropEps(reduced);
    if Zero in rest then Zero
    else if |rest| == 1 then
      SizeElem(rest, 0);
      rest[0]
    else if rest != [] then Cat(rest)
    else Eps
  }

  /** `reduce` as the program writes it. */
  function ReduceAsWritten(r: Regex): (out: Regex)
    ensures Size(out) <= Size(r)
    decreases Size(r), 1
  {
    if r == Zero then Zero
    else if IsEps(r) then Eps
    else match r
      case Alt(data) => CollapseAlt(ReduceAllAsWritten(data))
      case Cat(data) => CollapseCat(ReduceAllAsWritten(data))
      case Star(body) => StarAsWritten(body, ReduceAsWritten(body))
      case _ => r
  }

  /** The `*` rule as the program writes it, given the star's body and its reduction `b`. */
  function StarAsWritten(body: Regex, b: Regex): (out: Regex)
    requires Size(b) <= Size(body)
    ensures Size(out) <= 1 + Size(body)
    decreases Size(body) + 1, 0
  {
    if b == Zero then Zero
    else if b.Eps? then Eps
    else if b.Star? then b.body
    else if b.Alt? && HasEps(b.alts) then
      var thinned := DropEps(b.alts);
      assert Size(Star(Alt(thinned))) == 2 + SizeAll(thinned);
      ReduceAsWritten(Star(Alt(thinned)))
    else if b.Alt? || b.Cat? then Star(b)
    else Star(body)
  }

  function ReduceAllAsWritten(data: seq<Regex>): (out: seq<Regex>)
    ensures |out| == |data| && SizeAll(out) <= SizeAll(data)
    decreases SizeAll(data) + 1, 0
  {
    if data == [] then []
    else
      SizeElem(data, 0);
      var tail := ReduceAllAsWritten(data[1..]);
      SizeAllCons(ReduceAsWritten(data[0]), tail);
      [ReduceAsWritten(data[0])] + tail
  }

  /** `reduce` with its star rules corrected: `0*` is epsilon and `e**` is `e*`. */
  function Reduce(r: Regex): (out: Regex)
    ensures Size(out) <= Size(r)
    decreases Size(r), 1
  {
    if r == Zero then Zero
    else if IsEps(r) then Eps
    else match r
      case Alt(data) => CollapseAlt(ReduceAll(data))
      case Cat(data) => CollapseCat(ReduceAll(data))
      case Star(body) => StarRule(body, Reduce(body))
      case _ => r
  }

  /** The corrected `*` rule: as written, except that an empty-language body gives epsilon
      and a starred body keeps its star. */
  function StarRule(body: Regex, b: Regex): (out: Regex)
    requires Size(b) <= Size(body)
    ensures Size(out) <= 1 + Size(body)
    decreases Size(body) + 1, 0
  {
    if b == Zero then Eps
    else if b.Eps? then Eps
    else if b.Star? then b
    else if b.Alt? && HasEps(b.alts) then
      var thinned := DropEps(b.alts);
      assert Size(Star(Alt(thinned))) == 2 + SizeAll(thinned);
      Reduce(Star(Alt(thinned)))
    else if b.Alt? || b.Cat? then Star(b)
    else Star(body)
  }

  function ReduceAll(data: seq<Regex>): (out: seq<Regex>)
    ensures |out| == |data| && SizeAll(out) <= SizeAll(data)
    decreases SizeAll(data) + 1, 0
  {
    if data == [] then []
    else
      SizeElem(data, 0);
      var tail := ReduceAll(data[1..]);
      SizeAllCons(Reduce(data[0]), tail);
      [Reduce(data[0])] + tail
  }

  lemma {:induction false} ReduceAllAsWrittenAt(data: seq<Regex>, i: nat)
    requires i < |data|
    ensures ReduceAllAsWritten(data)[i] == ReduceAsWritten(data[i])
    decreases i
  {
    if i > 0 {
      ReduceAllAsWrittenAt(data[1..], i - 1);
    }
  }

  lemma {:induction false} ReduceAllAt(data: seq<Regex>, i: nat)
    requires i < |data|
    ensures ReduceAll(data)[i] == Reduce(data[i])
    decreases i
  {
    if i > 0 {
      ReduceAllAt(data[1..], i - 1);
    }
  }

  // The language of the collapsed alternation and concatenation.

  /** Keeping the children of `AltKept` leaves the alternation's language unchanged. */
  lemma AltKeptMatches(reduced: seq<Regex>, w: string)
    ensures Matches(Alt(AltKept(reduced)), w) <==> Matches(Alt(reduced), w)
  {
    var kept := AltKept(reduced);
    if Matches(Alt(kept), w) {
      var i :| 0 <= i < |kept| && Matches(kept[i], w);
      assert kept[i] in kept;
      if kept[i] !in reduced {
        assert i == |kept| - 1;
        assert HasEps(reduced);
        var j :| 0 <= j < |reduced| && IsEps(reduced[j]);
        EpsMatchesEmpty(reduced[j], w);
      }
    }
    if Matches(Alt(reduced), w) {
      var i :| 0 <= i < |reduced| && Matches(reduced[i], w);
      assert reduced[i] in reduced;
      if reduced[i] == Zero {
        ZeroMatchesNothing(w);
      } else if IsEps(reduced[i]) {
        EpsMatchesEmpty(reduced[i], w);
        assert Matches(kept[|kept| - 1], w);
      } else {
        var j :| 0 <= j < |kept| && kept[j] == reduced[i];
      }
    }
  }

  /** The `|` rule preserves the language of the alternation of the reduced children. */
  lemma CollapseAltMatches(reduced: seq<Regex>, w: string)
    ensures Matches(CollapseAlt(reduced), w) <==> Matches(Alt(reduced), w)
  {
    AltKeptMatches(reduced, w);
    var kept := AltKept(reduced);
    if |kept| == 1 {
      assert kept == [kept[0]];
      AltSingle(kept[0], w);
    }
  }

  /** Dropping the epsilon parts leaves a concatenation's language unchanged. */
  lemma {:induction false} CatDropEps(xs: seq<Regex>, w: string)
    ensures MatchesCat(DropEps(xs), w) <==> MatchesCat(xs, w)
    decreases |xs|
  {
    if xs != [] {
      forall u
        ensures MatchesCat(DropEps(xs[1..]), u) <==> MatchesCat(xs[1..], u)
      {
        CatDropEps(xs[1..], u);
      }
      assert xs == [xs[0]] + xs[1..];
      if IsEps(xs[0]) {
        CatConsEps(xs[0], xs[1..], w);
      } else {
        CatConsTail(xs[0], DropEps(xs[1..]), xs[1..], w);
      }
    }
  }

  /** The `.` rule preserves the language of the concatenation of the reduced children. */
  lemma CollapseCatMatches(reduced: seq<Regex>, w: string)
    ensures Matches(CollapseCat(reduced), w) <==> MatchesCat(reduced, w)
  {
    var rest := DropEps(reduced);
    CatDropEps(reduced, w);
    if Zero in rest {
      CatWithZero(rest, w);
    } else if |rest| == 1 {
      assert rest == [rest[0]];
      CatSingle(rest[0], w);
    }
  }

  // The simplifier as written only ever shrinks the language.

  lemma ReduceAsWrittenAltSound(data: seq<Regex>, w: string)
    requires forall i :: 0 <= i < |data| ==> Sub(ReduceAsWritten(data[i]), data[i])
    ensures Matches(CollapseAlt(ReduceAllAsWritten(data)), w) ==> Matches(Alt(data), w)
  {
    var reduced := ReduceAllAsWritten(data);
    forall i | 0 <= i < |data|
      ensures Sub(reduced[i], data[i])
    {
      ReduceAllAsWrittenAt(data, i);
    }
    CollapseAltMatches(reduced, w);
    AltMono(reduced, data, w);
  }

  lemma ReduceAsWrittenCatSound(data: seq<Regex>, w: string)
    requires forall i :: 0 <= i < |data| ==> Sub(ReduceAsWritten(data[i]), data[i])
    ensures Matches(CollapseCat(ReduceAllAsWritten(data)), w) ==> MatchesCat(data, w)
  {
    var reduced := ReduceAllAsWritten(data);
    forall i | 0 <= i < |data|
      ensures Sub(reduced[i], data[i])
    {
      ReduceAllAsWrittenAt(data, i);
    }
    CollapseCatMatches(reduced, w);
    CatMono(reduced, data, w);
  }

  /** A body's words are words of its star. */
  lemma BodyInStar(b: Regex, w: string)
    requires Matches(b, w)
    ensures Matches(Star(b), w)
  {
    if w != [] {
      assert w[..|w|] == w;
      assert Matches(Star(b), w[|w|..]);
    }
  }

  /** Every word the simplified expression matches, the input expression matches. */
  lemma {:induction false} ReduceAsWrittenSound(r: Regex)
    ensures Sub(ReduceAsWritten(r), r)
    decreases Size(r), 1
  {
    if r == Zero {
    } else if IsEps(r) {
      forall w | Matches(Eps, w)
        ensures Matches(r, w)
      {
        EpsMatchesEmpty(r, w);
      }
    } else {
      match r
      case Alt(data) =>
        forall i | 0 <= i < |data|
          ensures Sub(ReduceAsWritten(data[i]), data[i])
        {
          SizeElem(data, i);
          ReduceAsWrittenSound(data[i]);
        }
        forall w
          ensures Matches(ReduceAsWritten(r), w) ==> Matches(r, w)
        {
          ReduceAsWrittenAltSound(data, w);
        }
      case Cat(data) =>
        forall i | 0 <= i < |data|
          ensures Sub(ReduceAsWritten(data[i]), data[i])
        {
          SizeElem(data, i);
          ReduceAsWrittenSound(data[i]);
        }
        forall w
          ensures Matches(ReduceAsWritten(r), w) ==> Matches(r, w)
        {
          ReduceAsWrittenCatSound(data, w);
        }
      case Star(body) =>
        ReduceAsWrittenSound(body);
        StarAsWrittenSound(body, ReduceAsWritten(body));
      case _ =>
    }
  }

  lemma {:induction false} StarAsWrittenSound(body: Regex, b: Regex)
    requires Size(b) <= Size(body)
    requires Sub(b, body)
    ensures Sub(StarAsWritten(body, b), Star(body))
    decreases Size(body) + 1, 0
  {
    var out := StarAsWritten(body, b);
    forall w
      ensures Matches(Star(b), w) ==> Matches(Star(body), w)
    {
      StarMono(b, body, w);
    }
    if b == Zero || b.Eps? {
    } else if b.Star? {
      forall w | Matches(b.body, w)
        ensures Matches(Star(body), w)
      {
        BodyInStar(b.body, w);
        BodyInStar(b, w);
      }
    } else if b.Alt? && HasEps(b.alts) {
      var thinned := DropEps(b.alts);
      assert Size(Star(Alt(thinned))) == 2 + SizeAll(thinned);
      ReduceAsWrittenSound(Star(Alt(thinned)));
      forall w
        ensures Matches(Star(Alt(thinned)), w) ==> Matches(Star(b), w)
      {
        assert Sub(Alt(thinned), b) by {
          forall u | Matches(Alt(thinned), u)
            ensures Matches(b, u)
          {
            var i :| 0 <= i < |thinned| && Matches(thinned[i], u);
            assert thinned[i] in b.alts;
          }
        }
        StarMono(Alt(thinned), b, w);
      }
    }
  }

  // The corrected simplifier preserves the language.

  lemma ReduceAltPreserves(data: seq<Regex>, w: string)
    requires forall i :: 0 <= i < |data| ==> Equiv(Reduce(data[i]), data[i])
    ensures Matches(CollapseAlt(ReduceAll(data)), w) <==> Matches(Alt(data), w)
  {
    var reduced := ReduceAll(data);
    forall i | 0 <= i < |data|
      ensures Equiv(reduced[i], data[i])
    {
      ReduceAllAt(data, i);
    }
    CollapseAltMatches(reduced, w);
    AltCongruence(reduced, data, w);
  }

  lemma ReduceCatPreserves(data: seq<Regex>, w: string)
    requires forall i :: 0 <= i < |data| ==> Equiv(Reduce(data[i]), data[i])
    ensures Matches(CollapseCat(ReduceAll(data)), w) <==> MatchesCat(data, w)
  {
    var reduced := ReduceAll(data);
    forall i | 0 <= i < |data|
      ensures Equiv(reduced[i], data[i])
    {
      ReduceAllAt(data, i);
    }
    CollapseCatMatches(reduced, w);
    CatCongruence(reduced, data, w);
  }

  /** The corrected simplifier denotes exactly the language of its input. */
  lemma {:induction false} ReducePreserves(r: Regex)
    ensures Equiv(Reduce(r), r)
    decreases Size(r), 1
  {
    if r == Zero {
    } else if IsEps(r) {
      forall w
        ensures Matches(Eps, w) <==> Matches(r, w)
      {
        EpsMatchesEmpty(r, w);
      }
    } else {
      match r
      case Alt(data) =>
        forall i | 0 <= i < |data|
          ensures Equiv(Reduce(data[i]), data[i])
        {
          SizeElem(data, i);
          ReducePreserves(data[i]);
        }
        forall w
          ensures Matches(Reduce(r), w) <==> Matches(r, w)
        {
          ReduceAltPreserves(data, w);
        }
      case Cat(data) =>
        forall i | 0 <= i < |data|
          ensures Equiv(Reduce(data[i]), data[i])
        {
          SizeElem(data, i);
          ReducePreserves(data[i]);
        }
        forall w
          ensures Matches(Reduce(r), w) <==> Matches(r, w)
        {
          ReduceCatPreserves(data, w);
        }
      case Star(body) =>
        ReducePreserves(body);
        StarRulePreserves(body, Reduce(body));
      case _ =>
    }
  }

  /** Removing the epsilon alternatives changes an alternation only on the empty word. */
  lemma ThinnedEquivNonEmpty(alts: seq<Regex>)
    ensures EquivNonEmpty(Alt(DropEps(alts)), Alt(alts))
  {
    var thinned := DropEps(alts);
    forall u | u != [] && Matches(Alt(alts), u)
      ensures Matches(Alt(thinned), u)
    {
      var i :| 0 <= i < |alts| && Matches(alts[i], u);
      if IsEps(alts[i]) {
        EpsMatchesEmpty(alts[i], u);
      }
      assert alts[i] in thinned;
      var j :| 0 <= j < |thinned| && thinned[j] == alts[i];
    }
    forall u | Matches(Alt(thinned), u)
      ensures Matches(Alt(alts), u)
    {
      var i :| 0 <= i < |thinned| && Matches(thinned[i], u);
      assert thinned[i] in alts;
    }
  }

  lemma {:induction false} StarRulePreserves(body: Regex, b: Regex)
    requires Size(b) <= Size(body)
    requires Equiv(b, body)
    ensures Equiv(StarRule(body, b), Star(body))
    decreases Size(body) + 1, 0
  {
    forall w
      ensures Matches(Star(b), w) <==> Matches(Star(body), w)
    {
      StarCongruence(b, body, w);
    }
    if b == Zero || b.Eps? {
      forall w
        ensures Matches(Eps, w) <==> Matches(Star(b), w)
      {
        if b == Zero {
          forall u | u != [] ensures !Matches(b, u) { ZeroMatchesNothing(u); }
        }
        StarOfNullable(b, w);
      }
    } else if b.Star? {
      forall w
        ensures Matches(b, w) <==> Matches(Star(b), w)
      {
        StarStar(b.body, w);
      }
    } else if b.Alt? && HasEps(b.alts) {
      var thinned := DropEps(b.alts);
      assert Size(Star(Alt(thinned))) == 2 + SizeAll(thinned);
      ReducePreserves(Star(Alt(thinned)));
      ThinnedEquivNonEmpty(b.alts);
      forall w
        ensures Matches(Star(Alt(thinned)), w) <==> Matches(Star(b), w)
      {
        StarCongruence(Alt(thinned), b, w);
      }
    }
  }

  // The corrected simplifier is idempotent.

  lemma {:induction false} DropZerosNone(xs: seq<Regex>)
    requires Zero !in xs
    ensures DropZeros(xs) == xs
    decreases |xs|
  {
    if xs != [] {
      assert xs[0] in xs;
      assert forall y :: y in xs[1..] ==> y in xs;
      DropZerosNone(xs[1..]);
      assert xs == [xs[0]] + xs[1..];
    }
  }

  lemma {:induction false} DropEpsNone(xs: seq<Regex>)
    requires forall i :: 0 <= i < |xs| ==> !IsEps(xs[i])
    ensures DropEps(xs) == xs
    decreases |xs|
  {
    if xs != [] {
      assert forall i :: 0 <= i < |xs[1..]| ==> xs[1..][i] == xs[i + 1];
      DropEpsNone(xs[1..]);
      assert xs == [xs[0]] + xs[1..];
    }
  }

  lemma {:induction false} DropEpsSnocEps(xs: seq<Regex>)
    ensures DropEps(xs + [Eps]) == DropEps(xs)
    decreases |xs|
  {
    if xs == [] {
      assert [Eps][1..] == [];
    } else {
      assert (xs + [Eps])[1..] == xs[1..] + [Eps];
      DropEpsSnocEps(xs[1..]);
    }
  }

  lemma ReduceAllFixed(xs: seq<Regex>)
    requires forall i :: 0 <= i < |xs| ==> Reduce(xs[i]) == xs[i]
    ensures ReduceAll(xs) == xs
  {
    forall i | 0 <= i < |xs|
      ensures ReduceAll(xs)[i] == xs[i]
    {
      ReduceAllAt(xs, i);
    }
  }

  /** A list already in the shape `AltKept` produces is kept as it is. */
  lemma AltKeptStable(kept: seq<Regex>)
    requires Zero !in kept
    requires forall i :: 0 <= i < |kept| - 1 ==> !IsEps(kept[i])
    requires |kept| > 0 && IsEps(kept[|kept| - 1]) ==> kept[|kept| - 1] == Eps
    ensures AltKept(kept) == kept
  {
    DropZerosNone(kept);
    if |kept| > 0 && IsEps(kept[|kept| - 1]) {
      var init := kept[..|kept| - 1];
      assert kept == init + [Eps];
      assert forall i :: 0 <= i < |init| ==> init[i] == kept[i];
      DropEpsNone(init);
      DropEpsSnocEps(init);
      assert HasEps(kept);
    } else {
      DropEpsNone(kept);
      assert !HasEps(kept);
    }
  }

  lemma AltKeptFixed(reduced: seq<Regex>)
    requires forall i :: 0 <= i < |reduced| ==> Reduce(reduced[i]) == reduced[i]
    ensures forall i :: 0 <= i < |AltKept(reduced)| ==> Reduce(AltKept(reduced)[i]) == AltKept(reduced)[i]
  {
    var kept := AltKept(reduced);
    forall i | 0 <= i < |kept|
      ensures Reduce(kept[i]) == kept[i]
    {
      assert kept[i] in kept;
      if kept[i] != Eps {
        var j :| 0 <= j < |reduced| && reduced[j] == kept[i];
      }
    }
  }

  /** An alternation in the shape `AltKept` produces, of fixed points, is a fixed point. */
  lemma AltOfKeptFixed(kept: seq<Regex>)
    requires |kept| >= 2
    requires forall i :: 0 <= i < |kept| ==> Reduce(kept[i]) == kept[i]
    requires AltKept(kept) == kept
    ensures Reduce(Alt(kept)) == Alt(kept)
  {
    ReduceAllFixed(kept);
    assert Alt(kept) != Zero && !IsEps(Alt(kept));
    assert Reduce(Alt(kept)) == CollapseAlt(ReduceAll(kept));
  }

  /** The `|` rule gives a fixed point when every reduced child is one. */
  lemma CollapseAltFixed(reduced: seq<Regex>)
    requires forall i :: 0 <= i < |reduced| ==> Reduce(reduced[i]) == reduced[i]
    ensures Reduce(CollapseAlt(reduced)) == CollapseAlt(reduced)
  {
    var kept := AltKept(reduced);
    AltKeptFixed(reduced);
    if |kept| >= 2 {
      assert Zero !in kept;
      AltKeptStable(kept);
      AltOfKeptFixed(kept);
    }
  }

  /** The `.` rule gives a fixed point when every reduced child is one. */
  lemma CollapseCatFixed(reduced: seq<Regex>)
    requires forall i :: 0 <= i < |reduced| ==> Reduce(reduced[i]) == reduced[i]
    ensures Reduce(CollapseCat(reduced)) == CollapseCat(reduced)
  {
    var rest := DropEps(reduced);
    assert forall i :: 0 <= i < |rest| ==> Reduce(rest[i]) == rest[i] && !IsEps(rest[i]) by {
      forall i | 0 <= i < |rest|
        ensures Reduce(rest[i]) == rest[i] && !IsEps(rest[i])
      {
        assert rest[i] in rest;
        var j :| 0 <= j < |reduced| && reduced[j] == rest[i];
      }
    }
    if Zero !in rest && |rest| >= 2 {
      ReduceAllFixed(rest);
      DropEpsNone(rest);
      assert CollapseCat(reduced) == Cat(rest);
      assert Cat(rest) != Zero && !IsEps(Cat(rest));
    }
  }

  /** Simplifying twice gives what simplifying once gives. */
  lemma {:induction false} ReduceIdempotent(r: Regex)
    ensures Reduce(Reduce(r)) == Reduce(r)
    decreases Size(r), 1
  {
    if r != Zero && !IsEps(r) {
      match r
      case Alt(data) =>
        ReduceAllIdempotent(data);
        CollapseAltFixed(ReduceAll(data));
      case Cat(data) =>
        ReduceAllIdempotent(data);
        CollapseCatFixed(ReduceAll(data));
      case Star(body) =>
        ReduceIdempotent(body);
        StarRuleIdempotent(body, Reduce(body));
      case _ =>
    }
  }

  lemma ReduceAllIdempotent(data: seq<Regex>)
    ensures forall i :: 0 <= i < |data| ==> Reduce(ReduceAll(data)[i]) == ReduceAll(data)[i]
    decreases SizeAll(data) + 1, 0
  {
    forall i | 0 <= i < |data|
      ensures Reduce(ReduceAll(data)[i]) == ReduceAll(data)[i]
    {
      ReduceAllAt(data, i);
      SizeElem(data, i);
      ReduceIdempotent(data[i]);
    }
  }

  lemma {:induction false} StarRuleIdempotent(body: Regex, b: Regex)
    requires Size(b) <= Size(body)
    requires b == Reduce(body) && Reduce(b) == b
    ensures Reduce(StarRule(body, b)) == StarRule(body, b)
    decreases Size(body) + 1, 0
  {
    if b.Alt? && HasEps(b.alts) {
      var t := Star(Alt(DropEps(b.alts)));
      StarRuleThinned(body, b);
      ReduceIdempotent(t);
    } else {
      StarRuleOtherFixed(body, b);
    }
  }

  /** On an alternation with an epsilon, the `*` rule simplifies the star of the alternation
      without its epsilons, a tree no larger than the starred one. */
  lemma StarRuleThinned(body: Regex, b: Regex)
    requires Size(b) <= Size(body) && b.Alt? && HasEps(b.alts)
    ensures Size(Star(Alt(DropEps(b.alts)))) < Size(body) + 1
    ensures StarRule(body, b) == Reduce(Star(Alt(DropEps(b.alts))))
  {
    var thinned := DropEps(b.alts);
    assert Size(Star(Alt(thinned))) == 2 + SizeAll(thinned);
  }

  /** The `*` rule on any fixed body other than an alternation with an epsilon gives a
      fixed point. */
  lemma StarRuleOtherFixed(body: Regex, b: Regex)
    requires Size(b) <= Size(body)
    requires b == Reduce(body) && Reduce(b) == b
    requires !(b.Alt? && HasEps(b.alts))
    ensures Reduce(StarRule(body, b)) == StarRule(body, b)
  {
    if b == Zero || b.Eps? || b.Star? {
    } else if b.Alt? || b.Cat? {
      StarOfFixed(b);
      assert StarRule(body, b) == Star(b);
    }
  }

  /** The star of a fixed alternation without epsilons, or of a fixed concatenation, is fixed. */
  lemma StarOfFixed(b: Regex)
    requires Reduce(b) == b
    requires (b.Alt? && !HasEps(b.alts)) || b.Cat?
    requires b != Zero
    ensures Reduce(Star(b)) == Star(b)
  {
    assert Reduce(Cat([])) == Eps;
    assert Reduce(Star(b)) == StarRule(b, Reduce(b));
  }

  // The rules, one by one, as the program codes them.

  /** The empty language maps to itself and both spellings of epsilon map to `Eps`. */
  lemma ReduceAsWrittenConstants()
    ensures ReduceAsWritten(Zero) == Zero
    ensures ReduceAsWritten(Eps) == Eps && ReduceAsWritten(Cat([])) == Eps
  {
  }

  /** A concatenation with a part that reduces to the empty language reduces to it. */
  lemma ReduceAsWrittenCatZero(data: seq<Regex>, i: nat)
    requires i < |data| && ReduceAsWritten(data[i]) == Zero
    ensures ReduceAsWritten(Cat(data)) == Zero
  {
    ReduceAllAsWrittenAt(data, i);
    assert ReduceAllAsWritten(data)[i] in ReduceAllAsWritten(data);
  }

  /** An alternation keeps exactly the children of `AltKept` on its reduced children: one
      child is returned unwrapped, none gives the empty language. */
  lemma ReduceAsWrittenAlt(data: seq<Regex>)
    requires data != []
    ensures var kept := AltKept(ReduceAllAsWritten(data));
      ReduceAsWritten(Alt(data)) == (if |kept| == 1 then kept[0] else Alt(kept))
  {
  }

  /** The star rules on an empty, epsilon or starred body. */
  lemma ReduceAsWrittenStar(body: Regex)
    ensures ReduceAsWritten(body) == Zero ==> ReduceAsWritten(Star(body)) == Zero
    ensures ReduceAsWritten(body) == Eps ==> ReduceAsWritten(Star(body)) == Eps
    ensures ReduceAsWritten(body).Star? ==> ReduceAsWritten(Star(body)) == ReduceAsWritten(body).body
  {
  }

  /** The corrected star rules: the star of an empty body is epsilon and a starred body
      keeps its one star. */
  lemma ReduceStar(body: Regex)
    ensures Reduce(body) == Zero ==> Reduce(Star(body)) == Eps
    ensures Reduce(body) == Eps ==> Reduce(Star(body)) == Eps
    ensures Reduce(body).Star? ==> Reduce(Star(body)) == Reduce(body)
  {
  }

  // Where the program's star rules change the language.

  /** `(a*)*`, as parsed, reduces to `a`, which no longer matches the empty word. */
  lemma StarStarLosesStar(r: Regex)
    requires r == Star(Alt([Cat([Star(Tok('a'))])]))
    ensures ReduceAsWritten(r) == Tok('a')
    ensures Matches(r, []) && !Matches(ReduceAsWritten(r), [])
  {
    var c := Cat([Star(Tok('a'))]);
    assert ReduceAsWritten(Star(Tok('a'))) == Star(Tok('a'));
    assert ReduceAllAsWritten([Star(Tok('a'))]) == [Star(Tok('a'))];
    assert ReduceAsWritten(c) == Star(Tok('a'));
    assert ReduceAllAsWritten([c]) == [Star(Tok('a'))];
    assert AltKept([Star(Tok('a'))]) == [Star(Tok('a'))];
    assert ReduceAsWritten(Alt([c])) == Star(Tok('a'));
  }

  /** The corrected simplifier reduces `(a*)*` to `a*`. */
  lemma StarStarKeepsStar(r: Regex)
    requires r == Star(Alt([Cat([Star(Tok('a'))])]))
    ensures Reduce(r) == Star(Tok('a'))
  {
    var c := Cat([Star(Tok('a'))]);
    assert Reduce(Star(Tok('a'))) == Star(Tok('a'));
    assert ReduceAll([Star(Tok('a'))]) == [Star(Tok('a'))];
    assert Reduce(c) == Star(Tok('a'));
    assert ReduceAll([c]) == [Star(Tok('a'))];
    assert AltKept([Star(Tok('a'))]) == [Star(Tok('a'))];
    assert Reduce(Alt([c])) == Star(Tok('a'));
  }

  /** The star of the empty language reduces to the empty language, which does not match the
      empty word; corrected, to epsilon. */
  lemma StarZeroLosesEmptyWord()
    ensures ReduceAsWritten(Star(Zero)) == Zero
    ensures Matches(Star(Zero), []) && !Matches(Zero, [])
    ensures Reduce(Star(Zero)) == Eps
  {
  }

  /** The program's simplifier is not idempotent: `(a)**` reduces to `(a)`, which reduces
      further to `a`. */
  lemma ReduceAsWrittenNotIdempotent(a: Regex)
    requires a == Alt([Tok('a')])
    ensures ReduceAsWritten(Star(Star(a))) == a
    ensures ReduceAsWritten(a) == Tok('a') != a
  {
    assert ReduceAllAsWritten([Tok('a')]) == [Tok('a')];
    assert AltKept([Tok('a')]) == [Tok('a')];
    assert ReduceAsWritten(Star(a)) == Star(a);
  }
}
