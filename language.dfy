/** Facts about the languages of regular expressions that the simplifier relies on:
    the empty alternation matches nothing, an epsilon matches only the empty word,
    equivalent parts give equivalent wholes, and the star laws e** = e*, (% | e)* = e*,
    %* = 0* = %. */
module Language {
  import opened Regex

  /** `a` and `b` denote the same language. */
  ghost predicate Equiv(a: Regex, b: Regex) {
    forall w :: Matches(a, w) <==> Matches(b, w)
  }

  /** Every word of `a` is a word of `b`. */
  ghost predicate Sub(a: Regex, b: Regex) {
    forall w :: Matches(a, w) ==> Matches(b, w)
  }

  /** Every non-empty word of `a` is a word of `b`. */
  ghost predicate SubNonEmpty(a: Regex, b: Regex) {
    forall w :: w != [] && Matches(a, w) ==> Matches(b, w)
  }

  /** `a` and `b` agree on every non-empty word; a star cannot tell them apart. */
  ghost predicate EquivNonEmpty(a: Regex, b: Regex) {
    forall w :: w != [] ==> (Matches(a, w) <==> Matches(b, w))
  }

  /** The two spellings of epsilon in the program: `('eps', '%')` and `('.', [])`. */
  predicate IsEps(x: Regex) {
    x == Eps || x == Cat([])
  }

  lemma ZeroMatchesNothing(w: string)
    ensures !Matches(Zero, w)
  {
  }

  lemma EpsMatchesEmpty(x: Regex, w: string)
    requires IsEps(x)
    ensures Matches(x, w) <==> w == []
  {
    if x == Cat([]) {
      assert Matches(x, w) == MatchesCat([], w);
    }
  }

  lemma AltSingle(x: Regex, w: string)
    ensures Matches(Alt([x]), w) <==> Matches(x, w)
  {
    if Matches(x, w) {
      assert Matches(Alt([x]).alts[0], w);
    }
  }

  lemma CatSingle(x: Regex, w: string)
    ensures Matches(Cat([x]), w) <==> Matches(x, w)
  {
    assert [x][1..] == [];
    if Matches(x, w) {
      assert w[..|w|] == w;
      assert MatchesCat([x][1..], w[|w|..]);
    }
    if MatchesCat([x], w) {
      var k :| 0 <= k <= |w| && Matches(x, w[..k]) && MatchesCat([], w[k..]);
      assert w[..k] == w;
    }
  }

  lemma CatEmpty(w: string)
    ensures Matches(Cat([]), w) <==> Matches(Eps, w)
  {
  }

  /** Alternation is monotone: pointwise smaller lists give a smaller alternation. */
  lemma AltMono(xs: seq<Regex>, ys: seq<Regex>, w: string)
    requires |xs| == |ys|
    requires forall i :: 0 <= i < |xs| ==> Sub(xs[i], ys[i])
    ensures Matches(Alt(xs), w) ==> Matches(Alt(ys), w)
  {
    if Matches(Alt(xs), w) {
      var i :| 0 <= i < |xs| && Matches(xs[i], w);
      assert Matches(ys[i], w);
    }
  }

  /** Concatenation is monotone in every part. */
  lemma {:induction false} CatMono(xs: seq<Regex>, ys: seq<Regex>, w: string)
    requires |xs| == |ys|
    requires forall i :: 0 <= i < |xs| ==> Sub(xs[i], ys[i])
    ensures MatchesCat(xs, w) ==> MatchesCat(ys, w)
    decreases |xs|
  {
    if xs != [] && MatchesCat(xs, w) {
      var k :| 0 <= k <= |w| && Matches(xs[0], w[..k]) && MatchesCat(xs[1..], w[k..]);
      assert Sub(xs[0], ys[0]);
      assert forall i :: 0 <= i < |xs[1..]| ==> xs[1..][i] == xs[i + 1] && ys[1..][i] == ys[i + 1];
      CatMono(xs[1..], ys[1..], w[k..]);
      assert Matches(ys[0], w[..k]);
    }
  }

  /** Alternations of pointwise-equivalent lists are equivalent. */
  lemma AltCongruence(xs: seq<Regex>, ys: seq<Regex>, w: string)
    requires |xs| == |ys|
    requires forall i :: 0 <= i < |xs| ==> Equiv(xs[i], ys[i])
    ensures Matches(Alt(xs), w) <==> Matches(Alt(ys), w)
  {
    AltMono(xs, ys, w);
    AltMono(ys, xs, w);
  }

  /** Concatenations of pointwise-equivalent lists are equivalent. */
  lemma CatCongruence(xs: seq<Regex>, ys: seq<Regex>, w: string)
    requires |xs| == |ys|
    requires forall i :: 0 <= i < |xs| ==> Equiv(xs[i], ys[i])
    ensures MatchesCat(xs, w) <==> MatchesCat(ys, w)
  {
    CatMono(xs, ys, w);
    CatMono(ys, xs, w);
  }

  /** A concatenation with an empty-language part matches nothing. */
  lemma {:induction false} CatWithZero(xs: seq<Regex>, w: string)
    requires Zero in xs
    ensures !MatchesCat(xs, w)
    decreases |xs|
  {
    if MatchesCat(xs, w) {
      var k :| 0 <= k <= |w| && Matches(xs[0], w[..k]) && MatchesCat(xs[1..], w[k..]);
      if xs[0] == Zero {
        ZeroMatchesNothing(w[..k]);
      } else {
        assert Zero in xs[1..];
        CatWithZero(xs[1..], w[k..]);
      }
    }
  }

  /** Prepending an epsilon part leaves a concatenation's language unchanged. */
  lemma CatConsEps(x: Regex, xs: seq<Regex>, w: string)
    requires IsEps(x)
    ensures MatchesCat([x] + xs, w) <==> MatchesCat(xs, w)
  {
    var ys := [x] + xs;
    assert ys[1..] == xs;
    if MatchesCat(ys, w) {
      var k :| 0 <= k <= |w| && Matches(x, w[..k]) && MatchesCat(xs, w[k..]);
      EpsMatchesEmpty(x, w[..k]);
      assert w[k..] == w;
    }
    if MatchesCat(xs, w) {
      EpsMatchesEmpty(x, w[..0]);
      assert w[0..] == w;
    }
  }

  /** Replacing the tail of a concatenation by an equivalent list leaves it unchanged. */
  lemma CatConsTail(x: Regex, xs: seq<Regex>, ys: seq<Regex>, w: string)
    requires forall u :: MatchesCat(xs, u) <==> MatchesCat(ys, u)
    ensures MatchesCat([x] + xs, w) <==> MatchesCat([x] + ys, w)
  {
    assert ([x] + xs)[1..] == xs;
    assert ([x] + ys)[1..] == ys;
    if MatchesCat([x] + xs, w) {
      var k :| 0 <= k <= |w| && Matches(x, w[..k]) && MatchesCat(xs, w[k..]);
      assert MatchesCat(ys, w[k..]);
    }
    if MatchesCat([x] + ys, w) {
      var k :| 0 <= k <= |w| && Matches(x, w[..k]) && MatchesCat(ys, w[k..]);
      assert MatchesCat(xs, w[k..]);
    }
  }

  /** Star is monotone, and only the non-empty words of its body matter. */
  lemma {:induction false} StarMono(a: Regex, b: Regex, w: string)
    requires SubNonEmpty(a, b)
    ensures Matches(Star(a), w) ==> Matches(Star(b), w)
    decreases |w|
  {
    if w != [] && Matches(Star(a), w) {
      var k :| 1 <= k <= |w| && Matches(a, w[..k]) && Matches(Star(a), w[k..]);
      StarMono(a, b, w[k..]);
      assert w[..k] != [] by { assert w[..k][0] == w[0]; }
      assert Matches(b, w[..k]);
    }
  }

  /** Stars of bodies that agree on non-empty words are equivalent. */
  lemma StarCongruence(a: Regex, b: Regex, w: string)
    requires EquivNonEmpty(a, b)
    ensures Matches(Star(a), w) <==> Matches(Star(b), w)
  {
    StarMono(a, b, w);
    StarMono(b, a, w);
  }

  /** A star over a body with no non-empty word matches only the empty word. */
  lemma StarOfNullable(a: Regex, w: string)
    requires forall u :: u != [] ==> !Matches(a, u)
    ensures Matches(Star(a), w) <==> w == []
  {
    if w != [] {
      forall k | 1 <= k <= |w|
        ensures !Matches(a, w[..k])
      {
        assert |w[..k]| == k;
      }
    }
  }

  /** Star languages are closed under concatenation. */
  lemma {:induction false} StarAppend(b: Regex, u: string, v: string)
    requires Matches(Star(b), u) && Matches(Star(b), v)
    ensures Matches(Star(b), u + v)
    decreases |u|
  {
    if u == [] {
      assert u + v == v;
    } else {
      var k :| 1 <= k <= |u| && Matches(b, u[..k]) && Matches(Star(b), u[k..]);
      StarAppend(b, u[k..], v);
      assert (u + v)[..k] == u[..k];
      assert (u + v)[k..] == u[k..] + v;
    }
  }

  /** The star of a star is the star: e** = e*. */
  lemma {:induction false} StarStar(b: Regex, w: string)
    ensures Matches(Star(Star(b)), w) <==> Matches(Star(b), w)
    decreases |w|
  {
    if w != [] {
      if Matches(Star(Star(b)), w) {
        var k :| 1 <= k <= |w| && Matches(Star(b), w[..k]) && Matches(Star(Star(b)), w[k..]);
        StarStar(b, w[k..]);
        StarAppend(b, w[..k], w[k..]);
        assert w[..k] + w[k..] == w;
      }
      if Matches(Star(b), w) {
        assert w[..|w|] == w;
        assert Matches(Star(Star(b)), w[|w|..]);
      }
    }
  }
}
