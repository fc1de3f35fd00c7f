/** The renumbering and the state elimination of regex_enumerate/nfa.py (`reconstruct`):
    the state-sets of the DFA are numbered 1..n in order of first appearance, the start set
    first; the edges are renumbered, deduplicated and sorted; and `R(i, j, k)` is Kleene's
    expression for the words leading from state `i` to state `j` through states `1..k`. */
module Reconstruct {
  import opened Regex
  import opened Subsets

  /** A renumbered DFA edge `(i, j, c)`. */
  type NEdge = (nat, nat, char)

  /** Python's order on `(int, int, str)` tuples: lexicographic, characters by code point. */
  predicate Less(a: NEdge, b: NEdge) {
    a.0 < b.0 || (a.0 == b.0 && (a.1 < b.1 || (a.1 == b.1 && a.2 < b.2)))
  }

  predicate StrictlySorted(xs: seq<NEdge>) {
    forall a, b :: 0 <= a < b < |xs| ==> Less(xs[a], xs[b])
  }

  /** What `reconstruct` returns besides `R`: the sorted edges, the accepting ids and `n`. */
  datatype Renumbered = Renumbered(edges: seq<NEdge>, accepts: set<nat>, n: nat)

  /** Every state-set an edge of `dfa` touches. */
  function Touched(dfa: seq<DEdge>): set<set<nat>> {
    (set k | 0 <= k < |dfa| :: dfa[k].0) + (set k | 0 <= k < |dfa| :: dfa[k].1)
  }

  predicate Distinct<T(==)>(xs: seq<T>) {
    forall a, b :: 0 <= a < b < |xs| ==> xs[a] != xs[b]
  }

  function Elements<T>(xs: seq<T>): set<T> {
    set k | 0 <= k < |xs| :: xs[k]
  }

  lemma ElementsAppend<T>(xs: seq<T>, x: T)
    ensures Elements(xs + [x]) == Elements(xs) + {x}
  {
    var ys := xs + [x];
    assert forall k :: 0 <= k < |xs| ==> ys[k] == xs[k];
    assert ys[|xs|] == x;
  }

  lemma DistinctAppend<T>(xs: seq<T>, x: T)
    requires Distinct(xs) && x !in Elements(xs)
    ensures Distinct(xs + [x])
  {
    var ys := xs + [x];
    forall a, b | 0 <= a < b < |ys|
      ensures ys[a] != ys[b]
    {
      assert ys[a] == xs[a] && xs[a] in Elements(xs);
      if b < |xs| {
        assert ys[b] == xs[b];
      }
    }
  }

  lemma LessTrans(a: NEdge, b: NEdge, c: NEdge)
    requires Less(a, b) && Less(b, c)
    ensures Less(a, c)
  {
  }

  lemma LessTotal(a: NEdge, b: NEdge)
    requires a != b
    ensures Less(a, b) || Less(b, a)
  {
  }

  /** The list `states`: the start set, then every state-set of `dfa` at its first appearance. */
  method ListStates(start: set<nat>, dfa: seq<DEdge>) returns (states: seq<set<nat>>)
    ensures |states| >= 1 && states[0] == start
    ensures Distinct(states)
    ensures Elements(states) == {start} + Touched(dfa)
  {
    states := [start];
    var seen := {start};
    for idx := 0 to |dfa|
      invariant |states| >= 1 && states[0] == start && Distinct(states)
      invariant seen == Elements(states) == {start} + Touched(dfa[..idx])
    {
      var (p, q, c) := dfa[idx];
      if p !in seen {
        ElementsAppend(states, p);
        states := states + [p];
      }
      seen := seen + {p};
      if q !in seen {
        ElementsAppend(states, q);
        states := states + [q];
      }
      seen := seen + {q};
      TouchedNext(dfa, idx);
    }
    assert dfa[..|dfa|] == dfa;
  }

  lemma TouchedNext(dfa: seq<DEdge>, idx: nat)
    requires idx < |dfa|
    ensures Touched(dfa[..idx + 1]) == Touched(dfa[..idx]) + {dfa[idx].0, dfa[idx].1}
  {
    var d, d' := dfa[..idx], dfa[..idx + 1];
    assert forall k :: 0 <= k < idx ==> d'[k] == d[k];
    assert d'[idx] == dfa[idx];
  }

  /** The ids `hash` and the accepting ids: `states[i]` gets id `i + 1`, which accepts when the
      NFA's accepting state is in it. */
  method Number(states: seq<set<nat>>, finalAtom: nat) returns (ids: map<set<nat>, nat>, accepts: set<nat>)
    requires Distinct(states)
    ensures ids.Keys == Elements(states)
    ensures forall i :: 0 <= i < |states| ==> ids[states[i]] == i + 1
    ensures accepts == set i | 0 <= i < |states| && finalAtom in states[i] :: i + 1
  {
    ids := map[];
    accepts := {};
    for i := 0 to |states|
      invariant ids.Keys == Elements(states[..i])
      invariant forall k :: 0 <= k < i ==> ids[states[k]] == k + 1
      invariant accepts == set k | 0 <= k < i && finalAtom in states[k] :: k + 1
    {
      assert Elements(states[..i + 1]) == Elements(states[..i]) + {states[i]} by {
        assert forall k :: 0 <= k < i ==> states[..i + 1][k] == states[..i][k];
        assert states[..i + 1][i] == states[i];
      }
      ids := ids[states[i] := i + 1];
      if finalAtom in states[i] {
        accepts := accepts + {i + 1};
      }
    }
    assert states[..|states|] == states;
  }

  /** `m` is the least element of `s`. */
  predicate IsMin(m: NEdge, s: set<NEdge>) {
    m in s && forall y :: y in s && y != m ==> Less(m, y)
  }

  /** Every element of `xs` is below every element of `s`. */
  predicate Below(xs: seq<NEdge>, s: set<NEdge>) {
    forall a, y :: 0 <= a < |xs| && y in s ==> Less(xs[a], y)
  }

  /** `sorted(s)` for a set of edges: strictly increasing, with exactly the elements of `s`. */
  method Sort(s: set<NEdge>) returns (xs: seq<NEdge>)
    ensures StrictlySorted(xs) && Elements(xs) == s && |xs| == |s|
  {
    xs := [];
    var rest := s;
    while rest != {}
      invariant rest <= s && Elements(xs) == s - rest && |xs| + |rest| == |s|
      invariant StrictlySorted(xs) && Below(xs, rest)
      decreases rest
    {
      MinimumExists(rest);
      var m :| IsMin(m, rest);
      SortStep(xs, rest, m);
      ElementsAppend(xs, m);
      xs := xs + [m];
      rest := rest - {m};
    }
  }

  lemma SortStep(xs: seq<NEdge>, rest: set<NEdge>, m: NEdge)
    requires StrictlySorted(xs) && Below(xs, rest) && IsMin(m, rest)
    ensures StrictlySorted(xs + [m]) && Below(xs + [m], rest - {m})
  {
    var ys := xs + [m];
    forall a, b | 0 <= a < b < |ys| ensures Less(ys[a], ys[b]) {
      if b < |xs| {
        assert ys[a] == xs[a] && ys[b] == xs[b];
      } else {
        assert ys[a] == xs[a] && ys[b] == m;
      }
    }
    forall a, y | 0 <= a < |ys| && y in rest - {m} ensures Less(ys[a], y) {
      if a < |xs| {
        assert ys[a] == xs[a];
      }
    }
  }

  lemma MinimumExists(s: set<NEdge>)
    requires s != {}
    ensures exists m :: IsMin(m, s)
    decreases s
  {
    var x :| x in s;
    if s - {x} == {} {
      assert s == {x};
      assert IsMin(x, s);
    } else {
      MinimumExists(s - {x});
      var m :| IsMin(m, s - {x});
      if Less(x, m) {
        forall y | y in s && y != x ensures Less(x, y) {
          if y != m {
            LessTrans(x, m, y);
          }
        }
        assert IsMin(x, s);
      } else {
        LessTotal(x, m);
        assert IsMin(m, s);
      }
    }
  }

  /** `ids` numbers the state-sets `1..n` one to one. */
  ghost predicate Bijective(ids: map<set<nat>, nat>, n: nat) {
    && |ids| == n
    && (forall v :: v in ids.Values <==> 1 <= v <= n)
    && forall S1, S2 :: S1 in ids && S2 in ids && ids[S1] == ids[S2] ==> S1 == S2
  }

  /** `reconstruct(start, final_atom, dfa)`, with the renumbering `hash` it builds. */
  method Renumber(start: set<nat>, finalAtom: nat, dfa: seq<DEdge>) returns (r: Renumbered, ids: map<set<nat>, nat>)
    ensures ids.Keys == {start} + Touched(dfa)
    ensures start in ids && ids[start] == 1
    ensures Bijective(ids, r.n)
    ensures r.accepts == set S | S in ids && finalAtom in S :: ids[S]
    ensures StrictlySorted(r.edges)
    ensures Elements(r.edges) == set k | 0 <= k < |dfa| :: (ids[dfa[k].0], ids[dfa[k].1], dfa[k].2)
  {
    var states := ListStates(start, dfa);
    var accepts;
    ids, accepts := Number(states, finalAtom);
    var renamed := set k | 0 <= k < |dfa| :: (ids[dfa[k].0], ids[dfa[k].1], dfa[k].2);
    var edges := Sort(renamed);
    r := Renumbered(edges, accepts, |states|);
    NumberBijective(states, ids);
    NumberAccepts(states, ids, finalAtom);
  }

  /** Numbering a list without repetitions in order is one to one onto `1..|states|`. */
  lemma NumberBijective(states: seq<set<nat>>, ids: map<set<nat>, nat>)
    requires Distinct(states) && ids.Keys == Elements(states)
    requires forall i :: 0 <= i < |states| ==> ids[states[i]] == i + 1
    ensures Bijective(ids, |states|)
  {
    DistinctCard(states);
    assert |ids| == |ids.Keys|;
    forall v | v in ids.Values ensures 1 <= v <= |states| {
      var S :| S in ids && ids[S] == v;
      var a :| 0 <= a < |states| && states[a] == S;
    }
    forall v | 1 <= v <= |states| ensures v in ids.Values {
      assert ids[states[v - 1]] == v;
    }
    forall S1, S2 | S1 in ids && S2 in ids && ids[S1] == ids[S2] ensures S1 == S2 {
      var a :| 0 <= a < |states| && states[a] == S1;
      var b :| 0 <= b < |states| && states[b] == S2;
    }
  }

  /** The accepting ids are those of the state-sets holding the NFA's accepting state. */
  lemma NumberAccepts(states: seq<set<nat>>, ids: map<set<nat>, nat>, finalAtom: nat)
    requires ids.Keys == Elements(states)
    requires forall i :: 0 <= i < |states| ==> ids[states[i]] == i + 1
    ensures (set i | 0 <= i < |states| && finalAtom in states[i] :: i + 1)
            == set S | S in ids && finalAtom in S :: ids[S]
  {
    forall S | S in ids && finalAtom in S
      ensures ids[S] in set i | 0 <= i < |states| && finalAtom in states[i] :: i + 1
    {
      var a :| 0 <= a < |states| && states[a] == S;
    }
  }

  /** A list without repetitions has as many elements as its set. */
  lemma DistinctCard<T>(xs: seq<T>)
    requires Distinct(xs)
    ensures |Elements(xs)| == |xs|
  {
    if xs != [] {
      var init := xs[..|xs| - 1];
      assert Distinct(init);
      DistinctCard(init);
      assert Elements(xs) == Elements(init) + {xs[|xs| - 1]} by {
        assert forall k :: 0 <= k < |init| ==> xs[k] == init[k];
      }
      assert xs[|xs| - 1] !in Elements(init);
    }
  }

  // ---------------------------------------------------------------------------
  // Kleene's state elimination.

  /** The tokens on the direct edges `i -> j`, in the order of the sorted edge list. */
  function DirectTokens(edges: seq<NEdge>, i: nat, j: nat): (toks: seq<Regex>)
    ensures forall t :: t in toks ==> t.Tok?
    ensures forall c :: Tok(c) in toks <==> exists k :: 0 <= k < |edges| && edges[k] == (i, j, c)
  {
    if edges == [] then []
    else
      var e := edges[0];
      var tail := DirectTokens(edges[1..], i, j);
      assert forall k :: 1 <= k < |edges| ==> edges[k] == edges[1..][k - 1];
      if e.0 == i && e.1 == j then [Tok(e.2)] + tail else tail
  }

  /** `R(i, j, k)`: the words from `i` to `j` through intermediate states `1..k` only. */
  function R(edges: seq<NEdge>, i: nat, j: nat, k: nat): Regex
    decreases k
  {
    if k == 0 then
      Alt(DirectTokens(edges, i, j) + if i == j then [Eps] else [])
    else if k != i && k != j then
      Alt([R(edges, i, j, k - 1), Cat([R(edges, i, k, k - 1), Star(R(edges, k, k, k - 1)), R(edges, k, j, k - 1)])])
    else if k == i && k != j then
      Cat([Star(R(edges, i, i, k - 1)), R(edges, i, j, k - 1)])
    else
      Cat([R(edges, i, j, k - 1), Star(R(edges, j, j, k - 1))])
  }

  /** With no intermediate state, `R(i, j, 0)` matches exactly the one-letter words of the
      direct edges `i -> j`, and the empty word when `i = j`. */
  lemma RBase(edges: seq<NEdge>, i: nat, j: nat, w: string)
    ensures Matches(R(edges, i, j, 0), w)
            <==> (exists k :: 0 <= k < |edges| && edges[k].0 == i && edges[k].1 == j && w == [edges[k].2])
                 || (i == j && w == [])
  {
    var alts := DirectTokens(edges, i, j) + if i == j then [Eps] else [];
    var toks := DirectTokens(edges, i, j);
    if Matches(R(edges, i, j, 0), w) {
      var a :| 0 <= a < |alts| && Matches(alts[a], w);
      if a < |toks| {
        assert toks[a] in toks;
        var c := toks[a].c;
        assert Tok(c) in toks;
        var k :| 0 <= k < |edges| && edges[k] == (i, j, c);
        assert w == [edges[k].2];
      }
    }
    if exists k :: 0 <= k < |edges| && edges[k].0 == i && edges[k].1 == j && w == [edges[k].2] {
      var k :| 0 <= k < |edges| && edges[k].0 == i && edges[k].1 == j && w == [edges[k].2];
      var c := edges[k].2;
      assert edges[k] == (i, j, c);
      assert Tok(c) in toks;
      var a :| 0 <= a < |toks| && toks[a] == Tok(c);
      assert alts[a] == Tok(c);
    }
    if i == j && w == [] {
      assert alts[|toks|] == Eps;
    }
  }

  /** A concatenation matches the empty word exactly when each of its parts does. */
  lemma {:induction false} CatMatchesEmpty(rs: seq<Regex>)
    ensures MatchesCat(rs, []) <==> forall i :: 0 <= i < |rs| ==> Matches(rs[i], [])
  {
    if rs != [] {
      CatMatchesEmpty(rs[1..]);
      var e: string := [];
      assert e[..0] == [] && e[0..] == [];
      if forall i :: 0 <= i < |rs| ==> Matches(rs[i], []) {
        assert forall i :: 0 <= i < |rs[1..]| ==> rs[1..][i] == rs[i + 1];
      }
    }
  }

  /** `R(i, j, k)` matches the empty word exactly when `i = j`: every edge reads one token,
      so only the empty path reads nothing. */
  lemma {:induction false} REmpty(edges: seq<NEdge>, i: nat, j: nat, k: nat)
    ensures Matches(R(edges, i, j, k), []) <==> i == j
    decreases k
  {
    if k == 0 {
      RBase(edges, i, j, []);
    } else {
      REmpty(edges, i, j, k - 1);
      REmpty(edges, i, k, k - 1);
      REmpty(edges, k, j, k - 1);
      var loop := Star(R(edges, k, k, k - 1));
      assert Matches(loop, []);
      if k != i && k != j {
        var through := Cat([R(edges, i, k, k - 1), loop, R(edges, k, j, k - 1)]);
        CatMatchesEmpty(through.parts);
        assert !Matches(through, []) by {
          assert !Matches(through.parts[0], []);
        }
        var alts := [R(edges, i, j, k - 1), through];
        assert R(edges, i, j, k) == Alt(alts);
        if Matches(Alt(alts), []) {
          var a :| 0 <= a < 2 && Matches(alts[a], []);
          assert a == 0;
        }
        if i == j {
          assert Matches(alts[0], []);
        }
      } else if k == i && k != j {
        CatMatchesEmpty([Star(R(edges, i, i, k - 1)), R(edges, i, j, k - 1)]);
      } else {
        CatMatchesEmpty([R(edges, i, j, k - 1), Star(R(edges, j, j, k - 1))]);
      }
    }
  }
}
