/** The subset construction of regex_enumerate/nfa.py (`determinize`): DFA states are sets of
    NFA states closed under `%` edges, built depth first from the closure of the start state
    with a memo table keyed by the state-set, and the whole construction is re-run while the
    memo table keeps changing, at most ten extra times. */
module Subsets {
  import opened Regex
  import opened Thompson

  /** A DFA edge `(state, next, c)` between two sets of NFA states. */
  type DEdge = (set<nat>, set<nat>, char)

  /** What `determinize` returns: the start state-set, the NFA's accepting state and the edges. */
  datatype Dfa = Dfa(start: set<nat>, accept: nat, edges: seq<DEdge>)

  /** Every state an edge of `t` touches. */
  function Endpoints(t: set<Edge>): (ids: set<nat>)
    ensures forall e :: e in t ==> e.0 in ids && e.1 in ids
  {
    (set e | e in t :: e.0) + (set e | e in t :: e.1)
  }

  /** `C` is closed under the `%` edges of `t`. */
  predicate EpsClosed(t: set<Edge>, C: set<nat>) {
    forall e :: e in t && e.0 in C && e.2 == EpsChar ==> e.1 in C
  }

  /** The states one `c` edge of `t` leads to from a member of `S`. */
  function Step(t: set<Edge>, S: set<nat>, c: char): (T: set<nat>)
    ensures forall q :: q in T <==> exists e :: e in t && e.0 in S && e.2 == c && e.1 == q
  {
    set e | e in t && e.0 in S && e.2 == c :: e.1
  }

  /** `T` is the least set that contains `X` and is closed under `%` edges: the states
      reachable from `X` by `%` edges alone. */
  ghost predicate LeastClosed(t: set<Edge>, T: set<nat>, X: set<nat>) {
    && X <= T
    && EpsClosed(t, T)
    && forall C: set<nat> {:trigger EpsClosed(t, C)} :: X <= C && EpsClosed(t, C) ==> T <= C
  }

  /** A sound DFA edge: a real character, from a closed state-set to the closure of the
      states its character reaches. */
  ghost predicate SoundEdge(t: set<Edge>, e: DEdge) {
    e.2 != EpsChar && EpsClosed(t, e.0) && LeastClosed(t, e.1, Step(t, e.0, e.2))
  }

  ghost predicate AllSound(t: set<Edge>, edges: seq<DEdge>) {
    forall k :: 0 <= k < |edges| ==> SoundEdge(t, edges[k])
  }

  // ---------------------------------------------------------------------------
  // Facts about closures.

  /** The closure of a set of states is unique. */
  lemma LeastClosedUnique(t: set<Edge>, T1: set<nat>, T2: set<nat>, X: set<nat>)
    requires LeastClosed(t, T1, X) && LeastClosed(t, T2, X)
    ensures T1 == T2
  {
    assert T1 <= T2 && T2 <= T1;
  }

  /** The closure of a union is the union of the closures. */
  lemma LeastClosedUnion(t: set<Edge>, A: set<nat>, X: set<nat>, B: set<nat>, Y: set<nat>)
    requires LeastClosed(t, A, X) && LeastClosed(t, B, Y)
    ensures LeastClosed(t, A + B, X + Y)
  {
    forall C: set<nat> | X + Y <= C && EpsClosed(t, C) ensures A + B <= C {
      assert X <= C && Y <= C;
    }
  }

  lemma LeastClosedEmpty(t: set<Edge>)
    ensures LeastClosed(t, {}, {})
  {
  }

  /** The states of the NFA together with one more state are closed, so the closure of any
      of them stays inside. */
  lemma ClosureWithin(t: set<Edge>, T: set<nat>, X: set<nat>, U: set<nat>)
    requires LeastClosed(t, T, X) && X <= U && Endpoints(t) <= U
    ensures T <= U
  {
    assert EpsClosed(t, U);
  }

  /** Two edges with the same source and character have the same target: the DFA is
      deterministic. */
  lemma SoundDeterministic(t: set<Edge>, e1: DEdge, e2: DEdge)
    requires SoundEdge(t, e1) && SoundEdge(t, e2)
    requires e1.0 == e2.0 && e1.2 == e2.2
    ensures e1.1 == e2.1
  {
    LeastClosedUnique(t, e1.1, e2.1, Step(t, e1.0, e1.2));
  }

  lemma AllSoundAppend(t: set<Edge>, dfa: seq<DEdge>, rest: seq<DEdge>, e: DEdge)
    requires AllSound(t, dfa) && AllSound(t, rest) && SoundEdge(t, e)
    ensures AllSound(t, dfa + rest + [e])
  {
    var s := dfa + rest + [e];
    forall k | 0 <= k < |s| ensures SoundEdge(t, s[k]) {
      if k < |dfa| {
        assert s[k] == dfa[k];
      } else if k < |dfa| + |rest| {
        assert s[k] == rest[k - |dfa|];
      }
    }
  }

  // ---------------------------------------------------------------------------
  // The termination measure of the memo table: it only ever holds subsets of the NFA's states.

  /** All subsets of `U`. */
  ghost function PowerSet(U: set<nat>): (P: set<set<nat>>)
    ensures forall S :: S <= U ==> S in P
    decreases U
  {
    if U == {} then
      EmptyOnlySubset();
      {{}}
    else
      var x :| x in U;
      var Q := PowerSet(U - {x});
      PowerSetStep(U, x, Q);
      Q + set S | S in Q :: S + {x}
  }

  lemma EmptyOnlySubset()
    ensures forall S: set<nat> :: S <= {} ==> S in {{}}
  {
    forall S: set<nat> | S <= {} ensures S in {{}} {
      assert S == {};
    }
  }

  lemma PowerSetStep(U: set<nat>, x: nat, Q: set<set<nat>>)
    requires x in U && forall S :: S <= U - {x} ==> S in Q
    ensures forall S :: S <= U ==> S in Q + set S' | S' in Q :: S' + {x}
  {
    forall S | S <= U ensures S in Q + set S' | S' in Q :: S' + {x} {
      if x in S {
        assert S - {x} in Q;
        assert S == (S - {x}) + {x};
      } else {
        assert S <= U - {x};
      }
    }
  }

  lemma SubsetCard<T>(A: set<T>, B: set<T>)
    requires A <= B
    ensures |A| <= |B|
  {
    assert B == A + (B - A);
  }

  lemma ProperSubsetCard<T>(A: set<T>, B: set<T>, x: T)
    requires A <= B && x in B && x !in A
    ensures |A| < |B|
  {
    assert B == A + (B - A);
    assert x in B - A;
  }

  // ---------------------------------------------------------------------------
  // The construction.

  /** The local state of one `determinize` call: the NFA's transitions and the memo table
      `states` from a state-set to the DFA edges last recorded for it. */
  class Determinizer {
    const transitions: set<Edge>
    ghost const universe: set<nat>
    var states: map<set<nat>, seq<DEdge>>

    /** The memo table holds subsets of the NFA's states, and sound edges only. */
    ghost predicate Valid()
      reads this
    {
      && Endpoints(transitions) <= universe
      && (forall key :: key in states ==> key <= universe)
      && (forall key :: key in states ==> AllSound(transitions, states[key]))
    }

    constructor (t: set<Edge>, start: nat)
      ensures transitions == t && start in universe && states == map[]
      ensures Valid()
    {
      transitions := t;
      universe := Endpoints(t) + {start};
      states := map[];
    }

    /** `closure(s)`: breadth first along `%` edges from `s`. */
    method Closure(s: nat) returns (seen: set<nat>)
      ensures LeastClosed(transitions, seen, {s})
    {
      ghost var U := Endpoints(transitions) + {s};
      var worklist := [s];
      seen := {};
      while worklist != []
        invariant seen <= U && forall x :: x in worklist ==> x in U
        invariant s in seen || s in worklist
        invariant forall e :: e in transitions && e.0 in seen && e.2 == EpsChar ==> e.1 in seen || e.1 in worklist
        invariant forall C: set<nat> {:trigger EpsClosed(transitions, C)} ::
                    s in C && EpsClosed(transitions, C) ==> seen <= C && forall x :: x in worklist ==> x in C
        decreases |U - seen|, |worklist|
      {
        var u := worklist[0];
        worklist := worklist[1..];
        if u in seen {
          continue;
        }
        ProperSubsetCard(U - (seen + {u}), U - seen, u);
        seen := seen + {u};
        var todo := transitions;
        while todo != {}
          invariant todo <= transitions
          invariant seen <= U && forall x :: x in worklist ==> x in U
          invariant s in seen || s in worklist
          invariant forall e :: e in transitions - todo && e.0 == u && e.2 == EpsChar ==> e.1 in worklist
          invariant forall e :: e in transitions && e.0 in seen - {u} && e.2 == EpsChar ==> e.1 in seen || e.1 in worklist
          invariant forall C: set<nat> {:trigger EpsClosed(transitions, C)} ::
                      s in C && EpsClosed(transitions, C) ==> seen <= C && forall x :: x in worklist ==> x in C
          decreases todo
        {
          var e :| e in todo;
          if e.0 == u && e.2 == EpsChar {
            worklist := worklist + [e.1];
          }
          todo := todo - {e};
        }
      }
    }

    /** The `out` table of `construct`: for each character other than `%`, the states its
        edges reach from `state`; only characters with at least one edge get an entry. */
    method Outgoing(state: set<nat>) returns (out: map<char, set<nat>>)
      ensures forall c :: c in out <==> c != EpsChar && Step(transitions, state, c) != {}
      ensures forall c :: c in out ==> out[c] == Step(transitions, state, c)
    {
      out := map[];
      var points := state;
      while points != {}
        invariant points <= state
        invariant OutTable(out, state - points)
        decreases points
      {
        var point :| point in points;
        out := AddOutgoing(out, state - points, point);
        assert state - (points - {point}) == (state - points) + {point};
        points := points - {point};
      }
      assert state - points == state;
    }

    /** `out` lists, for each character other than `%`, the non-empty set of states its edges
        reach from `done`. */
    predicate OutTable(out: map<char, set<nat>>, done: set<nat>) {
      && (forall c :: c in out <==> c != EpsChar && Step(transitions, done, c) != {})
      && (forall c :: c in out ==> out[c] == Step(transitions, done, c))
    }

    /** The inner loop of the `out` table: the edges out of one more point. */
    method AddOutgoing(out0: map<char, set<nat>>, done: set<nat>, point: nat) returns (out: map<char, set<nat>>)
      requires OutTable(out0, done)
      ensures OutTable(out, done + {point})
    {
      out := out0;
      var todo := transitions;
      PartialStart(out, done, point);
      while todo != {}
        invariant todo <= transitions
        invariant PartialTable(out, done, point, todo)
        decreases todo
      {
        var e :| e in todo;
        out := PartialStep(out, done, point, todo, e);
        todo := todo - {e};
      }
      PartialEnd(out, done, point);
    }

    /** The `out` table once the edges outside `todo` have been looked at for `point`. */
    predicate PartialTable(out: map<char, set<nat>>, done: set<nat>, point: nat, todo: set<Edge>) {
      && (forall c :: c in out <==> c != EpsChar && DoneStep(done, point, todo, c) != {})
      && (forall c :: c in out ==> out[c] == DoneStep(done, point, todo, c))
    }

    lemma PartialStart(out: map<char, set<nat>>, done: set<nat>, point: nat)
      requires OutTable(out, done)
      ensures PartialTable(out, done, point, transitions)
    {
      forall c ensures DoneStep(done, point, transitions, c) == Step(transitions, done, c) {
        assert Step(transitions - transitions, {point}, c) == {};
      }
    }

    lemma PartialEnd(out: map<char, set<nat>>, done: set<nat>, point: nat)
      requires PartialTable(out, done, point, {})
      ensures OutTable(out, done + {point})
    {
      DoneStepLast(done, point);
    }

    /** One edge of the inner loop: `out[c].add(q)` when it leaves `point` with `c` not `%`. */
    function PartialStep(out: map<char, set<nat>>, done: set<nat>, point: nat, todo: set<Edge>, e: Edge): (out': map<char, set<nat>>)
      requires e in todo && todo <= transitions && PartialTable(out, done, point, todo)
      ensures PartialTable(out', done, point, todo - {e})
    {
      DoneStepNext(done, point, todo, e);
      if e.0 == point && e.2 != EpsChar then out[e.2 := (if e.2 in out then out[e.2] else {}) + {e.1}]
      else out
    }

    /** The targets reached from `done` by all edges, and from `point` by the edges outside
        `todo`. */
    function DoneStep(done: set<nat>, point: nat, todo: set<Edge>, c: char): set<nat> {
      Step(transitions, done, c) + Step(transitions - todo, {point}, c)
    }

    lemma DoneStepNext(done: set<nat>, point: nat, todo: set<Edge>, e: Edge)
      requires e in todo
      ensures forall c :: DoneStep(done, point, todo - {e}, c)
                          == DoneStep(done, point, todo, c) + (if e in transitions && e.0 == point && e.2 == c then {e.1} else {})
    {
      forall c ensures DoneStep(done, point, todo - {e}, c)
                       == DoneStep(done, point, todo, c) + (if e in transitions && e.0 == point && e.2 == c then {e.1} else {})
      {
        var A, B := Step(transitions - (todo - {e}), {point}, c), Step(transitions - todo, {point}, c);
        assert A == B + (if e in transitions && e.0 == point && e.2 == c then {e.1} else {});
      }
    }

    lemma DoneStepLast(done: set<nat>, point: nat)
      ensures forall c :: DoneStep(done, point, {}, c) == Step(transitions, done + {point}, c)
    {
      forall c ensures DoneStep(done, point, {}, c) == Step(transitions, done + {point}, c) {
        assert transitions - {} == transitions;
      }
    }

    /** The union of the closures of `points`. */
    method CloseAll(points: set<nat>) returns (state: set<nat>)
      ensures LeastClosed(transitions, state, points)
    {
      state := {};
      var todo := points;
      LeastClosedEmpty(transitions);
      while todo != {}
        invariant todo <= points
        invariant LeastClosed(transitions, state, points - todo)
        decreases todo
      {
        var point :| point in todo;
        var cl := Closure(point);
        LeastClosedUnion(transitions, state, points - todo, cl, {point});
        assert (points - todo) + {point} == points - (todo - {point});
        state := state + cl;
        todo := todo - {point};
      }
    }

    /** `construct(points, first)`: the closed state-set of `points`, its DFA edges and
        whether the memo table changed. A state-set already in the table is answered from the
        table unless this is the outermost call of a pass. */
    method Construct(points: set<nat>, first: bool) returns (state: set<nat>, dfa: seq<DEdge>, changed: bool)
      requires Valid() && points <= universe
      modifies this
      ensures Valid()
      ensures old(states).Keys <= states.Keys && state in states
      ensures LeastClosed(transitions, state, points)
      ensures AllSound(transitions, dfa)
      decreases |PowerSet(universe) - states.Keys|, if first then 1 else 0
    {
      state := CloseAll(points);
      ClosureWithin(transitions, state, points, universe);
      if state in states && !first {
        return state, states[state], false;
      }
      ghost var keys0 := states.Keys;
      if state !in states {
        states := states[state := []];
      }
      changed := false;
      var out := Outgoing(state);
      dfa := [];
      var todo := out.Keys;
      while todo != {}
        invariant Valid() && state in states && keys0 + {state} <= states.Keys
        invariant AllSound(transitions, dfa)
        invariant todo <= out.Keys
        decreases todo
      {
        var c :| c in todo;
        StepWithin(state, c);
        MeasureDrops(keys0, states.Keys, state, first);
        var next, rest, cur := Construct(out[c], false);
        changed := changed || cur;
        NewEdgeSound(state, points, next, c);
        AllSoundAppend(transitions, dfa, rest, (state, next, c));
        dfa := dfa + rest + [(state, next, c)];
        todo := todo - {c};
      }
      // The program compares the two lists after sorting them; tuples of sets sort by the
      // subset order, which is partial, so equal contents may still compare unequal.
      var differs: bool :| multiset(dfa) != multiset(states[state]) ==> differs;
      if differs {
        states := states[state := dfa];
        changed := true;
      }
    }

    /** The states a character leads to are states of the NFA. */
    lemma StepWithin(state: set<nat>, c: char)
      requires Endpoints(transitions) <= universe
      ensures Step(transitions, state, c) <= universe
    {
    }

    /** The edge `construct` appends for character `c`. */
    lemma NewEdgeSound(state: set<nat>, points: set<nat>, next: set<nat>, c: char)
      requires LeastClosed(transitions, state, points) && c != EpsChar
      requires LeastClosed(transitions, next, Step(transitions, state, c))
      ensures SoundEdge(transitions, (state, next, c))
    {
    }

    /** A nested call runs on a larger memo table, or on the same one but not as the
        outermost call. */
    lemma MeasureDrops(keys0: set<set<nat>>, keys: set<set<nat>>, state: set<nat>, first: bool)
      requires state <= universe && keys0 + {state} <= keys
      requires forall key :: key in keys ==> key <= universe
      requires first || state !in keys0
      ensures |PowerSet(universe) - keys| < |PowerSet(universe) - keys0|
              || (first && |PowerSet(universe) - keys| <= |PowerSet(universe) - keys0|)
    {
      var P := PowerSet(universe);
      if state in keys0 {
        SubsetCard(P - keys, P - keys0);
      } else {
        ProperSubsetCard(P - keys, P - keys0, state);
      }
    }
  }

  /** `determinize(nfa)`: one pass from the closure of the start state, then up to ten more
      while the memo table changes. */
  method Determinize(a: Nfa) returns (d: Dfa)
    ensures LeastClosed(a.transitions, d.start, {a.p})
    ensures d.accept == a.q
    ensures AllSound(a.transitions, d.edges)
  {
    var det := new Determinizer(a.transitions, a.p);
    var start, dfa, changed := det.Construct({a.p}, true);
    var iterations := 10;
    while changed && iterations > 0
      invariant det.Valid() && det.transitions == a.transitions && a.p in det.universe
      invariant LeastClosed(a.transitions, start, {a.p})
      invariant AllSound(a.transitions, dfa)
      decreases iterations
    {
      start, dfa, changed := det.Construct({a.p}, true);
      iterations := iterations - 1;
    }
    d := Dfa(start, a.q, dfa);
  }

  /** In the result, two edges from one state-set on one character lead to the same state-set. */
  lemma DeterminizeDeterministic(t: set<Edge>, edges: seq<DEdge>, i: nat, j: nat)
    requires AllSound(t, edges) && i < |edges| && j < |edges|
    requires edges[i].0 == edges[j].0 && edges[i].2 == edges[j].2
    ensures edges[i].1 == edges[j].1
  {
    SoundDeterministic(t, edges[i], edges[j]);
  }
}
