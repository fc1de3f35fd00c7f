/** Thompson's construction of regex_enumerate/nfa.py: every node of the tree becomes an
    automaton with one start state `p` and one accepting state `q`, glued with `%` edges.
    State ids come from one counter shared by the whole program. */
module Thompson {
  import opened Wrappers
  import opened Regex

  /** A transition `(from, to, label)`; the label `%` is an epsilon move. */
  type Edge = (nat, nat, char)

  /** An automaton with start state `p`, accepting state `q` and its transitions. */
  datatype Nfa = Nfa(p: nat, q: nat, transitions: set<Edge>)

  /** The shared counter behind `NFA.fresh`: ids handed out so far are 1..next. */
  class Allocator {
    var next: nat

    constructor ()
      ensures next == 0
    {
      next := 0;
    }

    /** `NFA.fresh`: advance the counter and hand out its new value. */
    method Fresh() returns (id: nat)
      modifies this
      ensures next == old(next) + 1 && id == next
    {
      next := next + 1;
      id := next;
    }
  }

  /** `NFA.eps`: one fresh state that both starts and accepts, and no transitions. */
  method EpsNfa(alloc: Allocator) returns (a: Nfa)
    modifies alloc
    ensures alloc.next == old(alloc.next) + 1
    ensures a == Nfa(alloc.next, alloc.next, {})
  {
    var p := alloc.Fresh();
    a := Nfa(p, p, {});
  }

  /** The `|` node: fresh `p` and `q` around both branches, four `%` edges. */
  function AltNfa(cur: Nfa, rst: Nfa, p: nat, q: nat): Nfa {
    var added := {(p, cur.p, EpsChar), (p, rst.p, EpsChar), (cur.q, q, EpsChar), (rst.q, q, EpsChar)};
    Nfa(p, q, cur.transitions + rst.transitions + added)
  }

  /** The `.` node: the head's accepting state joined to the tail's start by one `%` edge. */
  function CatNfa(cur: Nfa, rst: Nfa): Nfa {
    Nfa(cur.p, rst.q, cur.transitions + rst.transitions + {(cur.q, rst.p, EpsChar)})
  }

  /** The `*` node: fresh `s` and `t`, an entry, an exit, a loop back and a bypass. */
  function StarNfa(b: Nfa, s: nat, t: nat): Nfa {
    var added := {(s, b.p, EpsChar), (b.q, t, EpsChar), (b.q, b.p, EpsChar), (s, t, EpsChar)};
    Nfa(s, t, b.transitions + added)
  }

  /** What `compile` does, as a function of the tree and the counter before the call:
      the automaton (`None` for the empty alternation, an error where the program reads an
      attribute of `None`) and the counter afterwards. */
  function CompileSpec(r: Regex, n: nat): (res: (Result<Option<Nfa>>, nat))
    ensures res.1 >= n
    decreases Size(r), 1
  {
    match r
    case Alt(data) => CompileAlt(data, n)
    case Cat(data) => CompileCat(data, n)
    case Star(body) =>
      var (sub, n1) := CompileSpec(body, n);
      if sub.Err? then (sub, n1)
      else if sub.value.None? then (Err(AttributeError), n1 + 2)
      else (Ok(Some(StarNfa(sub.value.value, n1 + 1, n1 + 2))), n1 + 2)
    case Eps => (Ok(Some(Nfa(n + 1, n + 1, {}))), n + 1)
    case Tok(c) => (Ok(Some(Nfa(n + 1, n + 2, {(n + 1, n + 2, c)}))), n + 2)
  }

  /** `compile(('|', data))`: the tail is compiled before the head; a `None` tail leaves the
      head alone, and a `None` head is dereferenced after the two fresh ids are drawn. */
  function CompileAlt(data: seq<Regex>, n: nat): (res: (Result<Option<Nfa>>, nat))
    ensures res.1 >= n
    decreases 1 + SizeAll(data), 0
  {
    if |data| == 0 then (Ok(None), n)
    else
      assert SizeAll(data) == Size(data[0]) + SizeAll(data[1..]);
      if |data| == 1 then CompileSpec(data[0], n)
      else
        var (rest, n1) := CompileAlt(data[1..], n);
        if rest.Err? then (rest, n1)
        else
          var (current, n2) := CompileSpec(data[0], n1);
          if current.Err? || rest.value.None? then (current, n2)
          else if current.value.None? then (Err(AttributeError), n2 + 2)
          else (Ok(Some(AltNfa(current.value.value, rest.value.value, n2 + 1, n2 + 2))), n2 + 2)
  }

  /** `compile(('.', data))`: the empty list is epsilon; the tail is compiled before the head;
      a `None` tail makes the whole `None`, a `None` head is dereferenced. */
  function CompileCat(data: seq<Regex>, n: nat): (res: (Result<Option<Nfa>>, nat))
    ensures res.1 >= n
    decreases 1 + SizeAll(data), 0
  {
    if |data| == 0 then (Ok(Some(Nfa(n + 1, n + 1, {}))), n + 1)
    else
      assert SizeAll(data) == Size(data[0]) + SizeAll(data[1..]);
      if |data| == 1 then CompileSpec(data[0], n)
      else
        var (rest, n1) := CompileCat(data[1..], n);
        if rest.Err? then (rest, n1)
        else
          var (current, n2) := CompileSpec(data[0], n1);
          if current.Err? then (current, n2)
          else if rest.value.None? then (Ok(None), n2)
          else if current.value.None? then (Err(AttributeError), n2)
          else (Ok(Some(CatNfa(current.value.value, rest.value.value))), n2)
  }

  /** `compile(ast)`, drawing its ids from `alloc`. */
  method Compile(r: Regex, alloc: Allocator) returns (res: Result<Option<Nfa>>)
    modifies alloc
    ensures (res, alloc.next) == CompileSpec(r, old(alloc.next))
    decreases Size(r)
  {
    match r
    case Alt(data) =>
      if |data| == 0 {
        return Ok(None);
      } else if |data| == 1 {
        assert Size(r) == 1 + Size(data[0]) + SizeAll(data[1..]);
        res := Compile(data[0], alloc);
      } else {
        assert Size(r) == 1 + Size(data[0]) + SizeAll(data[1..]);
        var rest := Compile(Alt(data[1..]), alloc);
        if rest.Err? {
          return rest;
        }
        var current := Compile(data[0], alloc);
        if current.Err? || rest.value.None? {
          return current;
        }
        var p := alloc.Fresh();
        var q := alloc.Fresh();
        if current.value.None? {
          return Err(AttributeError);
        }
        res := Ok(Some(AltNfa(current.value.value, rest.value.value, p, q)));
      }
    case Cat(data) =>
      if |data| == 0 {
        var a := EpsNfa(alloc);
        res := Ok(Some(a));
      } else if |data| == 1 {
        assert Size(r) == 1 + Size(data[0]) + SizeAll(data[1..]);
        res := Compile(data[0], alloc);
      } else {
        assert Size(r) == 1 + Size(data[0]) + SizeAll(data[1..]);
        var rest := Compile(Cat(data[1..]), alloc);
        if rest.Err? {
          return rest;
        }
        var current := Compile(data[0], alloc);
        if current.Err? {
          return current;
        }
        if rest.value.None? {
          return Ok(None);
        }
        if current.value.None? {
          return Err(AttributeError);
        }
        res := Ok(Some(CatNfa(current.value.value, rest.value.value)));
      }
    case Star(body) =>
      var sub := Compile(body, alloc);
      if sub.Err? {
        return sub;
      }
      var s := alloc.Fresh();
      var t := alloc.Fresh();
      if sub.value.None? {
        return Err(AttributeError);
      }
      res := Ok(Some(StarNfa(sub.value.value, s, t)));
    case Eps =>
      var a := EpsNfa(alloc);
      res := Ok(Some(a));
    case Tok(c) =>
      var p := alloc.Fresh();
      var q := alloc.Fresh();
      res := Ok(Some(Nfa(p, q, {(p, q, c)})));
  }

  // ---------------------------------------------------------------------------
  // What every compiled automaton satisfies.

  /** Every state id of `a`. */
  function States(a: Nfa): (ids: set<nat>)
    ensures a.p in ids && a.q in ids
    ensures forall e :: e in a.transitions ==> e.0 in ids && e.1 in ids
  {
    {a.p, a.q} + (set e | e in a.transitions :: e.0) + (set e | e in a.transitions :: e.1)
  }

  /** Thompson's shape: ids drawn from `lo+1..hi`, no edge back into the start state and no
      edge out of the accepting one. */
  predicate ThompsonShape(a: Nfa, lo: nat, hi: nat) {
    lo < a.p <= hi && lo < a.q <= hi && EdgesWithin(a.transitions, lo, hi) && SourceAndSink(a)
  }

  /** Both ends of every edge lie in `lo+1..hi`. */
  predicate EdgesWithin(t: set<Edge>, lo: nat, hi: nat) {
    forall e :: e in t ==> lo < e.0 <= hi && lo < e.1 <= hi
  }

  /** No edge enters the start state and none leaves the accepting state. */
  predicate SourceAndSink(a: Nfa) {
    forall e :: e in a.transitions ==> e.1 != a.p && e.0 != a.q
  }

  /** The result of compiling `r` from counter `n`, when it is an automaton. */
  function Compiled(r: Regex, n: nat): Option<Nfa> {
    var res := CompileSpec(r, n).0;
    if res.Ok? then res.value else None
  }

  /** How a compiled `|` of two or more branches is assembled from its parts: the head alone
      when the tail is the empty language, both joined otherwise. */
  lemma AltUnfold(data: seq<Regex>, n: nat)
    requires |data| >= 2 && Compiled(Alt(data), n).Some?
    ensures var n1 := CompileSpec(Alt(data[1..]), n).1;
            var n2 := CompileSpec(data[0], n1).1;
            && Compiled(data[0], n1).Some?
            && if Compiled(Alt(data[1..]), n).None? then
                 && CompileSpec(Alt(data), n).1 == n2
                 && Compiled(Alt(data), n) == Compiled(data[0], n1)
               else
                 && CompileSpec(Alt(data), n).1 == n2 + 2
                 && Compiled(Alt(data), n).value
                    == AltNfa(Compiled(data[0], n1).value, Compiled(Alt(data[1..]), n).value, n2 + 1, n2 + 2)
  {
  }

  /** How a compiled `.` of two or more parts is assembled from its parts. */
  lemma CatUnfold(data: seq<Regex>, n: nat)
    requires |data| >= 2 && Compiled(Cat(data), n).Some?
    ensures var n1 := CompileSpec(Cat(data[1..]), n).1;
            && Compiled(Cat(data[1..]), n).Some? && Compiled(data[0], n1).Some?
            && CompileSpec(Cat(data), n).1 == CompileSpec(data[0], n1).1
            && Compiled(Cat(data), n).value == CatNfa(Compiled(data[0], n1).value, Compiled(Cat(data[1..]), n).value)
  {
    assert CompileSpec(Cat(data), n) == CompileCat(data, n);
    assert CompileSpec(Cat(data[1..]), n) == CompileCat(data[1..], n);
    var (rest, n1) := CompileCat(data[1..], n);
    var (current, n2) := CompileSpec(data[0], n1);
    assert rest.Ok? && current.Ok? && rest.value.Some? && current.value.Some?;
  }

  /** How a compiled `*` is assembled from its body. */
  lemma StarUnfold(body: Regex, n: nat)
    requires Compiled(Star(body), n).Some?
    ensures var n1 := CompileSpec(body, n).1;
            && Compiled(body, n).Some?
            && CompileSpec(Star(body), n).1 == n1 + 2
            && Compiled(Star(body), n).value == StarNfa(Compiled(body, n).value, n1 + 1, n1 + 2)
  {
  }

  /** The empty alternation compiles to no automaton and draws no id. */
  lemma EmptyAltNone(data: seq<Regex>, n: nat)
    requires |data| == 0
    ensures CompileSpec(Alt(data), n) == (Ok(None), n)
  {
    assert CompileSpec(Alt(data), n) == CompileAlt(data, n);
  }

  /** Every automaton `compile` returns was built from ids it allocated itself, and has the
      Thompson shape. */
  lemma {:induction false} CompileThompson(r: Regex, n: nat)
    requires Compiled(r, n).Some?
    ensures ThompsonShape(Compiled(r, n).value, n, CompileSpec(r, n).1)
    decreases Size(r), 1
  {
    match r
    case Alt(data) =>
      if |data| == 0 {
        EmptyAltNone(data, n);
        assert false;
      } else if |data| == 1 {
        assert Size(r) == 1 + Size(data[0]) + SizeAll(data[1..]);
        assert CompileSpec(r, n) == CompileSpec(data[0], n);
        CompileThompson(data[0], n);
      } else {
        AltCompileThompson(data, n);
      }
    case Cat(data) =>
      if |data| > 0 {
        assert Size(r) == 1 + Size(data[0]) + SizeAll(data[1..]);
        if |data| == 1 {
          assert CompileSpec(r, n) == CompileSpec(data[0], n);
          CompileThompson(data[0], n);
        } else {
          CatCompileThompson(data, n);
        }
      }
    case Star(body) =>
      StarCompileThompson(body, n);
    case Eps =>
    case Tok(c) =>
  }

  lemma {:induction false} StarCompileThompson(body: Regex, n: nat)
    requires Compiled(Star(body), n).Some?
    ensures ThompsonShape(Compiled(Star(body), n).value, n, CompileSpec(Star(body), n).1)
    decreases Size(Star(body)), 0
  {
    assert Compiled(body, n).Some? by {
      StarUnfold(body, n);
    }
    var b, n1 := Compiled(body, n).value, CompileSpec(body, n).1;
    assert Compiled(Star(body), n).value == StarNfa(b, n1 + 1, n1 + 2)
        && CompileSpec(Star(body), n).1 == n1 + 2 by {
      StarUnfold(body, n);
    }
    assert ThompsonShape(b, n, n1) by {
      CompileThompson(body, n);
    }
    StarThompson(b, n, n1);
  }

  lemma {:induction false} AltCompileThompson(data: seq<Regex>, n: nat)
    requires |data| >= 2 && Compiled(Alt(data), n).Some?
    ensures ThompsonShape(Compiled(Alt(data), n).value, n, CompileSpec(Alt(data), n).1)
    decreases Size(Alt(data)), 0
  {
    assert Size(Alt(data)) == 1 + Size(data[0]) + SizeAll(data[1..]);
    AltUnfold(data, n);
    var n1 := CompileSpec(Alt(data[1..]), n).1;
    var n2 := CompileSpec(data[0], n1).1;
    var a, cur, rst := Compiled(Alt(data), n).value, Compiled(data[0], n1), Compiled(Alt(data[1..]), n);
    CompileThompson(data[0], n1);
    if rst.Some? {
      CompileThompson(Alt(data[1..]), n);
      assert a == AltNfa(cur.value, rst.value, n2 + 1, n2 + 2);
      AltThompson(cur.value, rst.value, n, n1, n2);
    } else {
      assert a == cur.value;
      ThompsonWiden(cur.value, n1, n2, n, n2);
    }
  }

  lemma {:induction false} CatCompileThompson(data: seq<Regex>, n: nat)
    requires |data| >= 2 && Compiled(Cat(data), n).Some?
    ensures ThompsonShape(Compiled(Cat(data), n).value, n, CompileSpec(Cat(data), n).1)
    decreases Size(Cat(data)), 0
  {
    assert Size(Cat(data)) == 1 + Size(data[0]) + SizeAll(data[1..]);
    CatUnfold(data, n);
    var n1 := CompileSpec(Cat(data[1..]), n).1;
    CompileThompson(Cat(data[1..]), n);
    CompileThompson(data[0], n1);
    CatThompson(Compiled(data[0], n1).value, Compiled(Cat(data[1..]), n).value, n, n1, CompileSpec(data[0], n1).1);
  }

  lemma ThompsonWiden(a: Nfa, lo: nat, hi: nat, lo': nat, hi': nat)
    requires ThompsonShape(a, lo, hi) && lo' <= lo && hi <= hi'
    ensures ThompsonShape(a, lo', hi')
  {
  }

  lemma AltThompson(cur: Nfa, rst: Nfa, n: nat, n1: nat, n2: nat)
    requires ThompsonShape(rst, n, n1) && ThompsonShape(cur, n1, n2)
    ensures ThompsonShape(AltNfa(cur, rst, n2 + 1, n2 + 2), n, n2 + 2)
  {
  }

  lemma CatThompson(cur: Nfa, rst: Nfa, n: nat, n1: nat, n2: nat)
    requires ThompsonShape(rst, n, n1) && ThompsonShape(cur, n1, n2)
    ensures ThompsonShape(CatNfa(cur, rst), n, n2)
  {
  }

  lemma StarThompson(b: Nfa, n: nat, n1: nat)
    requires ThompsonShape(b, n, n1)
    ensures ThompsonShape(StarNfa(b, n1 + 1, n1 + 2), n, n1 + 2)
  {
  }

  /** Only `%` edges are new, and exactly `k` of them. */
  predicate AddsEpsEdges(old_edges: set<Edge>, new_edges: set<Edge>, k: nat) {
    && old_edges <= new_edges
    && |new_edges| == |old_edges| + k
    && forall e :: e in new_edges - old_edges ==> e.2 == EpsChar
  }

  lemma DisjointUnionSize(x: set<Edge>, y: set<Edge>)
    requires x !! y
    ensures |x + y| == |x| + |y|
  {
    assert (x + y) - y == x;
  }

  lemma AddEpsEdges(old_edges: set<Edge>, added: set<Edge>, k: nat)
    requires old_edges !! added && |added| == k
    requires forall e :: e in added ==> e.2 == EpsChar
    ensures AddsEpsEdges(old_edges, old_edges + added, k)
  {
    DisjointUnionSize(old_edges, added);
  }

  lemma FourEdges(e1: Edge, e2: Edge, e3: Edge, e4: Edge)
    requires e1 != e2 && e1 != e3 && e1 != e4 && e2 != e3 && e2 != e4 && e3 != e4
    ensures |{e1, e2, e3, e4}| == 4
  {
    assert {e1, e2, e3, e4} == {e1, e2, e3} + {e4};
    assert {e1, e2, e3} == {e1, e2} + {e3};
  }

  /** The branches of a `|` node share no edge and no endpoint, and both lie below the new ids. */
  lemma AltApart(cur: Nfa, rst: Nfa, n: nat, n1: nat, n2: nat)
    requires ThompsonShape(rst, n, n1) && ThompsonShape(cur, n1, n2)
    ensures cur.transitions !! rst.transitions
    ensures cur.p != rst.p && cur.q != rst.q
    ensures cur.p <= n2 && cur.q <= n2 && rst.p <= n2 && rst.q <= n2
    ensures forall e :: e in cur.transitions + rst.transitions ==> e.0 <= n2 && e.1 <= n2
  {
    forall e | e in cur.transitions ensures e !in rst.transitions { }
  }

  /** A `|` node keeps both branches' edges, which are disjoint, and adds four `%` edges. */
  lemma AltEdges(cur: Nfa, rst: Nfa, n: nat, n1: nat, n2: nat)
    requires ThompsonShape(rst, n, n1) && ThompsonShape(cur, n1, n2)
    ensures cur.transitions !! rst.transitions
    ensures AddsEpsEdges(cur.transitions + rst.transitions, AltNfa(cur, rst, n2 + 1, n2 + 2).transitions, 4)
  {
    AltApart(cur, rst, n, n1, n2);
    AltAdded(cur, rst, n2);
  }

  lemma AltAdded(cur: Nfa, rst: Nfa, n2: nat)
    requires cur.p != rst.p && cur.q != rst.q
    requires cur.p <= n2 && cur.q <= n2 && rst.p <= n2 && rst.q <= n2
    requires forall e :: e in cur.transitions + rst.transitions ==> e.0 <= n2 && e.1 <= n2
    ensures AddsEpsEdges(cur.transitions + rst.transitions, AltNfa(cur, rst, n2 + 1, n2 + 2).transitions, 4)
  {
    var p, q := n2 + 1, n2 + 2;
    var old_edges := cur.transitions + rst.transitions;
    var added := {(p, cur.p, EpsChar), (p, rst.p, EpsChar), (cur.q, q, EpsChar), (rst.q, q, EpsChar)};
    assert old_edges !! added;
    FourEdges((p, cur.p, EpsChar), (p, rst.p, EpsChar), (cur.q, q, EpsChar), (rst.q, q, EpsChar));
    AddEpsEdges(old_edges, added, 4);
  }

  /** A `.` node keeps both parts' edges, which are disjoint, and adds one `%` edge. */
  lemma CatEdges(cur: Nfa, rst: Nfa, n: nat, n1: nat, n2: nat)
    requires ThompsonShape(rst, n, n1) && ThompsonShape(cur, n1, n2)
    ensures cur.transitions !! rst.transitions
    ensures AddsEpsEdges(cur.transitions + rst.transitions, CatNfa(cur, rst).transitions, 1)
  {
    var old_edges := cur.transitions + rst.transitions;
    forall e | e in cur.transitions ensures e !in rst.transitions && e.0 != cur.q { }
    forall e | e in rst.transitions ensures e.0 != cur.q { }
    AddEpsEdges(old_edges, {(cur.q, rst.p, EpsChar)}, 1);
  }

  /** A `*` node keeps the body's edges and adds four `%` edges; the loop back from the
      body's accepting state is new because that state has no outgoing edge. */
  lemma StarEdges(b: Nfa, n: nat, n1: nat)
    requires ThompsonShape(b, n, n1)
    ensures AddsEpsEdges(b.transitions, StarNfa(b, n1 + 1, n1 + 2).transitions, 4)
  {
    forall e | e in b.transitions ensures e.0 <= n1 && e.0 != b.q { }
    StarAdded(b, n1);
  }

  lemma StarAdded(b: Nfa, n1: nat)
    requires b.p <= n1 && b.q <= n1
    requires forall e :: e in b.transitions ==> e.0 <= n1 && e.0 != b.q
    ensures AddsEpsEdges(b.transitions, StarNfa(b, n1 + 1, n1 + 2).transitions, 4)
  {
    var s, t := n1 + 1, n1 + 2;
    var added := {(s, b.p, EpsChar), (b.q, t, EpsChar), (b.q, b.p, EpsChar), (s, t, EpsChar)};
    assert b.transitions !! added;
    FourEdges((s, b.p, EpsChar), (b.q, t, EpsChar), (b.q, b.p, EpsChar), (s, t, EpsChar));
    AddEpsEdges(b.transitions, added, 4);
  }

  /** Two automata compiled one after the other share no state: the counter only grows. */
  lemma CompileDisjoint(r1: Regex, r2: Regex, n: nat)
    requires Compiled(r1, n).Some?
    requires Compiled(r2, CompileSpec(r1, n).1).Some?
    ensures States(Compiled(r1, n).value) !! States(Compiled(r2, CompileSpec(r1, n).1).value)
  {
    var n1 := CompileSpec(r1, n).1;
    CompileThompson(r1, n);
    CompileThompson(r2, n1);
    ShapesApart(Compiled(r1, n).value, Compiled(r2, n1).value, n, n1, CompileSpec(r2, n1).1);
  }

  /** Automata whose ids come from consecutive ranges share no state. */
  lemma ShapesApart(a: Nfa, b: Nfa, n: nat, n1: nat, n2: nat)
    requires ThompsonShape(a, n, n1) && ThompsonShape(b, n1, n2)
    ensures States(a) !! States(b)
  {
    forall x | x in States(a) ensures x <= n1 { }
    forall x | x in States(b) ensures x > n1 { }
  }

  /** Compiling `|` with two automata as branches adds exactly four `%` edges to theirs. */
  lemma CompileAltEdges(data: seq<Regex>, n: nat)
    requires |data| >= 2 && Compiled(Alt(data), n).Some? && Compiled(Alt(data[1..]), n).Some?
    ensures var n1 := CompileSpec(Alt(data[1..]), n).1;
            && Compiled(data[0], n1).Some?
            && AddsEpsEdges(Compiled(data[0], n1).value.transitions + Compiled(Alt(data[1..]), n).value.transitions,
                            Compiled(Alt(data), n).value.transitions, 4)
  {
    AltUnfold(data, n);
    var n1 := CompileSpec(Alt(data[1..]), n).1;
    var n2 := CompileSpec(data[0], n1).1;
    var cur, rst, a := Compiled(data[0], n1).value, Compiled(Alt(data[1..]), n).value, Compiled(Alt(data), n).value;
    assert a == AltNfa(cur, rst, n2 + 1, n2 + 2);
    CompileThompson(Alt(data[1..]), n);
    CompileThompson(data[0], n1);
    AltEdges(cur, rst, n, n1, n2);
  }

  /** Compiling `.` with two or more parts adds exactly one `%` edge to theirs. */
  lemma CompileCatEdges(data: seq<Regex>, n: nat)
    requires |data| >= 2 && Compiled(Cat(data), n).Some?
    ensures var n1 := CompileSpec(Cat(data[1..]), n).1;
            && Compiled(data[0], n1).Some? && Compiled(Cat(data[1..]), n).Some?
            && AddsEpsEdges(Compiled(data[0], n1).value.transitions + Compiled(Cat(data[1..]), n).value.transitions,
                            Compiled(Cat(data), n).value.transitions, 1)
  {
    CatUnfold(data, n);
    var n1 := CompileSpec(Cat(data[1..]), n).1;
    var cur, rst, a := Compiled(data[0], n1).value, Compiled(Cat(data[1..]), n).value, Compiled(Cat(data), n).value;
    assert a == CatNfa(cur, rst);
    CompileThompson(Cat(data[1..]), n);
    CompileThompson(data[0], n1);
    CatEdges(cur, rst, n, n1, CompileSpec(data[0], n1).1);
  }

  /** Compiling `*` adds exactly four `%` edges to the body's. */
  lemma CompileStarEdges(body: Regex, n: nat)
    requires Compiled(Star(body), n).Some?
    ensures Compiled(body, n).Some?
    ensures AddsEpsEdges(Compiled(body, n).value.transitions, Compiled(Star(body), n).value.transitions, 4)
  {
    StarUnfold(body, n);
    var b, n1, a := Compiled(body, n).value, CompileSpec(body, n).1, Compiled(Star(body), n).value;
    assert a == StarNfa(b, n1 + 1, n1 + 2);
    CompileThompson(body, n);
    StarEdges(b, n, n1);
  }

  /** The leaves: a token is two fresh states and one edge, epsilon one fresh state that
      starts and accepts. */
  lemma CompileLeaves(c: char, n: nat)
    ensures CompileSpec(Tok(c), n) == (Ok(Some(Nfa(n + 1, n + 2, {(n + 1, n + 2, c)}))), n + 2)
    ensures CompileSpec(Eps, n) == (Ok(Some(Nfa(n + 1, n + 1, {}))), n + 1)
    ensures CompileSpec(Cat([]), n) == CompileSpec(Eps, n)
  {
  }

  /** The empty alternation compiles to `None`, and reading its attributes fails once it is
      the body of a star. */
  lemma CompileZero(n: nat)
    ensures CompileSpec(Zero, n) == (Ok(None), n)
    ensures CompileSpec(Star(Zero), n) == (Err(AttributeError), n + 2)
  {
  }

  /** A `None` head of a `|` or `.` list is dereferenced, once the rest compiled. */
  lemma CompileNoneHead(a: Regex, n: nat)
    requires Compiled(a, n).Some?
    ensures CompileSpec(Alt([Zero, a]), n).0 == Err(AttributeError)
    ensures CompileSpec(Cat([Zero, a]), n).0 == Err(AttributeError)
  {
    var rest := CompileSpec(a, n);
    assert [Zero, a][1..] == [a];
    assert CompileAlt([a], n) == rest && CompileCat([a], n) == rest;
    assert CompileSpec(Zero, rest.1) == (Ok(None), rest.1);
  }

  /** A `None` tail of a `|` list is dropped, while a `None` tail of a `.` list makes the whole
      list `None`. */
  lemma CompileNoneTail(a: Regex, n: nat)
    requires Compiled(a, n).Some?
    ensures CompileSpec(Alt([a, Zero]), n) == CompileSpec(a, n)
    ensures CompileSpec(Cat([a, Zero]), n) == (Ok(None), CompileSpec(a, n).1)
  {
    assert [a, Zero][1..] == [Zero];
    assert CompileSpec(Zero, n) == (Ok(None), n);
    assert CompileAlt([Zero], n) == (Ok(None), n);
    assert CompileCat([Zero], n) == (Ok(None), n);
  }
}
