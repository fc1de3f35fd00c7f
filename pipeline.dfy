/** `disambiguate`: parse (when given text), compile to an automaton, determinise, renumber,
    and read back one expression as the union of the Kleene expressions `R(1, k, n)` over the
    accepting states `k`, simplified. */
module Pipeline {
  import opened Wrappers
  import opened Regex
  import opened Language
  import opened Parser
  import opened Thompson
  import opened Subsets
  import opened Reconstruct
  import opened Simplifier
  import opened Agreement

  /** The argument of `disambiguate`: a text to parse or an already parsed tree. */
  datatype Input = Text(text: string) | Tree(tree: Regex)

  function TreeOf(input: Input): Result<Regex> {
    match input
    case Text(t) => Parse(t)
    case Tree(r) => Ok(r)
  }

  /** The accepting states in the order a set hands them out, which is not fixed here. */
  method AcceptOrder(accepts: set<nat>) returns (ks: seq<nat>)
    ensures Elements(ks) == accepts && Distinct(ks)
  {
    ks := [];
    var todo := accepts;
    while todo != {}
      invariant Elements(ks) + todo == accepts && Elements(ks) !! todo && Distinct(ks)
      decreases |todo|
    {
      var k :| k in todo;
      ElementsAppend(ks, k);
      DistinctAppend(ks, k);
      ks := ks + [k];
      todo := todo - {k};
    }
  }

  /** `[R(1, k, n) for k in ks]`. */
  function Finals(r: Renumbered, ks: seq<nat>): (rs: seq<Regex>)
    ensures |rs| == |ks|
  {
    seq(|ks|, i requires 0 <= i < |ks| => R(r.edges, 1, ks[i], r.n))
  }

  /** `reduce`, as the program writes it, gives the union the same tree as the corrected
      simplifier: none of the stars of `R` has a body whose simplification is the empty
      language or a star. */
  lemma FinalsAgree(r: Renumbered, ks: seq<nat>)
    ensures ReduceAsWritten(Alt(Finals(r, ks))) == Reduce(Alt(Finals(r, ks)))
  {
    RAgree(r.edges, r.n);
    var rs := Finals(r, ks);
    forall i | 0 <= i < |rs|
      ensures ReduceAsWritten(rs[i]) == Reduce(rs[i])
    {
      assert rs[i] == R(r.edges, 1, ks[i], r.n);
      assert Tame(R(r.edges, 1, ks[i], r.n), 1 == ks[i]);
    }
    AltAgree(rs);
  }

  /** The simplified union matches exactly the words some `R(1, k, n)` matches. */
  lemma UnionLanguage(r: Renumbered, ks: seq<nat>, w: string)
    ensures Matches(ReduceAsWritten(Alt(Finals(r, ks))), w)
            <==> exists i :: 0 <= i < |ks| && Matches(R(r.edges, 1, ks[i], r.n), w)
  {
    FinalsAgree(r, ks);
    ReducePreserves(Alt(Finals(r, ks)));
    var rs := Finals(r, ks);
    if Matches(Alt(rs), w) {
      var i :| 0 <= i < |rs| && Matches(rs[i], w);
      assert Matches(R(r.edges, 1, ks[i], r.n), w);
    }
    if exists i :: 0 <= i < |ks| && Matches(R(r.edges, 1, ks[i], r.n), w) {
      var i :| 0 <= i < |ks| && Matches(R(r.edges, 1, ks[i], r.n), w);
      assert Matches(rs[i], w);
    }
  }

  /** `disambiguate(regex)`. The automaton numbering continues from the shared allocator. An
      error of the parser or of the compiler is passed on, and an automaton for the empty
      language fails when `determinize` reads its start state. */
  method Disambiguate(input: Input, alloc: Allocator) returns (res: Result<(Regex, Renumbered)>)
    modifies alloc
    ensures TreeOf(input).Err? ==> res == Err(TreeOf(input).error)
    ensures TreeOf(input).Ok? && CompileSpec(TreeOf(input).value, old(alloc.next)).0.Err?
            ==> res == Err(CompileSpec(TreeOf(input).value, old(alloc.next)).0.error)
    ensures TreeOf(input).Ok? && CompileSpec(TreeOf(input).value, old(alloc.next)).0 == Ok(None)
            ==> res == Err(AttributeError)
    ensures res.Ok? <==> TreeOf(input).Ok? && CompileSpec(TreeOf(input).value, old(alloc.next)).0.Ok?
                         && CompileSpec(TreeOf(input).value, old(alloc.next)).0.value.Some?
    ensures res.Ok? ==> StrictlySorted(res.value.1.edges) && res.value.1.n >= 1
    ensures res.Ok? ==> forall w :: Matches(res.value.0, w) <==>
              exists k :: k in res.value.1.accepts && Matches(R(res.value.1.edges, 1, k, res.value.1.n), w)
  {
    var tree :- TreeOf(input);
    var compiled := Compile(tree, alloc);
    if compiled.Err? {
      return Err(compiled.error);
    }
    if compiled.value.None? {
      return Err(AttributeError);
    }
    var nfa := compiled.value.value;
    var dfa := Determinize(nfa);
    var renumbered, ids := Renumber(dfa.start, dfa.accept, dfa.edges);
    var ks := AcceptOrder(renumbered.accepts);
    var regex := ReduceAsWritten(Alt(Finals(renumbered, ks)));
    assert |ids| >= 1 by { assert dfa.start in ids; }
    forall w
      ensures Matches(regex, w) <==>
              exists k :: k in renumbered.accepts && Matches(R(renumbered.edges, 1, k, renumbered.n), w)
    {
      UnionLanguage(renumbered, ks, w);
      if exists k :: k in renumbered.accepts && Matches(R(renumbered.edges, 1, k, renumbered.n), w) {
        var k :| k in renumbered.accepts && Matches(R(renumbered.edges, 1, k, renumbered.n), w);
        assert k in Elements(ks);
      }
    }
    res := Ok((regex, renumbered));
  }
}
