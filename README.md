# RegexEnumerator: the exact pipeline, modelled in Dafny

RegexEnumerator counts the words of each length in a regular language. This project models
the exact half of that pipeline and proves properties of it.

- **Parser.** A three-level grammar: alternation `|`, concatenation, and a postfix `*` on
  an atom. Its atoms are `%` for epsilon, single-character tokens and parenthesised groups.
- **Thompson construction.** Turns the tree into an automaton with epsilon (`%`) edges. It
  draws fresh state ids from a shared counter.
- **Subset construction.** Turns that automaton into a DFA whose states are
  epsilon-closed sets of automaton states.
- **Renumbering and state elimination.** Renumbers the DFA and builds the McNaughton–Yamada
  expressions `R(i, j, k)`, then simplifies the result with `reduce`.
- **Transfer.** Sends a regular expression to its generating function: a tree of `+`, `*`,
  `/` and `-` over `z` and numbers. That tree is lowered to a numerator and a denominator
  polynomial.
- **Polynomials.** Sparse-polynomial `add`, `neg` and `mul`, with zero coefficients pruned
  by `process`. On top of them: `leading_term`, long `division`, Euclid's `gcd`, and
  `simplify`, which writes `p/q` as `overflow + top/bottom`.
- **Enumeration.** `exact` reads off the coefficient of `z^n` in the power series of that
  fraction. It does so by the Krylov-style loop `p + pq + pq^2 + …`. `exact_coefficients`
  lists these values for `n = 0, 1, 2, …`, and `collate` expands a map from roots to
  multiplicities.

## Model

Modules, one per file:

- `Wrappers` in `wrappers.dfy`: Python's `None` and exceptions as values.
- `Regex` in `regex.dfy`: the tree and its language.
- `Language` in `language.dfy`: language laws.
- `Parser` in `parse.dfy`.
- `Thompson` in `nfa.dfy`.
- `Subsets` in `determinize.dfy`.
- `Reconstruct` in `reconstruct.dfy`.
- `Simplifier` in `reduce.dfy`.
- `Pipeline` in `pipeline.dfy`.
- `Polynomial` in `poly.dfy`.
- `PolyAlgebra` in `algebra.dfy`: ring laws of the product.
- `PolyEval` in `eval.dfy`: evaluation at a point.
- `Transfer` in `transfer.dfy`.
- `Euclid` in `division.dfy`.
- `Enumerate` in `enumerate.dfy`.

Python exceptions are modelled as error values of `Result`, not as preconditions. The
exceptions covered are `AttributeError` on `None`, `ZeroDivisionError`, a failed `assert`,
and `KeyError`.

| member | source | states |
|---|---|---|
| `Parser.StripKeeps` | regex_enumerate/parse.py:26-27 | Stripping removes every space and keeps every other character exactly as often as it occurs, tabs included. |
| `Parser.Base` | regex_enumerate/parse.py:3-8 | A base that parses consumes at least one character and stays within the text. |
| `Parser.Atom` | regex_enumerate/parse.py:6-10 | An atom that parses consumes at least one character and stays within the text. |
| `Parser.Atoms` | regex_enumerate/parse.py:15 | `e2.many()` stays within the text; it consumes nothing exactly when it yields no atom. |
| `Parser.Concat` | regex_enumerate/parse.py:13-16 | A concatenation that parses consumes at least one character. |
| `Parser.Alternatives` | regex_enumerate/parse.py:22 | The tail of bar-separated alternatives stays within the text. |
| `Parser.Expr` | regex_enumerate/parse.py:19-23 | An expression that parses consumes at least one character. |
| `Parser.BaseSound` | regex_enumerate/parse.py:3-8 | A base is `%` as epsilon, a token character as a token, or a group kept as its own nested alternation node. The consumed text is exactly that base written out. |
| `Parser.AtomSound` | regex_enumerate/parse.py:6-10 | An atom is a base under at most one star, read from exactly the text it consumed. |
| `Parser.AtomsSound` | regex_enumerate/parse.py:15 | Every item of the run is an atom, and the run is read from exactly the consumed text. |
| `Parser.ConcatSound` | regex_enumerate/parse.py:13-16 | A concatenation is `('.', M)` with `M` a non-empty list of atoms, read from exactly the consumed text. |
| `Parser.AlternativesSound` | regex_enumerate/parse.py:22 | Each alternative after the first is a concatenation shape, introduced by a bar in the text. |
| `Parser.ExprSound` | regex_enumerate/parse.py:19-23 | An expression is an alternation node holding `[left] + right`: left first, in source order, read from exactly the consumed text. |
| `Parser.ParseSound` | regex_enumerate/parse.py:13-27 | A parse fails only with a parse error. A successful parse is an alternation node over a list `L`: `L` is non-empty, each element is `('.', M)` with `M` a non-empty list of atoms, and writing the tree back gives the input without its spaces. |
| `Parser.BaseComplete` | regex_enumerate/parse.py:3-8 | The text of any base shape, followed by anything, parses back to that base. |
| `Parser.AtomComplete` | regex_enumerate/parse.py:6-10 | The text of any atom, when no star follows it, parses back to that atom. |
| `Parser.AtomsComplete` | regex_enumerate/parse.py:15 | The text of a run of atoms, followed by a character that cannot start an atom, parses back to exactly that run. |
| `Parser.ConcatComplete` | regex_enumerate/parse.py:13-16 | The text of a concatenation shape parses back to it. |
| `Parser.AlternativesComplete` | regex_enumerate/parse.py:22 | The bar-prefixed texts of the alternatives parse back to them in order. |
| `Parser.ExprComplete` | regex_enumerate/parse.py:19-23 | The text of an expression shape parses back to it. |
| `Parser.ParseShow` | regex_enumerate/parse.py:26-27 | Round trip: parsing the text of any expression-shaped tree gives that tree. |
| `Parser.ParseInjective` | regex_enumerate/parse.py:27 | Two texts that parse to the same tree differ only in their spaces. |
| `Parser.ParseVia` | regex_enumerate/parse.py:26-27 | A text whose space-free form is the text of a tree parses to that tree. |
| `Parser.ParseEmptyFails` | regex_enumerate/parse.py:15 | The empty text is rejected. |
| `Parser.ParseEmptyGroupFails` | regex_enumerate/parse.py:8 | `()` is rejected: a group needs at least one atom. |
| `Parser.ParseDoubleStarFails` | regex_enumerate/parse.py:9-10 | `a**` is rejected: an atom takes at most one star. |
| `Parser.ParseExample` | regex_enumerate/parse.py:27 | Spaces are ignored: `ab` and `c*` separated by a bar and spaces parse as the alternation of `('.', [a, b])` and `('.', [c*])`. |
| `Parser.ParseTab` | regex_enumerate/parse.py:3 | A tab is not stripped; it is an ordinary token. |
| `Thompson.Allocator.constructor` | regex_enumerate/nfa.py:7 | The counter starts at 0. |
| `Thompson.Allocator.Fresh` | regex_enumerate/nfa.py:18-21 | `fresh` increments the counter by one and returns the new value. |
| `Thompson.EpsNfa` | regex_enumerate/nfa.py:13-16 | Epsilon is one fresh state that is both start and accept, with no edges. |
| `Thompson.CompileSpec` | regex_enumerate/nfa.py:27-60 | Compiling never moves the counter backwards. |
| `Thompson.CompileAlt` | regex_enumerate/nfa.py:29-39 | Compiling an alternation never moves the counter backwards. |
| `Thompson.CompileCat` | regex_enumerate/nfa.py:40-48 | Compiling a concatenation never moves the counter backwards. |
| `Thompson.Compile` | regex_enumerate/nfa.py:27-60 | The method on the shared allocator returns the result of the recursive specification and leaves the counter where that specification says. The tail is compiled before the head. |
| `Thompson.AltUnfold` | regex_enumerate/nfa.py:33-39 | An alternation of two or more branches is its head's automaton alone when the tail compiles to `None`. Otherwise both are joined by two fresh states drawn after both. |
| `Thompson.CatUnfold` | regex_enumerate/nfa.py:44-48 | A concatenation of two or more parts joins the head's accept state to the tail's start state. |
| `Thompson.StarUnfold` | regex_enumerate/nfa.py:51-54 | A star draws two fresh states after compiling its body. |
| `Thompson.EmptyAltNone` | regex_enumerate/nfa.py:30 | The empty alternation compiles to `None` and draws no id. |
| `Thompson.CompileThompson` | regex_enumerate/nfa.py:27-60 | Every state of a compiled automaton was allocated during that call. No edge enters the start state and no edge leaves the accept state. |
| `Thompson.CompileDisjoint` | regex_enumerate/nfa.py:18-21 | Two automata compiled one after the other share no state. |
| `Thompson.CompileAltEdges` | regex_enumerate/nfa.py:36-39 | A binary alternation keeps both branches' edges, which are disjoint, and adds exactly four new `%` edges. |
| `Thompson.CompileCatEdges` | regex_enumerate/nfa.py:47-48 | A concatenation keeps both parts' edges and adds exactly one new `%` edge. |
| `Thompson.CompileStarEdges` | regex_enumerate/nfa.py:51-54 | A star keeps the body's edges and adds exactly four new `%` edges. |
| `Thompson.CompileLeaves` | regex_enumerate/nfa.py:55-60 | A token gives two fresh states and exactly one edge labelled with it. Epsilon and the empty concatenation give one fresh state with no edges. |
| `Thompson.CompileZero` | regex_enumerate/nfa.py:51-54 | The empty alternation gives `None`. Its star reads attributes of `None`: `AttributeError`. |
| `Thompson.CompileNoneHead` | regex_enumerate/nfa.py:33-47 | A `None` head of an alternation or concatenation list is dereferenced once the tail has compiled: `AttributeError`. |
| `Thompson.CompileNoneTail` | regex_enumerate/nfa.py:35-46 | A `None` tail is dropped from an alternation list, but makes a concatenation list return `None`. |
| `Subsets.Step` | regex_enumerate/nfa.py:95-99 | The `c`-successors of a state-set are exactly the targets of `c` edges leaving a member. |
| `Subsets.LeastClosedUnique` | regex_enumerate/nfa.py:65-78 | The epsilon closure of a set is unique. |
| `Subsets.LeastClosedUnion` | regex_enumerate/nfa.py:84-86 | The closure of a union is the union of the closures. |
| `Subsets.Determinizer.constructor` | regex_enumerate/nfa.py:80 | The memo table starts empty. |
| `Subsets.Determinizer.Closure` | regex_enumerate/nfa.py:65-78 | The worklist search returns the least set that contains `s` and is closed under `%` edges. |
| `Subsets.Determinizer.Outgoing` | regex_enumerate/nfa.py:95-99 | `out` has a key for exactly the non-`%` characters some edge leaves the state with. Each key maps to that character's successors. |
| `Subsets.Determinizer.AddOutgoing` | regex_enumerate/nfa.py:96-99 | The inner loop over the edges adds one more point's edges to the table. |
| `Subsets.Determinizer.CloseAll` | regex_enumerate/nfa.py:84-86 | The union of the closures of the points is the closure of the set of points. |
| `Subsets.Determinizer.Construct` | regex_enumerate/nfa.py:82-111 | Returns the closure of the points. Every edge it emits is sound: its label is not `%`, its source is a closed state-set, and its target is the closure of the label's successors. The memo table only grows and keeps this invariant. |
| `Subsets.Determinize` | regex_enumerate/nfa.py:63-118 | The start state is the closure of the automaton's start state, the accept state is unchanged, and every edge is sound, after at most ten extra passes. |
| `Subsets.DeterminizeDeterministic` | regex_enumerate/nfa.py:101-106 | Two emitted edges with the same source and label have the same target, even when the edge list repeats them. |
| `Reconstruct.ListStates` | regex_enumerate/nfa.py:123-130 | `states` starts with the start set, has no repetition, and lists exactly the start set and every state-set an edge touches. |
| `Reconstruct.Number` | regex_enumerate/nfa.py:133-137 | `states[i]` gets id `i + 1`. An id accepts exactly when its set holds the final atom. |
| `Reconstruct.Sort` | regex_enumerate/nfa.py:138 | `sorted(set(...))` is strictly increasing in Python's tuple order and holds exactly the set's elements. |
| `Reconstruct.Renumber` | regex_enumerate/nfa.py:121-139 | The start set gets id 1, and the state-sets map one to one onto `1..n`. An id accepts iff its set holds the final atom. The edge list is strictly sorted, duplicate-free, and is exactly the renumbered edges. |
| `Reconstruct.NumberBijective` | regex_enumerate/nfa.py:135-136 | Numbering a repetition-free list in order is a bijection onto `1..n`. |
| `Reconstruct.NumberAccepts` | regex_enumerate/nfa.py:137 | The accepting ids are exactly the ids of the sets holding the final atom. |
| `Reconstruct.DirectTokens` | regex_enumerate/nfa.py:148-151 | The tokens listed for `i -> j` are exactly the labels of the direct edges `i -> j`. |
| `Reconstruct.RBase` | regex_enumerate/nfa.py:146-154 | `R(i, j, 0)` matches exactly the one-letter words of direct edges `i -> j`, plus the empty word when `i = j`. |
| `Reconstruct.REmpty` | regex_enumerate/nfa.py:141-172 | `R(i, j, k)` matches the empty word exactly when `i = j`, for every `k`. |
| `Simplifier.DropZeros` | regex_enumerate/nfa.py:186 | Removes exactly the empty-language children, keeping the rest. |
| `Simplifier.DropEps` | regex_enumerate/nfa.py:188 | Removes exactly the epsilon children, and shrinks the list when there was one. |
| `Simplifier.AltKept` | regex_enumerate/nfa.py:186-189 | An alternation keeps every child that is neither empty nor epsilon. It has no empty child, and a single trailing `Eps` exactly when some child was epsilon. |
| `Simplifier.CollapseAlt` | regex_enumerate/nfa.py:185-191 | The alternation rule never grows the tree. |
| `Simplifier.CollapseCat` | regex_enumerate/nfa.py:193-197 | A concatenation containing the empty language becomes the empty language. |
| `Simplifier.ReduceAsWritten` | regex_enumerate/nfa.py:177-219 | The simplifier as coded never grows the tree. |
| `Simplifier.StarAsWritten` | regex_enumerate/nfa.py:199-218 | The `*` rule as coded is no larger than the star it replaces. |
| `Simplifier.Reduce` | regex_enumerate/nfa.py:177-219 | The corrected simplifier never grows the tree. |
| `Simplifier.StarRule` | regex_enumerate/nfa.py:199-218 | The corrected `*` rule is no larger than the star it replaces. |
| `Simplifier.AltKeptMatches` | regex_enumerate/nfa.py:186-189 | Dropping empty children and merging epsilons keeps the alternation's language. |
| `Simplifier.CollapseAltMatches` | regex_enumerate/nfa.py:185-191 | The alternation rule keeps the alternation's language. |
| `Simplifier.CollapseCatMatches` | regex_enumerate/nfa.py:193-197 | The `.` rule keeps the concatenation's language. |
| `Simplifier.ReduceAsWrittenSound` | regex_enumerate/nfa.py:177-219 | Every word the simplified expression as coded matches, the input matches. The language only ever shrinks. |
| `Simplifier.ReducePreserves` | regex_enumerate/nfa.py:177-219 | The corrected simplifier denotes exactly the language of its input. |
| `Simplifier.StarRulePreserves` | regex_enumerate/nfa.py:199-218 | The corrected `*` rule keeps the star's language, including the star of an alternation with epsilon equalling the star without it. |
| `Simplifier.ReduceIdempotent` | regex_enumerate/nfa.py:177-219 | Simplifying twice with the corrected simplifier gives what simplifying once gives. |
| `Simplifier.ReduceAsWrittenConstants` | regex_enumerate/nfa.py:179-183 | The empty language maps to itself; `('eps', '%')` and `('.', [])` map to epsilon. |
| `Simplifier.ReduceAsWrittenCatZero` | regex_enumerate/nfa.py:194-195 | A concatenation with a part that reduces to the empty language reduces to it. |
| `Simplifier.ReduceAsWrittenAlt` | regex_enumerate/nfa.py:185-191 | An alternation becomes its kept children. That is the single child when there is one, and the empty language when there are none. |
| `Simplifier.ReduceAsWrittenStar` | regex_enumerate/nfa.py:200-207 | As coded: a star of a body that reduces to empty is empty, of epsilon is epsilon, and of a star is that star's body without any star. |
| `Simplifier.ReduceStar` | regex_enumerate/nfa.py:200-207 | Corrected: a star of empty is epsilon, and a star of a star is the inner star. |
| `Simplifier.StarStarLosesStar` | regex_enumerate/nfa.py:205-207 | As coded, `(a*)*` reduces to `a`, which no longer matches the empty word. |
| `Simplifier.StarStarKeepsStar` | regex_enumerate/nfa.py:205-207 | Corrected, `(a*)*` reduces to `a*`. |
| `Simplifier.StarZeroLosesEmptyWord` | regex_enumerate/nfa.py:201-202 | As coded, `(∅)*` reduces to `∅`, although it matches the empty word. Corrected, it reduces to epsilon. |
| `Simplifier.ReduceAsWrittenNotIdempotent` | regex_enumerate/nfa.py:205-207 | As coded, the simplifier is not idempotent: `(a)**` reduces to `(a)`, which reduces further to `a`. |
| `Language.StarStar` | regex_enumerate/nfa.py:206 | `e**` and `e*` have the same language. |
| `Pipeline.AcceptOrder` | regex_enumerate/nfa.py:245 | The accepting ids are visited once each, all of them. |
| `Pipeline.Finals` | regex_enumerate/nfa.py:245 | One expression `R(1, k, n)` per accepting id. |
| `Pipeline.UnionLanguage` | regex_enumerate/nfa.py:245 | The union of the `R(1, k, n)`, simplified by `reduce` as the program writes it, matches exactly the words some `R(1, k, n)` matches. |
| `Pipeline.FinalsAgree` | regex_enumerate/nfa.py:245 | On the union `disambiguate` builds, `reduce` as the program writes it gives the same tree as the corrected simplifier. |
| `Agreement.CanonFixed` | regex_enumerate/nfa.py:177-219 | Both `reduce` as written and the corrected simplifier leave a tree in the shape they produce unchanged. |
| `Agreement.AltAgree` | regex_enumerate/nfa.py:185-191 | The alternation rule is the same in both simplifiers: where they agree on every branch they agree on the alternation. |
| `Agreement.CatAgree` | regex_enumerate/nfa.py:193-197 | The same holds for the concatenation rule. |
| `Agreement.StarAgree` | regex_enumerate/nfa.py:199-218 | On the star of a simplified loop `R(k, k, m)` the two star rules give the same tree. It is epsilon when the loop is epsilon, and a star otherwise. |
| `Agreement.BaseAgree` | regex_enumerate/nfa.py:146-154 | On `R(i, j, 0)` both simplifiers give the same tree, and it is no epsilon when `i != j`. |
| `Agreement.RStep` | regex_enumerate/nfa.py:155-172 | Agreement on every `R(p, q, m)` carries over to every `R(i, j, m + 1)`. |
| `Agreement.RAgree` | regex_enumerate/nfa.py:141-172 | On every `R(i, j, n)` both simplifiers give the same tree, so the two star rules that change the language never fire there. |
| `Pipeline.Disambiguate` | regex_enumerate/nfa.py:241-246 | Succeeds exactly when the text parses and compiles to an automaton. Parse errors and compile errors are passed on, and an automaton for the empty language fails with `AttributeError`. On success the edges are strictly sorted, and the regex, simplified by `reduce` as the program writes it, matches exactly the words of `R(1, k, n)` for some accepting `k`. |
| `Polynomial.Processed` | regex_enumerate/transfer.py:162-167 | `process` keeps every coefficient and stores no zero, on a subset of the keys. |
| `Polynomial.Process` | regex_enumerate/transfer.py:162-167 | The loop keeps exactly the non-zero entries. |
| `Polynomial.Sum` | regex_enumerate/transfer.py:130-139 | `add` is processed and coefficient-wise. |
| `Polynomial.Accumulate` | regex_enumerate/transfer.py:135-138 | `d[p] += n` over all items adds `src` to `d` coefficient-wise. |
| `Polynomial.Add` | regex_enumerate/transfer.py:130-139 | The two loops and `process` compute the processed sum. |
| `Polynomial.Negation` | regex_enumerate/transfer.py:142-148 | `neg` is processed and negates every coefficient. |
| `Polynomial.Neg` | regex_enumerate/transfer.py:142-148 | The loop and `process` compute the processed negation. |
| `Polynomial.Product` | regex_enumerate/transfer.py:151-159 | `mul` is processed, and its coefficient at `k` is the sum of `a_i b_j` over `i + j = k`. |
| `Polynomial.MulRow` | regex_enumerate/transfer.py:156-158 | The inner loop accumulates every product of one left key into the partial products. |
| `Polynomial.Mul` | regex_enumerate/transfer.py:151-159 | The nested loops and `process` compute the processed Cauchy product. |
| `PolyAlgebra.ProductComm` | regex_enumerate/transfer.py:151-159 | `mul` is commutative. |
| `PolyAlgebra.ProductAssoc` | regex_enumerate/transfer.py:151-159 | `mul` is associative. |
| `PolyAlgebra.ProductOne` | regex_enumerate/transfer.py:151-159 | `{0: 1}` is the unit of `mul`, up to processing. |
| `PolyAlgebra.ProductDistributes` | regex_enumerate/transfer.py:130-159 | `mul` distributes over `add`. |
| `PolyEval.EvalSum` | regex_enumerate/transfer.py:130-139 | The value of `add(a, b)` at any point is the sum of the values. |
| `PolyEval.EvalNegation` | regex_enumerate/transfer.py:142-148 | The value of `neg(a)` is the negated value. |
| `PolyEval.EvalProduct` | regex_enumerate/transfer.py:151-159 | The value of `mul(a, b)` at any point is the product of the values. |
| `Transfer.TransferValue` | regex_enumerate/transfer.py:6-47 | At every point, the right-nested binary tree has the value of the regex's generating function read off its structure. A counted token is `z`, other tokens and epsilon are 1, an alternation is a sum, a concatenation a product, and `e*` is `1/(1-e)`; the empty alternation is 0 and the empty concatenation 1. |
| `Transfer.DownPValue` | regex_enumerate/transfer.py:111-127 | `down_p` gives the polynomial whose value at every point is the expression's value. |
| `Transfer.DownRIsDownP` | regex_enumerate/transfer.py:80-104 | Each fraction rule yields exactly what `down_p` computes from the expression it builds. |
| `Transfer.DownPProduct` | regex_enumerate/transfer.py:120-124 | `down_p` of a product of two stored polynomials is their `mul`. |
| `Transfer.DownRVar` | regex_enumerate/transfer.py:76-77 | `z/1` represents `z`. |
| `Transfer.DownRConst` | regex_enumerate/transfer.py:78-79 | `k/1` represents `k`. |
| `Transfer.DownRMinus` | regex_enumerate/transfer.py:80-83 | Negating the numerator represents the negated value. |
| `Transfer.DownRPlus` | regex_enumerate/transfer.py:84-90 | `(n1 d2 + n2 d1)/(d1 d2)` represents the sum. |
| `Transfer.DownRProd` | regex_enumerate/transfer.py:91-97 | `(n1 n2)/(d1 d2)` represents the product. |
| `Transfer.DownRQuot` | regex_enumerate/transfer.py:98-104 | `(n1 d2)/(d1 n2)` represents the quotient. |
| `Transfer.DownRValue` | regex_enumerate/transfer.py:74-105 | Wherever the tree has a value, the fraction's denominator is non-zero and the fraction has that value. |
| `Transfer.RationalizeValue` | regex_enumerate/transfer.py:67-108 | `rationalize` returns processed polynomials whose quotient is the tree's value wherever it has one. |
| `Euclid.LeadingTerm` | regex_enumerate/transfer.py:170-174 | `(0, 0)` for the zero polynomial. Otherwise the largest exponent with a non-zero coefficient, and that coefficient. |
| `Euclid.RestSmaller` | regex_enumerate/transfer.py:187-190 | One step of long division cancels the leading term and lowers the degree. |
| `Euclid.Division` | regex_enumerate/transfer.py:177-192 | Fails with `ZeroDivisionError` exactly when `p` is non-zero and `q` is zero. The quotient is processed. The remainder is zero or of lower degree than `q`. A zero remainder comes as `({}, {0: 1})`; otherwise `q` comes back with it. A zero `p` gives `({}, ({}, {0: 1}))`, and a non-zero `p` of lower degree than `q` gives `({}, (p, q))`. |
| `Euclid.DivisionIdentity` | regex_enumerate/transfer.py:177-192 | `p = quotient · q + remainder`, coefficient by coefficient. |
| `Euclid.RemainderSmaller` | regex_enumerate/transfer.py:195-200 | Euclid's recursion goes on with a remainder of smaller degree, so it terminates. |
| `Euclid.Gcd` | regex_enumerate/transfer.py:195-200 | `gcd` returns a processed polynomial, and `gcd(p, 0)` is `process(p)`. |
| `Euclid.GcdDivides` | regex_enumerate/transfer.py:195-200 | `gcd(p, q)` divides both `p` and `q`. |
| `Euclid.GcdGreatest` | regex_enumerate/transfer.py:195-200 | Every common divisor of `p` and `q` divides `gcd(p, q)`. |
| `Euclid.ExactDivision` | regex_enumerate/transfer.py:207-210 | Dividing a multiple of `g` by `g` leaves the empty remainder, so neither assertion of `simplify` fails. |
| `Euclid.ExactQuotient` | regex_enumerate/transfer.py:207-212 | Dividing a multiple of `g` by `g` returns the cofactor. |
| `Euclid.Simplify` | regex_enumerate/transfer.py:203-212 | Fails with `ZeroDivisionError` exactly when `p` is non-zero and `q` is zero; the assertions never fail. |
| `Euclid.SimplifyParts` | regex_enumerate/transfer.py:203-212 | The result is the quotient of `p` by `q`, and the remainder and `q` each divided exactly by their `gcd`. |
| `Euclid.SimplifyMeaning` | regex_enumerate/transfer.py:203-212 | `p/q = overflow + top/bottom`, as `p · bottom = (overflow · bottom + top) · q`. A non-zero `q` gives a non-zero `bottom`. |
| `Enumerate.ConstantPresent` | regex_enumerate/enumerate.py:44-45 | `q` holds the key 0, so `q.pop(0)` cannot raise. |
| `Enumerate.Normalise` | regex_enumerate/enumerate.py:41-45 | Succeeds exactly when `bottom[0]` is non-zero. Otherwise it fails with `KeyError` if the key is absent, or with a failed assertion if the coefficient is zero. |
| `Enumerate.NormaliseMeaning` | regex_enumerate/enumerate.py:41-45 | `top = b0 · p` and `bottom = b0 · (1 - q)`, with `q` free of a constant term. |
| `Enumerate.TelescopeStart` | regex_enumerate/enumerate.py:47-48 | Before the loop, `qn = p` and the sum is empty: `bottom · 0 = b0 (p - qn)`. |
| `Enumerate.TelescopeRound` | regex_enumerate/enumerate.py:49-52 | One round, `s += qn` and `qn = qn · q`, keeps `bottom · s = b0 (p - qn)` up to `z^n`. So `qn = p q^(i+1)` and `s = Σ p q^j`. |
| `Enumerate.ValuationRound` | regex_enumerate/enumerate.py:52 | Multiplying by `q`, which has no constant term, raises the lowest power present in `qn`. |
| `Enumerate.TelescopeEnd` | regex_enumerate/enumerate.py:49-52 | After `n + 1` rounds, the terms `j > n` add nothing at `z^n`, and `s` is the power series of `top/bottom` up to `z^n`. |
| `Enumerate.SeriesExists` | regex_enumerate/enumerate.py:38-40 | When `bottom(0) ≠ 0`, `top/bottom` has a power series up to any `z^n`. |
| `Enumerate.SeriesUnique` | regex_enumerate/enumerate.py:38-40 | That power series is unique up to `z^n`. |
| `Enumerate.SeriesCoef` | regex_enumerate/enumerate.py:19-23 | The coefficient of `z^n` in the power series of `top/bottom` is well defined. |
| `Enumerate.RoundHalfEven` | regex_enumerate/enumerate.py:54 | Python's `round`: the nearest integer, ties going to the even one. |
| `Enumerate.Extract` | regex_enumerate/enumerate.py:31-54 | A zero `top` gives `overflow[n]` (0 when absent, and nothing when the overflow is switched off). Otherwise it succeeds iff `bottom[0] ≠ 0`, fails with the right error, and with the overflow on is an integer. |
| `Enumerate.ExactFailsEverywhere` | regex_enumerate/enumerate.py:25-45 | Whether and how `exact` fails does not depend on `n`. |
| `Enumerate.Exact` | regex_enumerate/enumerate.py:18-54 | The result is `round(overflow[n] + [z^n] top/bottom)`, with `overflow + top/bottom` the simplified generating function of the regex. It is unrounded without the overflow, and the errors of every stage are passed on. |
| `Enumerate.AmbiguousParse` | regex_enumerate/transfer.py:17 | The text `a`-bar-`a` reaches `transfer` as it is parsed, as an alternation of two equal branches; nothing disambiguates it first. |
| `Enumerate.AmbiguousLanguage` | regex_enumerate/parse.py:13-27 | The language of that tree is the single word `a`. |
| `Enumerate.AmbiguousFraction` | regex_enumerate/transfer.py:21-27 | `transfer` and `rationalize` turn the two branches into `z + z`, the fraction `2z / 1`. |
| `Enumerate.AmbiguousDivision` | regex_enumerate/transfer.py:177-192 | `division(2z, 1)` has the quotient `2z` and a zero remainder. |
| `Enumerate.AmbiguousSimplify` | regex_enumerate/transfer.py:203-212 | `simplify(2z, 1)` puts all of `2z` into the overflow and leaves a zero `top`. |
| `Enumerate.ExactCountsDerivations` | regex_enumerate/enumerate.py:18-54 | `exact` on the text `a`-bar-`a` at length 1 is 2, although exactly one word of length 1 matches it: `exact` counts derivations. |
| `Enumerate.ExactFrom` | regex_enumerate/enumerate.py:31-54 | From `simplify`'s result, computes exactly `Extract`: switches the overflow off, returns early on a zero `top`, and rounds. |
| `Enumerate.Expand` | regex_enumerate/enumerate.py:41-52 | The loop succeeds exactly when `bottom[0] ≠ 0`, with the `exact` errors otherwise. It returns the start value plus the coefficient of `z^n` in the power series of `top/bottom`. |
| `Enumerate.ListedAppend` | regex_enumerate/enumerate.py:64-67 | Appending `exact(regex, n)` to the values for `0..n-1` gives the values for `0..n`. |
| `Enumerate.ExactCoefficients` | regex_enumerate/enumerate.py:57-67 | The first `count` values are `exact(regex, 0), exact(regex, 1), …` in order. If `exact` fails, it fails for every `n` with the same error. |
| `Enumerate.Insert` | regex_enumerate/enumerate.py:152 | Inserting adds exactly one occurrence of the pair. |
| `Enumerate.Sort` | regex_enumerate/enumerate.py:152 | `sorted` is a permutation of its input, and is strictly increasing when the input pairs are all different. |
| `Enumerate.IncreasingUnique` | regex_enumerate/enumerate.py:147-152 | Two strictly increasing lists with the same elements are equal, so the order in which the map is read does not change the result. |
| `Enumerate.Collate` | regex_enumerate/enumerate.py:147-152 | The output is strictly increasing in `(root, k)` order and holds exactly the pairs `(root, k)` with `1 ≤ k ≤` the root's multiplicity. |

## Left out

- **Floating point.** Coefficients are exact reals. `process`'s `abs(val) > 1e-10` cut becomes "drop exact zeros". `round` is Python's half-to-even on an exact real, and `int(...)` is not a separate step.
- **`lru_cache`.** The memoisation of `closure` and `R` affects only speed. Both are plain functions or methods here.
- **The infinite generator.** `exact_coefficients` is modelled as its first `count` values, as `islice` takes them.
- `Enumerate.Exact`: the docstring of `exact` promises the number of words of length `n`. What `exact` computes, and what its contract states, is the coefficient of the generating function `transfer` reads off the tree, which counts derivations. `transfer` parses without disambiguating, so the two agree only for unambiguous expressions. `Enumerate.ExactCountsDerivations` shows that `exact("a|a", 1)` is 2 while one word matches. No link between `exact` and word counts is proved, even for unambiguous expressions.
- **`exact`'s early return.** When `top` is zero, `exact` returns `overflow[n]` unrounded, even with `use_overflow`, as the code does.
- **Ghost specification.** `Enumerate.Extract` and `Enumerate.ExactValue` are ghost functions, because the power-series coefficient they name is chosen by `:|`. The methods `Exact`, `ExactFrom`, `Expand` and `ExactCoefficients` compute the value and are proved equal to it.
- **Collection order.** Python iterates `set`s and `dict`s in an order the language does not fix. Wherever the code iterates one, the model takes an arbitrary remaining element:
  - the closure worklist's edges;
  - `out.items()` in `construct`;
  - the keys in `add` and `mul`;
  - `accepts` in `disambiguate`.

  The contracts hold for every such order.
- **Sorting tuples of sets.** `sorted(dfa) != sorted(states[key])` sorts tuples of Python sets. Sets compare by the subset order, which is partial, so two lists with the same contents may still compare unequal. The model compares them as multisets and may report a difference either way. Only the `changed` flag depends on this, and the contracts of `determinize` do not.
- **`Subsets.Determinize`.** The DFA edges are shown sound and the start set correct. That every reachable state-set is explored is not stated, because the memo table's early returns make the emitted edge list depend on the order of exploration.
- **`Reconstruct.R`.** Its language is pinned down for the base case (`RBase`) and for the empty word (`REmpty`) only. The recurrence is written as the code writes it, and its termination follows from `k` decreasing. Kleene's theorem, that `R(i, j, n)` is the language of the DFA between `i` and `j`, is not proved.
- **Parse errors.** The parser's `ParseError` carries no position or expected-token message, unlike parsy's.
- **`Enumerate.Collate`.** The length of the output, the sum of the multiplicities, is not stated separately. The contract gives the exact set of distinct pairs, which determines it.
- **Numeric root finding.** `newton`, `closed_form`, `cluster_roots`, `extract_coefficients_algebraically`, `enumerate_coefficients`, `inverse_symbolic`, `algebraic_form`, `generating_function`, `evaluate_expression` and `matrix_method` are left out. They are float and complex numerics over numpy, mpmath and sympy. `collate` is modelled on exact complex roots.
- **`check_on_oeis`.** It is a network lookup.
- **Display helpers.** `print_regex`, `atomic`, `debug_print`, `print_poly`, `print_rat` and `print_simpl` only format text.
- **The parsy library.** It is not part of this model; the grammar is written directly as recursive descent.
- **The `__main__` blocks and the stale top-level `enumerate.py`** are not part of this model.

## Findings

| source | as written | input that shows it | evidently intended | confidence | as-written member | corrected member |
|---|---|---|---|---|---|---|
| regex_enumerate/nfa.py:205-207 | `e**` is reduced to `e`: the inner star is dropped, although the comment says `e** = e*`. As a consequence, the simplifier is not idempotent. | `(a*)*` reduces to `a`, which no longer matches the empty word. `(a)**` reduces to `(a)`, which reduces again to `a`. | `e**` reduces to `e*`. | high; not executed | `Simplifier.StarStarLosesStar` (on `Simplifier.ReduceAsWritten`), `Simplifier.ReduceAsWrittenNotIdempotent` | `Simplifier.ReducePreserves` and `Simplifier.ReduceIdempotent` (on `Simplifier.Reduce`), `Simplifier.StarStarKeepsStar` |
| regex_enumerate/nfa.py:201-202 | A star whose body reduces to the empty language is reduced to the empty language. | `(∅)*` matches the empty word, but its reduction `∅` matches nothing. | The star of the empty language is epsilon. | high; not executed | `Simplifier.StarZeroLosesEmptyWord` (on `Simplifier.ReduceAsWritten`) | `Simplifier.ReduceStar` and `Simplifier.ReducePreserves` (on `Simplifier.Reduce`) |

`disambiguate` in this model calls `reduce` as the program writes it
(`Simplifier.ReduceAsWritten`). On every union it builds, that function gives the same tree as
the corrected `Simplifier.Reduce` (`Pipeline.FinalsAgree`, from `Agreement.RAgree`). So neither
bug changes what `disambiguate` returns; both show only when `reduce` is called directly. The
simplifier as coded is also shown to only ever shrink the language
(`Simplifier.ReduceAsWrittenSound`).
