/** The recursive-descent grammar of regex_enumerate/parse.py:
      atom  ::= '%' | token | '(' expr ')'      followed by at most one '*'   (e2)
      cat   ::= atom atom*                                                   (e1)
      expr  ::= cat ('|' cat)*                                               (e)
    Each rule reads `s` from position `i` and returns the tree and the position after it;
    a failed alternative leaves the position where it was, as the combinators do. */
module Parser {
  import opened Wrappers
  import opened Regex

  /** The characters the token class `[^%*()|]` accepts. */
  predicate IsTokenChar(ch: char) {
    ch != '%' && ch != '*' && ch != '(' && ch != ')' && ch != '|'
  }

  /** `text.replace(' ', '')`: only the space character is removed. */
  function StripSpaces(text: string): string
  {
    if text == [] then []
    else (if text[0] == ' ' then [] else [text[0]]) + StripSpaces(text[1..])
  }

  /** Removing the spaces keeps every other character, as often as it occurs. */
  lemma {:induction false} StripKeeps(text: string)
    ensures ' ' !in StripSpaces(text)
    ensures |StripSpaces(text)| <= |text|
    ensures forall ch :: ch != ' ' ==> multiset(StripSpaces(text))[ch] == multiset(text)[ch]
  {
    if text != [] {
      StripKeeps(text[1..]);
      assert text == [text[0]] + text[1..];
    }
  }

  /** The three alternatives of e2: `%`, a token, or a parenthesised expression. */
  function Base(s: string, i: nat): (r: Option<(Regex, nat)>)
    requires i <= |s|
    ensures r.Some? ==> i < r.value.1 <= |s|
    decreases |s| - i, 0
  {
    if i == |s| then None
    else if s[i] == EpsChar then Some((Eps, i + 1))
    else if IsTokenChar(s[i]) then Some((Tok(s[i]), i + 1))
    else if s[i] == '(' then
      match Expr(s, i + 1)
      case None => None
      case Some((e, j)) => if j < |s| && s[j] == ')' then Some((e, j + 1)) else None
    else None
  }

  /** e2: one base and an optional postfix star. */
  function Atom(s: string, i: nat): (r: Option<(Regex, nat)>)
    requires i <= |s|
    ensures r.Some? ==> i < r.value.1 <= |s|
    decreases |s| - i, 1
  {
    match Base(s, i)
    case None => None
    case Some((a, j)) => if j < |s| && s[j] == '*' then Some((Star(a), j + 1)) else Some((a, j))
  }

  /** `e2.many()`: as many atoms as parse, possibly none. */
  function Atoms(s: string, i: nat): (r: (seq<Regex>, nat))
    requires i <= |s|
    ensures i <= r.1 <= |s|
    ensures r.0 == [] <==> r.1 == i
    decreases |s| - i, 2
  {
    match Atom(s, i)
    case None => ([], i)
    case Some((a, j)) =>
      var (rest, k) := Atoms(s, j);
      ([a] + rest, k)
  }

  /** e1: `e2.at_least(1)`, wrapped as a concatenation node. */
  function Concat(s: string, i: nat): (r: Option<(Regex, nat)>)
    requires i <= |s|
    ensures r.Some? ==> i < r.value.1 <= |s|
    decreases |s| - i, 3
  {
    var (atoms, j) := Atoms(s, i);
    if atoms == [] then None else Some((Cat(atoms), j))
  }

  /** `(string('|') >> e1).many()`. */
  function Alternatives(s: string, i: nat): (r: (seq<Regex>, nat))
    requires i <= |s|
    ensures i <= r.1 <= |s|
    decreases |s| - i, 4
  {
    if i < |s| && s[i] == '|' then
      match Concat(s, i + 1)
      case None => ([], i)
      case Some((c, j)) =>
        var (rest, k) := Alternatives(s, j);
        ([c] + rest, k)
    else ([], i)
  }

  /** e: the first concatenation followed by the alternatives, as `('|', [left] + right)`. */
  function Expr(s: string, i: nat): (r: Option<(Regex, nat)>)
    requires i <= |s|
    ensures r.Some? ==> i < r.value.1 <= |s|
    decreases |s| - i, 5
  {
    match Concat(s, i)
    case None => None
    case Some((c, j)) =>
      var (rest, k) := Alternatives(s, j);
      Some((Alt([c] + rest), k))
  }

  /** `parse(re)`: strip the spaces, then the grammar must consume the whole text. */
  function Parse(text: string): Result<Regex> {
    var s := StripSpaces(text);
    match Expr(s, 0)
    case None => Err(ParseError)
    case Some((r, j)) => if j == |s| then Ok(r) else Err(ParseError)
  }

  // ---------------------------------------------------------------------------
  // The trees the grammar produces, and the text each of them is read from.

  /** A token that can reach the grammar: the spaces are gone by then. */
  predicate IsTextToken(ch: char) {
    IsTokenChar(ch) && ch != ' '
  }

  /** What e2 returns: a base, or a base under exactly one star. */
  predicate IsAtomShape(a: Regex)
    decreases a, 2
  {
    match a
    case Star(b) => IsBaseShape(b)
    case _ => IsBaseShape(a)
  }

  /** `%`, a token, or a parenthesised expression kept as its own `|` node. */
  predicate IsBaseShape(a: Regex)
    decreases a, 1
  {
    match a
    case Eps => true
    case Tok(c) => IsTextToken(c)
    case Alt(_) => IsExprShape(a)
    case _ => false
  }

  /** What e returns: `('|', L)` with L non-empty and made of concatenation shapes. */
  predicate IsExprShape(r: Regex)
    decreases r, 0
  {
    r.Alt? && |r.alts| > 0 && forall k :: 0 <= k < |r.alts| ==> IsCatShape(r.alts[k])
  }

  /** What e1 returns: `('.', M)` with M non-empty and made of atom shapes. */
  predicate IsCatShape(c: Regex)
    decreases c, 0
  {
    c.Cat? && |c.parts| > 0 && forall k :: 0 <= k < |c.parts| ==> IsAtomShape(c.parts[k])
  }

  /** The text of an atom: a group is written in parentheses. */
  function ShowAtom(a: Regex): string
    decreases a, 0
  {
    match a
    case Eps => [EpsChar]
    case Tok(c) => [c]
    case Star(b) => ShowAtom(b) + "*"
    case Alt(rs) => "(" + ShowAlts(rs) + ")"
    case Cat(ps) => "(" + ShowAtoms(ps) + ")"
  }

  /** Atoms written side by side. */
  function ShowAtoms(ps: seq<Regex>): string
    decreases ps, 0
  {
    if ps == [] then "" else ShowAtom(ps[0]) + ShowAtoms(ps[1..])
  }

  /** The text of one alternative. */
  function ShowCat(c: Regex): string
    decreases c, 1
  {
    match c
    case Cat(ps) => ShowAtoms(ps)
    case _ => ShowAtom(c)
  }

  /** Alternatives after the first, each introduced by `|`. */
  function ShowTail(rs: seq<Regex>): string
    decreases rs, 0
  {
    if rs == [] then "" else "|" + ShowCat(rs[0]) + ShowTail(rs[1..])
  }

  /** Alternatives separated by `|`. */
  function ShowAlts(rs: seq<Regex>): string
    decreases rs, 1
  {
    if rs == [] then "" else ShowCat(rs[0]) + ShowTail(rs[1..])
  }

  /** The text a tree of expression shape is parsed from. */
  function Show(r: Regex): string {
    match r
    case Alt(rs) => ShowAlts(rs)
    case _ => ShowAtom(r)
  }

  // ---------------------------------------------------------------------------
  // Soundness: every rule returns a tree of its shape, read from exactly the text it consumed.

  lemma {:induction false} BaseSound(s: string, i: nat)
    requires i <= |s| && ' ' !in s
    ensures match Base(s, i)
            case None => true
            case Some((b, j)) => IsBaseShape(b) && s[i..j] == ShowAtom(b)
    decreases |s| - i, 0
  {
    if i < |s| && Base(s, i).Some? {
      var (b, j) := Base(s, i).value;
      if s[i] == EpsChar {
      } else if IsTokenChar(s[i]) {
        assert s[i] in s;
      } else {
        ExprSound(s, i + 1);
        var (e, j') := Expr(s, i + 1).value;
        assert s[i..j] == [s[i]] + s[i + 1..j'] + [s[j']];
      }
    }
  }

  lemma {:induction false} AtomSound(s: string, i: nat)
    requires i <= |s| && ' ' !in s
    ensures match Atom(s, i)
            case None => true
            case Some((a, j)) => IsAtomShape(a) && s[i..j] == ShowAtom(a)
    decreases |s| - i, 1
  {
    BaseSound(s, i);
    match Base(s, i)
    case None =>
    case Some((b, j)) =>
      if j < |s| && s[j] == '*' {
        assert s[i..j + 1] == s[i..j] + [s[j]];
      }
  }

  lemma {:induction false} AtomsSound(s: string, i: nat)
    requires i <= |s| && ' ' !in s
    ensures var (ps, j) := Atoms(s, i);
            (forall k :: 0 <= k < |ps| ==> IsAtomShape(ps[k])) && s[i..j] == ShowAtoms(ps)
    decreases |s| - i, 2
  {
    AtomSound(s, i);
    match Atom(s, i)
    case None =>
    case Some((a, j)) =>
      AtomsSound(s, j);
      var (rest, k) := Atoms(s, j);
      assert ([a] + rest)[1..] == rest;
      assert s[i..k] == s[i..j] + s[j..k];
  }

  lemma {:induction false} ConcatSound(s: string, i: nat)
    requires i <= |s| && ' ' !in s
    ensures match Concat(s, i)
            case None => true
            case Some((c, j)) => IsCatShape(c) && s[i..j] == ShowCat(c)
    decreases |s| - i, 3
  {
    AtomsSound(s, i);
  }

  lemma {:induction false} AlternativesSound(s: string, i: nat)
    requires i <= |s| && ' ' !in s
    ensures var (rs, j) := Alternatives(s, i);
            (forall k :: 0 <= k < |rs| ==> IsCatShape(rs[k])) && s[i..j] == ShowTail(rs)
    decreases |s| - i, 4
  {
    if i < |s| && s[i] == '|' {
      ConcatSound(s, i + 1);
      match Concat(s, i + 1)
      case None =>
      case Some((c, j)) =>
        AlternativesSound(s, j);
        var (rest, k) := Alternatives(s, j);
        assert ([c] + rest)[1..] == rest;
        assert s[i..k] == [s[i]] + s[i + 1..j] + s[j..k];
    }
  }

  lemma {:induction false} ExprSound(s: string, i: nat)
    requires i <= |s| && ' ' !in s
    ensures match Expr(s, i)
            case None => true
            case Some((r, j)) => IsExprShape(r) && s[i..j] == Show(r)
    decreases |s| - i, 5
  {
    ConcatSound(s, i);
    match Concat(s, i)
    case None =>
    case Some((c, j)) =>
      AlternativesSound(s, j);
      var (rest, k) := Alternatives(s, j);
      assert ([c] + rest)[1..] == rest;
      assert s[i..k] == s[i..j] + s[j..k];
  }

  /** A successful parse is `('|', L)` with every element `('.', M)`, M non-empty and made
      of atoms, and writing it back gives the input without its spaces. */
  lemma ParseSound(text: string)
    ensures match Parse(text)
            case Err(e) => e == ParseError
            case Ok(r) => IsExprShape(r) && Show(r) == StripSpaces(text)
  {
    var s := StripSpaces(text);
    StripKeeps(text);
    ExprSound(s, 0);
    assert s[0..|s|] == s;
  }

  // ---------------------------------------------------------------------------
  // Completeness: the text of a tree of expression shape parses back to that tree.

  /** Positions at which an atom cannot begin and a concatenation therefore stops. */
  predicate EndsCat(s: string, j: nat) {
    j == |s| || (j < |s| && (s[j] == ')' || s[j] == '|'))
  }

  lemma {:induction false} ShowAtomStart(a: Regex)
    requires IsAtomShape(a)
    ensures |ShowAtom(a)| > 0
    ensures var ch := ShowAtom(a)[0]; ch != '*' && ch != ')' && ch != '|'
  {
    var b := if a.Star? then a.body else a;
    assert |ShowAtom(b)| > 0 && ShowAtom(a)[0] == ShowAtom(b)[0];
  }

  /** Text that starts with `x + y` at `i` starts with `x` at `i` and with `y` after it. */
  lemma SplitAt(s: string, i: nat, x: string, y: string)
    requires i + |x + y| <= |s| && s[i..i + |x + y|] == x + y
    ensures s[i..i + |x|] == x && s[i + |x|..i + |x| + |y|] == y
  {
    assert s[i..i + |x|] == s[i..i + |x + y|][..|x|];
    assert s[i + |x|..i + |x| + |y|] == s[i..i + |x + y|][|x|..];
  }

  /** The text of a group: `(`, the alternatives, `)`. */
  lemma GroupSplit(rs: seq<Regex>, s: string, i: nat)
    requires i + |ShowAtom(Alt(rs))| <= |s| && s[i..i + |ShowAtom(Alt(rs))|] == ShowAtom(Alt(rs))
    ensures var m := |ShowAlts(rs)|;
            && |ShowAtom(Alt(rs))| == m + 2
            && s[i] == '(' && s[i + 1..i + 1 + m] == ShowAlts(rs) && s[i + 1 + m] == ')'
  {
    var m := |ShowAlts(rs)|;
    assert ShowAtom(Alt(rs)) == "(" + ShowAlts(rs) + ")";
    SplitAt(s, i, "(" + ShowAlts(rs), ")");
    SplitAt(s, i, "(", ShowAlts(rs));
    assert s[i] == s[i..i + 1][0];
    assert s[i + 1 + m] == s[i + 1 + m..i + 1 + m + 1][0];
  }

  lemma {:induction false} BaseComplete(b: Regex, s: string, i: nat)
    requires IsBaseShape(b)
    requires i + |ShowAtom(b)| <= |s| && s[i..i + |ShowAtom(b)|] == ShowAtom(b)
    ensures Base(s, i) == Some((b, i + |ShowAtom(b)|))
    decreases Size(b), 1
  {
    assert s[i] == s[i..i + |ShowAtom(b)|][0];
    match b
    case Eps =>
    case Tok(c) =>
    case Alt(rs) =>
      GroupSplit(rs, s, i);
      ExprComplete(b, s, i + 1);
  }

  /** The text of a starred atom: its base, then `*`. */
  lemma StarSplit(b: Regex, s: string, i: nat)
    requires i + |ShowAtom(Star(b))| <= |s| && s[i..i + |ShowAtom(Star(b))|] == ShowAtom(Star(b))
    ensures var n := |ShowAtom(b)|;
            n + 1 == |ShowAtom(Star(b))| && s[i..i + n] == ShowAtom(b) && s[i + n] == '*'
  {
    var n := |ShowAtom(b)|;
    SplitAt(s, i, ShowAtom(b), "*");
    assert s[i + n] == s[i + n..i + n + 1][0];
  }

  lemma {:induction false} AtomComplete(a: Regex, s: string, i: nat)
    requires IsAtomShape(a)
    requires i + |ShowAtom(a)| <= |s| && s[i..i + |ShowAtom(a)|] == ShowAtom(a)
    requires a.Star? || i + |ShowAtom(a)| == |s| || s[i + |ShowAtom(a)|] != '*'
    ensures Atom(s, i) == Some((a, i + |ShowAtom(a)|))
    decreases Size(a), 2
  {
    if a.Star? {
      StarSplit(a.body, s, i);
      BaseComplete(a.body, s, i);
    } else {
      BaseComplete(a, s, i);
    }
  }

  lemma AtomsCons(ps: seq<Regex>, s: string, i: nat, j: nat, k: nat)
    requires ps != [] && i <= j <= k <= |s|
    requires Atom(s, i) == Some((ps[0], j)) && Atoms(s, j) == (ps[1..], k)
    ensures Atoms(s, i) == (ps, k)
  {
    assert [ps[0]] + ps[1..] == ps;
  }

  lemma AtomFailsAtEnd(s: string, i: nat)
    requires i <= |s| && EndsCat(s, i)
    ensures Base(s, i) == None && Atom(s, i) == None && Atoms(s, i) == ([], i)
  {
  }

  /** The text of a non-empty run of atoms: its first atom, then the others. */
  lemma AtomsUnfold(ps: seq<Regex>)
    requires ps != []
    ensures ShowAtoms(ps) == ShowAtom(ps[0]) + ShowAtoms(ps[1..])
  {
  }

  /** The text of the atoms after the first does not start with a star. */
  lemma AtomsStart(ps: seq<Regex>)
    requires ps != [] && (|ps| > 1 ==> IsAtomShape(ps[1]))
    ensures ShowAtoms(ps[1..]) == "" || ShowAtoms(ps[1..])[0] != '*'
  {
    if |ps| > 1 {
      ShowAtomStart(ps[1]);
      assert ShowAtoms(ps[1..]) == ShowAtom(ps[1]) + ShowAtoms(ps[1..][1..]);
    }
  }

  /** Text that holds `t`, which is `x + y`, at `i`, where `y` does not start with a star and
      a `)`, a `|` or the end follows, splits after `x` at a character that is not a star. */
  lemma SplitRun(s: string, i: nat, t: string, x: string, y: string)
    requires t == x + y
    requires i + |t| <= |s| && s[i..i + |t|] == t
    requires EndsCat(s, i + |t|)
    requires y == "" || y[0] != '*'
    ensures i + |x| + |y| == i + |t|
    ensures s[i..i + |x|] == x && s[i + |x|..i + |x| + |y|] == y
    ensures i + |x| == |s| || s[i + |x|] != '*'
  {
    SplitAt(s, i, x, y);
    if y != "" {
      FirstChar(s, i + |x|, y);
    }
  }

  /** Text that holds a non-empty `y` at `j` holds its first character there. */
  lemma FirstChar(s: string, j: nat, y: string)
    requires |y| > 0 && j + |y| <= |s| && s[j..j + |y|] == y
    ensures s[j] == y[0]
  {
    assert s[j] == s[j..j + |y|][0];
  }

  /** The atoms after the first are atoms too. */
  lemma AtomsTail(ps: seq<Regex>)
    requires ps != [] && forall k :: 0 <= k < |ps| ==> IsAtomShape(ps[k])
    ensures forall k :: 0 <= k < |ps[1..]| ==> IsAtomShape(ps[1..][k])
  {
  }

  lemma {:induction false} AtomsComplete(ps: seq<Regex>, s: string, i: nat)
    requires forall k :: 0 <= k < |ps| ==> IsAtomShape(ps[k])
    requires i + |ShowAtoms(ps)| <= |s| && s[i..i + |ShowAtoms(ps)|] == ShowAtoms(ps)
    requires EndsCat(s, i + |ShowAtoms(ps)|)
    ensures Atoms(s, i) == (ps, i + |ShowAtoms(ps)|)
    decreases SizeAll(ps), 3
  {
    if ps == [] {
      AtomFailsAtEnd(s, i);
    } else {
      var j, rest := AtomsStep(ps, s, i);
      AtomComplete(ps[0], s, i);
      AtomsComplete(rest, s, j);
      AtomsCons(ps, s, i, j, i + |ShowAtoms(ps)|);
    }
  }

  /** What the first atom and the rest of a run need in order to be read back. */
  lemma AtomsStep(ps: seq<Regex>, s: string, i: nat) returns (j: nat, rest: seq<Regex>)
    requires ps != [] && forall k :: 0 <= k < |ps| ==> IsAtomShape(ps[k])
    requires i + |ShowAtoms(ps)| <= |s| && s[i..i + |ShowAtoms(ps)|] == ShowAtoms(ps)
    requires EndsCat(s, i + |ShowAtoms(ps)|)
    ensures j == i + |ShowAtom(ps[0])| && rest == ps[1..]
    ensures IsAtomShape(ps[0])
    ensures j <= |s| && s[i..j] == ShowAtom(ps[0]) && (j == |s| || s[j] != '*')
    ensures forall k :: 0 <= k < |rest| ==> IsAtomShape(rest[k])
    ensures j + |ShowAtoms(rest)| == i + |ShowAtoms(ps)|
    ensures j + |ShowAtoms(rest)| <= |s| && s[j..j + |ShowAtoms(rest)|] == ShowAtoms(rest)
    ensures EndsCat(s, j + |ShowAtoms(rest)|)
    ensures Size(ps[0]) <= SizeAll(ps) && SizeAll(rest) < SizeAll(ps)
  {
    j, rest := i + |ShowAtom(ps[0])|, ps[1..];
    AtomsUnfold(ps);
    AtomsStart(ps);
    AtomsTail(ps);
    SplitRun(s, i, ShowAtoms(ps), ShowAtom(ps[0]), ShowAtoms(rest));
    assert SizeAll(ps) == Size(ps[0]) + SizeAll(ps[1..]);
  }

  lemma {:induction false} ConcatComplete(c: Regex, s: string, i: nat)
    requires IsCatShape(c)
    requires i + |ShowCat(c)| <= |s| && s[i..i + |ShowCat(c)|] == ShowCat(c)
    requires EndsCat(s, i + |ShowCat(c)|)
    ensures Concat(s, i) == Some((c, i + |ShowCat(c)|))
    decreases Size(c), 0
  {
    AtomsComplete(c.parts, s, i);
  }

  /** A text made of three consecutive pieces. */
  lemma SplitAt3(s: string, i: nat, x: string, y: string, z: string)
    requires i + |x + y + z| <= |s| && s[i..i + |x + y + z|] == x + y + z
    ensures s[i..i + |x|] == x
    ensures s[i + |x|..i + |x| + |y|] == y
    ensures s[i + |x| + |y|..i + |x| + |y| + |z|] == z
  {
    SplitAt(s, i, x + y, z);
    SplitAt(s, i, x, y);
  }

  /** Where non-empty alternatives start, the text holds a `|`. */
  lemma TailStart(rs: seq<Regex>, s: string, j: nat)
    requires j + |ShowTail(rs)| <= |s| && s[j..j + |ShowTail(rs)|] == ShowTail(rs)
    requires j + |ShowTail(rs)| == |s| || s[j + |ShowTail(rs)|] == ')'
    ensures EndsCat(s, j)
  {
    if rs != [] {
      assert s[j] == s[j..j + |ShowTail(rs)|][0];
    }
  }

  /** The text of non-empty alternatives after the first: `|`, one alternative, the rest. */
  lemma TailUnfold(rs: seq<Regex>)
    requires rs != []
    ensures ShowTail(rs) == "|" + ShowCat(rs[0]) + ShowTail(rs[1..])
  {
  }

  /** Text that holds `t`, which is `|`, then `x`, then `y`, at `i` splits into the three. */
  lemma SplitBar(s: string, i: nat, t: string, x: string, y: string)
    requires t == "|" + x + y
    requires i + |t| <= |s| && s[i..i + |t|] == t
    ensures s[i] == '|'
    ensures i + 1 + |x| + |y| == i + |t|
    ensures s[i + 1..i + 1 + |x|] == x
    ensures s[i + 1 + |x|..i + 1 + |x| + |y|] == y
  {
    SplitAt3(s, i, "|", x, y);
    FirstChar(s, i, "|");
  }

  lemma AlternativesCons(rs: seq<Regex>, s: string, i: nat, j: nat, k: nat)
    requires rs != [] && i < |s| && s[i] == '|' && i + 1 <= j <= k <= |s|
    requires Concat(s, i + 1) == Some((rs[0], j)) && Alternatives(s, j) == (rs[1..], k)
    ensures Alternatives(s, i) == (rs, k)
  {
    assert [rs[0]] + rs[1..] == rs;
  }

  /** The alternatives after the first are concatenations too. */
  lemma CatsTail(rs: seq<Regex>)
    requires rs != [] && forall k :: 0 <= k < |rs| ==> IsCatShape(rs[k])
    ensures forall k :: 0 <= k < |rs[1..]| ==> IsCatShape(rs[1..][k])
  {
  }

  lemma {:induction false} AlternativesComplete(rs: seq<Regex>, s: string, i: nat)
    requires forall k :: 0 <= k < |rs| ==> IsCatShape(rs[k])
    requires i + |ShowTail(rs)| <= |s| && s[i..i + |ShowTail(rs)|] == ShowTail(rs)
    requires i + |ShowTail(rs)| == |s| || s[i + |ShowTail(rs)|] == ')'
    ensures Alternatives(s, i) == (rs, i + |ShowTail(rs)|)
    decreases SizeAll(rs), 1
  {
    if rs != [] {
      TailUnfold(rs);
      SplitBar(s, i, ShowTail(rs), ShowCat(rs[0]), ShowTail(rs[1..]));
      CatsTail(rs);
      assert SizeAll(rs) == Size(rs[0]) + SizeAll(rs[1..]);
      var j := i + 1 + |ShowCat(rs[0])|;
      TailStart(rs[1..], s, j);
      ConcatComplete(rs[0], s, i + 1);
      AlternativesComplete(rs[1..], s, j);
      AlternativesCons(rs, s, i, j, i + |ShowTail(rs)|);
    }
  }

  /** The text of an expression: its first alternative, then the others. */
  lemma ExprSplit(r: Regex, s: string, i: nat)
    requires IsExprShape(r)
    requires i + |Show(r)| <= |s| && s[i..i + |Show(r)|] == Show(r)
    ensures var j := i + |ShowCat(r.alts[0])|;
            && j + |ShowTail(r.alts[1..])| == i + |Show(r)|
            && s[i..j] == ShowCat(r.alts[0])
            && s[j..j + |ShowTail(r.alts[1..])|] == ShowTail(r.alts[1..])
  {
    var rs := r.alts;
    assert Show(r) == ShowCat(rs[0]) + ShowTail(rs[1..]);
    SplitAt(s, i, ShowCat(rs[0]), ShowTail(rs[1..]));
  }

  lemma ExprCons(rs: seq<Regex>, s: string, i: nat, j: nat, k: nat)
    requires rs != [] && i <= j <= k <= |s|
    requires Concat(s, i) == Some((rs[0], j)) && Alternatives(s, j) == (rs[1..], k)
    ensures Expr(s, i) == Some((Alt(rs), k))
  {
    assert [rs[0]] + rs[1..] == rs;
  }

  lemma {:induction false} ExprComplete(r: Regex, s: string, i: nat)
    requires IsExprShape(r)
    requires i + |Show(r)| <= |s| && s[i..i + |Show(r)|] == Show(r)
    requires i + |Show(r)| == |s| || s[i + |Show(r)|] == ')'
    ensures Expr(s, i) == Some((r, i + |Show(r)|))
    decreases Size(r), 0
  {
    var rs := r.alts;
    assert Size(r) == 1 + SizeAll(rs) && SizeAll(rs) == Size(rs[0]) + SizeAll(rs[1..]);
    ExprSplit(r, s, i);
    var j := i + |ShowCat(rs[0])|;
    TailStart(rs[1..], s, j);
    ConcatComplete(rs[0], s, i);
    AlternativesComplete(rs[1..], s, j);
    ExprCons(rs, s, i, j, i + |Show(r)|);
  }

  // No space ever appears in the text of a tree of expression shape.

  lemma {:induction false} NoSpaceAtom(a: Regex)
    requires IsAtomShape(a)
    ensures ' ' !in ShowAtom(a)
    decreases Size(a), 1
  {
    var b := if a.Star? then a.body else a;
    match b
    case Eps =>
    case Tok(_) =>
    case Alt(rs) =>
      assert IsExprShape(b);
      assert SizeAll(rs) < Size(b) <= Size(a);
      NoSpaceAlts(rs);
  }

  lemma {:induction false} NoSpaceAtoms(ps: seq<Regex>)
    requires forall k :: 0 <= k < |ps| ==> IsAtomShape(ps[k])
    ensures ' ' !in ShowAtoms(ps)
    decreases SizeAll(ps), 2
  {
    if ps != [] {
      NoSpaceAtom(ps[0]);
      NoSpaceAtoms(ps[1..]);
    }
  }

  lemma {:induction false} NoSpaceTail(rs: seq<Regex>)
    requires forall k :: 0 <= k < |rs| ==> IsCatShape(rs[k])
    ensures ' ' !in ShowTail(rs)
    decreases SizeAll(rs), 0
  {
    if rs != [] {
      assert SizeAll(rs) == Size(rs[0]) + SizeAll(rs[1..]);
      assert Size(rs[0]) == 1 + SizeAll(rs[0].parts);
      NoSpaceAtoms(rs[0].parts);
      NoSpaceTail(rs[1..]);
    }
  }

  lemma {:induction false} NoSpaceAlts(rs: seq<Regex>)
    requires forall k :: 0 <= k < |rs| ==> IsCatShape(rs[k])
    ensures ' ' !in ShowAlts(rs)
    decreases SizeAll(rs), 0
  {
    if rs != [] {
      assert SizeAll(rs) == Size(rs[0]) + SizeAll(rs[1..]);
      assert Size(rs[0]) == 1 + SizeAll(rs[0].parts);
      NoSpaceAtoms(rs[0].parts);
      NoSpaceTail(rs[1..]);
    }
  }

  lemma {:induction false} StripNoSpaces(s: string)
    requires ' ' !in s
    ensures StripSpaces(s) == s
  {
    if s != [] {
      assert s[0] in s;
      assert ' ' !in s[1..] by {
        forall k | 0 <= k < |s[1..]| ensures s[1..][k] != ' ' {
          assert s[1..][k] == s[k + 1];
        }
      }
      StripNoSpaces(s[1..]);
    }
  }

  /** The inverse direction: every tree of expression shape is parsed back from its text. */
  lemma ParseShow(r: Regex)
    requires IsExprShape(r)
    ensures Parse(Show(r)) == Ok(r)
  {
    NoSpaceAlts(r.alts);
    StripNoSpaces(Show(r));
    ExprComplete(r, Show(r), 0);
    assert Show(r)[0..|Show(r)|] == Show(r);
  }

  /** Two texts read as the same tree differ only in their spaces. */
  lemma ParseInjective(t1: string, t2: string)
    requires Parse(t1).Ok? && Parse(t2).Ok? && Parse(t1).value == Parse(t2).value
    ensures StripSpaces(t1) == StripSpaces(t2)
  {
    ParseSound(t1);
    ParseSound(t2);
  }

  /** The empty text has no first atom. */
  lemma ParseEmptyFails()
    ensures Parse("") == Err(ParseError)
  {
  }

  /** A second star has no base to apply to, so the text is not consumed. */
  lemma ParseDoubleStarFails()
    ensures Parse("a**") == Err(ParseError)
  {
    assert StripSpaces("a**") == "a**";
    assert Atom("a**", 0) == Some((Star(Tok('a')), 2));
    assert Atoms("a**", 2) == ([], 2);
  }

  /** An empty group has no atom inside, so the group is no atom either. */
  lemma ParseEmptyGroupFails()
    ensures Parse("()") == Err(ParseError)
  {
    assert StripSpaces("()") == "()";
    assert Atom("()", 1) == None;
    assert Atoms("()", 1) == ([], 1);
    assert Expr("()", 1) == None;
    assert Atom("()", 0) == None;
  }

  /** Any text whose spaces removed is the text of a tree is read as that tree. */
  lemma ParseVia(text: string, r: Regex)
    requires IsExprShape(r) && StripSpaces(text) == Show(r)
    ensures Parse(text) == Ok(r)
  {
    NoSpaceAlts(r.alts);
    StripNoSpaces(Show(r));
    ParseShow(r);
  }

  /** The tree of the example below and its text. */
  lemma ExampleShow(r: Regex)
    requires r == Alt([Cat([Tok('a'), Tok('b')]), Cat([Star(Tok('c'))])])
    ensures IsExprShape(r) && Show(r) == "ab|c*"
  {
    var c1, c2 := r.alts[0], r.alts[1];
    assert IsAtomShape(Tok('a')) && IsAtomShape(Tok('b')) && IsAtomShape(Star(Tok('c')));
    assert IsCatShape(c1) && IsCatShape(c2);
    assert ShowCat(c1) == "ab" by {
      assert ShowAtoms([Tok('b')]) == "b";
    }
    assert ShowCat(c2) == "c*";
    assert ShowTail([c2]) == "|c*";
  }

  lemma ExampleStrip(text: string)
    requires text == "a b | c*"
    ensures StripSpaces(text) == "ab|c*"
  {
    assert StripSpaces("| c*") == "|c*";
    assert StripSpaces("a b | c*") == "ab|c*";
  }


  /** Spaces are dropped before the grammar runs. */
  lemma ParseExample(text: string)
    requires text == "a b | c*"
    ensures Parse(text) == Ok(Alt([Cat([Tok('a'), Tok('b')]), Cat([Star(Tok('c'))])]))
  {
    var r := Alt([Cat([Tok('a'), Tok('b')]), Cat([Star(Tok('c'))])]);
    ExampleShow(r);
    ExampleStrip(text);
    ParseVia(text, r);
  }

  /** Any character outside `%*()|` and the space is a token, a tab included. */
  lemma ParseTab()
    ensures Parse("\t") == Ok(Alt([Cat([Tok('\t')])]))
  {
    var t := Alt([Cat([Tok('\t')])]);
    assert Show(t) == "\t";
    ParseShow(t);
  }
}
