/** The regular-expression tree shared by the parser, the automata and the transfer,
    and the language each tree denotes. */
module Regex {

  /** A regular expression: `('eps', '%')`, `('tok', c)`, `('.', [...])`, `('|', [...])`
      and `('*', e)` in the program's tuple encoding. */
  datatype Regex =
    | Eps
    | Tok(c: char)
    | Cat(parts: seq<Regex>)
    | Alt(alts: seq<Regex>)
    | Star(body: Regex)

  /** The empty alternation, which denotes the empty language. */
  const Zero: Regex := Alt([])

  /** The character that stands for epsilon in the text and on automaton edges. */
  const EpsChar: char := '%'

  /** `w` belongs to the language of `r`. A star splits its word into non-empty pieces. */
  predicate Matches(r: Regex, w: string)
    decreases r, |w|
  {
    match r
    case Eps => w == []
    case Tok(c) => w == [c]
    case Alt(rs) => exists i :: 0 <= i < |rs| && Matches(rs[i], w)
    case Cat(rs) => MatchesCat(rs, w)
    case Star(b) =>
      w == [] || exists k :: 1 <= k <= |w| && Matches(b, w[..k]) && Matches(r, w[k..])
  }

  /** `w` splits into consecutive pieces matched by `rs` in order. */
  predicate MatchesCat(rs: seq<Regex>, w: string)
    decreases rs, |w|
  {
    if rs == [] then w == []
    else exists k :: 0 <= k <= |w| && Matches(rs[0], w[..k]) && MatchesCat(rs[1..], w[k..])
  }

  /** The number of nodes of `r`: a measure that every proper part of `r` decreases. */
  function Size(r: Regex): (n: nat)
    ensures n >= 1
    decreases r
  {
    match r
    case Eps => 1
    case Tok(_) => 1
    case Cat(rs) => 1 + SizeAll(rs)
    case Alt(rs) => 1 + SizeAll(rs)
    case Star(b) => 1 + Size(b)
  }

  function SizeAll(rs: seq<Regex>): nat
    decreases rs
  {
    if rs == [] then 0 else Size(rs[0]) + SizeAll(rs[1..])
  }
}
