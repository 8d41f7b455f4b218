/** Direct left-recursion elimination as
    `GrammarTransformer.EliminateLeftRecursion` performs it: the alternatives
    of `A` whose first word is `A` give `alpha` (their other words, joined by
    single spaces), all others give `beta` (verbatim); when `alpha` is not
    empty, `A -> beta A'` and `A' -> alpha A' | ε`, otherwise `A` keeps its
    list. An alternative without a word makes `symbols[0]` throw, which ends
    the whole call. */
module Elimination {
  import opened Tokens
  import opened Grammars

  /** The empty alternative the rewrite appends to `A'`. */
  const Epsilon: string := "ε"

  /** `symbols[0] == A`, for an alternative that has a first word. */
  predicate StartsWith(a: string, p: string)
  {
    Words(p) != [] && Words(p)[0] == a
  }

  /** Every alternative has a word, so `symbols[0]` is defined for each
      (`WordsEmptyIffBlank`: the others are the blank ones). */
  predicate HasWords(alts: seq<string>)
  {
    forall i :: 0 <= i < |alts| ==> Words(alts[i]) != []
  }

  /** No alternative of any nonterminal makes the elimination throw. */
  predicate WellFormed(g: Grammar)
  {
    forall i :: 0 <= i < |g| ==> HasWords(g[i].1)
  }

  /** The first `n` nonterminals make the elimination throw nowhere. */
  predicate WellFormedUpTo(g: Grammar, n: nat)
    requires n <= |g|
  {
    n == 0 || (WellFormedUpTo(g, n - 1) && HasWords(g[n - 1].1))
  }

  lemma {:induction false} WellFormedUpToAll(g: Grammar, n: nat)
    requires n <= |g|
    ensures WellFormedUpTo(g, n) <==> forall i :: 0 <= i < n ==> HasWords(g[i].1)
  {
    if n > 0 {
      WellFormedUpToAll(g, n - 1);
    }
  }

  /** What an alternative starting with `A` contributes to `alpha`. */
  function Rest(p: string): string
    requires Words(p) != []
  {
    Join(Words(p)[1..])
  }

  /** What the inner loop makes of one alternative: `LeftRecursive(rest)`
      when its first word is `A`, `rest` going to `alpha`; `Other` when it
      goes to `beta` verbatim. */
  datatype Kind = LeftRecursive(rest: string) | Other

  /** The kind of one alternative of `a`. Nothing is lost: `a` followed by
      the words of the rest is the alternative's word list. */
  function Classify(a: string, p: string): (k: Kind)
    ensures k.LeftRecursive? <==> StartsWith(a, p)
    ensures k.LeftRecursive? ==> Words(p) == [a] + Words(k.rest)
  {
    if StartsWith(a, p) then RestWords(p); LeftRecursive(Rest(p)) else Other
  }

  /** The kind of each alternative of `a`. */
  function Kinds(a: string, alts: seq<string>): (ks: seq<Kind>)
    ensures |ks| == |alts|
  {
    seq(|alts|, i requires 0 <= i < |alts| => Classify(a, alts[i]))
  }

  /** The `alpha` parts of the first `n` kinds, in order. */
  function AlphaOf(ks: seq<Kind>, n: nat): seq<string>
    requires n <= |ks|
  {
    if n == 0 then []
    else AlphaOf(ks, n - 1) + (if ks[n - 1].LeftRecursive? then [ks[n - 1].rest] else [])
  }

  /** The first `n` alternatives whose kind is `Other`, in order. */
  function BetaOf(alts: seq<string>, ks: seq<Kind>, n: nat): seq<string>
    requires n <= |alts| && n <= |ks|
  {
    if n == 0 then []
    else BetaOf(alts, ks, n - 1) + (if ks[n - 1].LeftRecursive? then [] else [alts[n - 1]])
  }

  /** The rest of an alternative is its words after the first: splitting
      the re-joined rest again gives exactly those words. */
  lemma RestWords(p: string)
    requires Words(p) != []
    ensures Words(p) == [Words(p)[0]] + Words(Rest(p))
  {
    var ws := Words(p);
    WordsShape(p);
    WordsJoin(ws[1..]);
  }

  /** `alpha` of the first `n` alternatives: those starting with `a`, that
      word removed, in order. */
  function Alpha(a: string, alts: seq<string>, n: nat): seq<string>
    requires n <= |alts|
  {
    AlphaOf(Kinds(a, alts), n)
  }

  /** `beta` of the first `n` alternatives: the others, unchanged, in order. */
  function Beta(a: string, alts: seq<string>, n: nat): seq<string>
    requires n <= |alts|
  {
    BetaOf(alts, Kinds(a, alts), n)
  }

  /** Each of `xs` followed by a space and `s`. */
  function Suffixed(xs: seq<string>, s: string): (r: seq<string>)
    ensures |r| == |xs|
  {
    seq(|xs|, i requires 0 <= i < |xs| => xs[i] + [Space] + s)
  }

  /** The new alternatives of `a`. */
  function NewAlternatives(a: string, alts: seq<string>): seq<string>
  {
    var alpha, beta := Alpha(a, alts, |alts|), Beta(a, alts, |alts|);
    if alpha != [] then Suffixed(beta, Prime(a)) else alts
  }

  /** The alternatives of the new nonterminal `a'`. */
  function PrimedAlternatives(a: string, alts: seq<string>): seq<string>
  {
    Suffixed(Alpha(a, alts, |alts|), Prime(a)) + [Epsilon]
  }

  /** The writes made for one nonterminal. */
  function EntryWrites(a: string, alts: seq<string>): seq<Write>
  {
    if Alpha(a, alts, |alts|) != [] then
      [(a, NewAlternatives(a, alts)), (Prime(a), PrimedAlternatives(a, alts))]
    else
      [(a, alts)]
  }

  /** The step logged for one nonterminal: one exactly when it was rewritten. */
  function EntrySteps(a: string, alts: seq<string>): seq<Step>
  {
    if Alpha(a, alts, |alts|) != [] then [Eliminated(a, Prime(a))] else []
  }

  /** All the steps for the first `n` nonterminals. */
  function Steps(g: Grammar, n: nat): seq<Step>
    requires n <= |g|
  {
    Concat(Blocks(g, EntrySteps), n)
  }

  /** What `EliminateLeftRecursion` returns for `g`, or the exception it raises. */
  function Elimination(g: Grammar): Result<Transformed>
  {
    if WellFormed(g) then Success(Transformed(Run(map[], Blocks(g, EntryWrites), |g|), Steps(g, |g|)))
    else Failure(IndexOutOfRange)
  }
}
