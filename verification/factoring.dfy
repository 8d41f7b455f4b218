/** Left factoring as `GrammarTransformer.Factorize` performs it: for each
    nonterminal `A`, its alternatives are grouped by first token; a group of
    two or more becomes the one alternative `prefix A'` and writes the
    group's remainders to `result[A']`; a group of one keeps its alternative.
    Every group of a nonterminal writes to the same key `A'`, and every write
    into the result replaces what was there. */
module Factoring {
  import opened Tokens
  import opened Lookup
  import opened Grammars

  /** A group of two or more: the only groups that are factored. */
  predicate Shared(g: Group)
  {
    |g.members| > 1
  }

  /** The alternative that stands for one group in the new list of `a`. */
  function Replacement(a: string, g: Group): string
    requires g.members != []
  {
    if Shared(g) then g.key + [Space] + Prime(a) else g.members[0]
  }

  /** The group members with their first token dropped, in order. */
  function Remainders(ms: seq<string>): seq<string>
  {
    seq(|ms|, i requires 0 <= i < |ms| => Remainder(ms[i]))
  }

  /** The new alternatives of `a` for the first `n` groups: one per group. */
  function Replacements(a: string, gs: seq<Group>, n: nat): seq<string>
    requires n <= |gs| && forall i :: 0 <= i < |gs| ==> gs[i].members != []
  {
    if n == 0 then [] else Replacements(a, gs, n - 1) + [Replacement(a, gs[n - 1])]
  }

  /** The writes `result[A'] = subRules` of the first `n` groups, one per shared group. */
  function GroupWrites(a: string, gs: seq<Group>, n: nat): seq<Write>
    requires n <= |gs|
  {
    if n == 0 then []
    else GroupWrites(a, gs, n - 1) + (if Shared(gs[n - 1]) then [(Prime(a), Remainders(gs[n - 1].members))] else [])
  }

  /** The steps logged for the first `n` groups, one per shared group. */
  function GroupSteps(a: string, gs: seq<Group>, n: nat): seq<Step>
    requires n <= |gs|
  {
    if n == 0 then []
    else GroupSteps(a, gs, n - 1) + (if Shared(gs[n - 1]) then [Factored(a, gs[n - 1].key, Prime(a))] else [])
  }

  /** What group `j` adds to the writes, the steps and the new alternatives. */
  lemma GroupSnoc(a: string, gs: seq<Group>, j: nat)
    requires j < |gs| && forall i :: 0 <= i < |gs| ==> gs[i].members != []
    ensures GroupWrites(a, gs, j + 1) ==
              GroupWrites(a, gs, j) + if Shared(gs[j]) then [(Prime(a), Remainders(gs[j].members))] else []
    ensures GroupSteps(a, gs, j + 1) ==
              GroupSteps(a, gs, j) + if Shared(gs[j]) then [Factored(a, gs[j].key, Prime(a))] else []
    ensures Replacements(a, gs, j + 1) == Replacements(a, gs, j) + [Replacement(a, gs[j])]
  {
  }

  /** The new alternatives of `a`. */
  function NewAlternatives(a: string, alts: seq<string>): seq<string>
  {
    var gs := GroupByFirst(alts);
    Replacements(a, gs, |gs|)
  }

  /** All the writes made for one nonterminal: its groups', then `result[a]`. */
  function EntryWrites(a: string, alts: seq<string>): seq<Write>
  {
    var gs := GroupByFirst(alts);
    GroupWrites(a, gs, |gs|) + [(a, NewAlternatives(a, alts))]
  }

  /** The steps logged for one nonterminal. */
  function EntrySteps(a: string, alts: seq<string>): seq<Step>
  {
    var gs := GroupByFirst(alts);
    GroupSteps(a, gs, |gs|)
  }

  /** All the steps for the first `n` nonterminals. */
  function Steps(g: Grammar, n: nat): seq<Step>
    requires n <= |g|
  {
    Concat(Blocks(g, EntrySteps), n)
  }

  /** What `Factorize` returns for `g`. */
  function Factorization(g: Grammar): Transformed
  {
    Transformed(Run(map[], Blocks(g, EntryWrites), |g|), Steps(g, |g|))
  }
}
