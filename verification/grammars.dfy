/** The values the transformer works on: the input dictionary as its entries
    in enumeration order, the result dictionary, the trace of steps, and the
    writes `result[key] = value` through which the result is built. */
module Grammars {

  /** The input `Dictionary<string, List<string>>`: each nonterminal with its
      alternatives, in the dictionary's enumeration order. */
  type Grammar = seq<(string, seq<string>)>

  /** The result dictionary. */
  type Productions = map<string, seq<string>>

  /** One indexer assignment `result[key] = value`. */
  type Write = (string, seq<string>)

  /** One trace line, kept as the facts it reports rather than as text. */
  datatype Step =
    | Factored(nonTerminal: string, prefix: string, newName: string)
    | Eliminated(nonTerminal: string, newName: string)

  /** The `{ productions, steps }` bundle each transformation returns. */
  datatype Transformed = Transformed(productions: Productions, steps: seq<Step>)

  /** The exception the elimination can raise: `symbols[0]` on an alternative without a word. */
  datatype Error = IndexOutOfRange

  datatype Result<T> = Success(value: T) | Failure(error: Error)

  /** The name both transformations give the nonterminal they introduce. */
  function Prime(a: string): (r: string)
    ensures |r| == |a| + 1 && r != a
  {
    a + "'"
  }

  /** A dictionary has each key once. */
  predicate DistinctKeys(g: Grammar)
  {
    forall i, j :: 0 <= i < j < |g| ==> g[i].0 != g[j].0
  }

  /** No nonterminal is named like the primed name of another one. */
  predicate NoPrimeClash(g: Grammar)
  {
    forall i, j :: 0 <= i < |g| && 0 <= j < |g| ==> g[i].0 != Prime(g[j].0)
  }

  /** The result of performing the writes `ws` in order on `m`. */
  function ApplyWrites(m: Productions, ws: seq<Write>): Productions
  {
    if ws == [] then m
    else
      var w := ws[|ws| - 1];
      ApplyWrites(m, ws[..|ws| - 1])[w.0 := w.1]
  }

  lemma ApplyWritesSnoc(m: Productions, ws: seq<Write>, w: Write)
    ensures ApplyWrites(m, ws + [w]) == ApplyWrites(m, ws)[w.0 := w.1]
  {
    assert (ws + [w])[..|ws|] == ws;
  }

  /** Last write wins: a key ends up with the value of the last write to it. */
  lemma {:induction false} LastWriteWins(m: Productions, ws: seq<Write>, i: nat)
    requires i < |ws|
    requires forall j :: i < j < |ws| ==> ws[j].0 != ws[i].0
    ensures ws[i].0 in ApplyWrites(m, ws) && ApplyWrites(m, ws)[ws[i].0] == ws[i].1
  {
    if i < |ws| - 1 {
      LastWriteWins(m, ws[..|ws| - 1], i);
    }
  }

  /** A key that no write names keeps whatever it had (or stays absent). */
  lemma {:induction false} UnwrittenKey(m: Productions, ws: seq<Write>, k: string)
    requires forall j :: 0 <= j < |ws| ==> ws[j].0 != k
    ensures k in ApplyWrites(m, ws) <==> k in m
    ensures k in m ==> ApplyWrites(m, ws)[k] == m[k]
  {
    if ws != [] {
      UnwrittenKey(m, ws[..|ws| - 1], k);
    }
  }

  /** Two nonterminals get the same primed name only if they are the same. */
  lemma PrimeInjective(a: string, b: string)
    ensures Prime(a) == Prime(b) <==> a == b
  {
    if Prime(a) == Prime(b) {
      assert a == Prime(a)[..|a|];
      assert b == Prime(b)[..|b|];
    }
  }

  /** The input dictionary itself, as a result: each nonterminal with its list. */
  function AsMap(g: Grammar): Productions
  {
    ApplyWrites(map[], g)
  }

  /** The writes made for nonterminal `a` touch only `a` and `a'`. */
  predicate OwnKeys(a: string, ws: seq<Write>)
  {
    forall j :: 0 <= j < |ws| ==> ws[j].0 == a || ws[j].0 == Prime(a)
  }

  /** What each nonterminal contributes, in the order of the grammar, when
      nonterminal `a` with alternatives `alts` contributes `entry(a, alts)`:
      its writes to the result, or the steps it logs. */
  function Blocks<T>(g: Grammar, entry: (string, seq<string>) -> seq<T>): (bs: seq<seq<T>>)
    ensures |bs| == |g|
  {
    seq(|g|, e requires 0 <= e < |g| => entry(g[e].0, g[e].1))
  }

  /** The result after the first `n` nonterminals, when the `e`th performs
      the writes `blocks[e]`. */
  function Run(m: Productions, blocks: seq<seq<Write>>, n: nat): Productions
    requires n <= |blocks|
  {
    if n == 0 then m else ApplyWrites(Run(m, blocks, n - 1), blocks[n - 1])
  }

  /** The steps logged for the first `n` nonterminals, when the `e`th logs
      `blocks[e]`. */
  function Concat(blocks: seq<seq<Step>>, n: nat): seq<Step>
    requires n <= |blocks|
  {
    if n == 0 then [] else Concat(blocks, n - 1) + blocks[n - 1]
  }

  /** Writes add keys and never remove one: the keys after the writes are
      the keys before and the keys written. */
  lemma {:induction false} ApplyWritesKeys(m: Productions, ws: seq<Write>)
    ensures forall k :: k in ApplyWrites(m, ws) <==> k in m || exists j :: 0 <= j < |ws| && ws[j].0 == k
  {
    if ws != [] {
      var init := ws[..|ws| - 1];
      ApplyWritesKeys(m, init);
      assert forall j :: 0 <= j < |init| ==> init[j] == ws[j];
    }
  }

  /** The keys of the result after the first `n` nonterminals are exactly
      the keys some of their writes name. */
  lemma {:induction false} RunKeys(blocks: seq<seq<Write>>, n: nat)
    requires n <= |blocks|
    ensures forall k :: k in Run(map[], blocks, n) <==>
              exists e, j :: 0 <= e < n && 0 <= j < |blocks[e]| && blocks[e][j].0 == k
  {
    if n > 0 {
      RunKeys(blocks, n - 1);
      ApplyWritesKeys(Run(map[], blocks, n - 1), blocks[n - 1]);
    }
  }

  /** A step is logged for the first `n` nonterminals exactly when one of
      them logs it. */
  lemma {:induction false} ConcatIn(blocks: seq<seq<Step>>, n: nat)
    requires n <= |blocks|
    ensures forall s :: s in Concat(blocks, n) <==> exists e :: 0 <= e < n && s in blocks[e]
  {
    if n > 0 {
      ConcatIn(blocks, n - 1);
    }
  }

  /** The writes of nonterminal `a` leave every other key as it was. */
  lemma OwnKeysPreserve(m: Productions, a: string, ws: seq<Write>, k: string)
    requires OwnKeys(a, ws) && k != a && k != Prime(a)
    ensures k in ApplyWrites(m, ws) <==> k in m
    ensures k in m ==> ApplyWrites(m, ws)[k] == m[k]
  {
    UnwrittenKey(m, ws, k);
  }

  /** Two dictionaries that agree on `k` still agree on it after the same writes. */
  lemma {:induction false} SameWritesAgree(m1: Productions, m2: Productions, ws: seq<Write>, k: string)
    requires (k in m1 <==> k in m2) && (k in m1 ==> m1[k] == m2[k])
    ensures var r1, r2 := ApplyWrites(m1, ws), ApplyWrites(m2, ws);
            (k in r1 <==> k in r2) && (k in r1 ==> r1[k] == r2[k])
  {
    if ws != [] {
      SameWritesAgree(m1, m2, ws[..|ws| - 1], k);
    }
  }

  /** Nonterminals `i` to `n - 1`, none of which owns `k`, leave `k` as it was. */
  lemma {:induction false} RunPreserves(g: Grammar, blocks: seq<seq<Write>>, i: nat, n: nat, k: string)
    requires |blocks| == |g| && i <= n <= |g|
    requires forall e :: i <= e < n ==> OwnKeys(g[e].0, blocks[e]) && k != g[e].0 && k != Prime(g[e].0)
    ensures var m, m' := Run(map[], blocks, i), Run(map[], blocks, n);
            (k in m' <==> k in m) && (k in m ==> m'[k] == m[k])
  {
    if n > i {
      RunPreserves(g, blocks, i, n - 1, k);
      OwnKeysPreserve(Run(map[], blocks, n - 1), g[n - 1].0, blocks[n - 1], k);
    }
  }

  /** The keys that the writes of one nonterminal never touch when the
      keys are distinct and no key is the primed name of another. */
  lemma Apart(g: Grammar, i: nat, e: nat)
    requires DistinctKeys(g) && NoPrimeClash(g)
    requires i < |g| && e < |g| && i != e
    ensures g[i].0 != g[e].0 && g[i].0 != Prime(g[e].0)
    ensures Prime(g[i].0) != g[e].0 && Prime(g[i].0) != Prime(g[e].0)
  {
    PrimeInjective(g[i].0, g[e].0);
  }

  /** When each nonterminal writes only itself and its primed name, the keys
      are distinct and none is the primed name of another, the final value
      of `A` and of `A'` is what `A`'s own writes give them. */
  lemma EntryOwnsKey(g: Grammar, blocks: seq<seq<Write>>, i: nat, k: string)
    requires |blocks| == |g| && i < |g| && DistinctKeys(g) && NoPrimeClash(g)
    requires forall e :: 0 <= e < |g| ==> OwnKeys(g[e].0, blocks[e])
    requires k == g[i].0 || k == Prime(g[i].0)
    ensures var m, mi := Run(map[], blocks, |g|), ApplyWrites(map[], blocks[i]);
            (k in m <==> k in mi) && (k in mi ==> m[k] == mi[k])
  {
    forall e | 0 <= e < |g| && e != i
      ensures k != g[e].0 && k != Prime(g[e].0)
    {
      Apart(g, i, e);
    }
    RunPreserves(g, blocks, 0, i, k);
    SameWritesAgree(Run(map[], blocks, i), map[], blocks[i], k);
    RunPreserves(g, blocks, i + 1, |g|, k);
  }

  /** When every nonterminal writes just its own entry, the result is the input dictionary. */
  lemma {:induction false} RunSingletons(g: Grammar, blocks: seq<seq<Write>>, n: nat)
    requires |blocks| == |g| && n <= |g|
    requires forall e :: 0 <= e < |g| ==> blocks[e] == [g[e]]
    ensures Run(map[], blocks, n) == ApplyWrites(map[], g[..n])
  {
    if n > 0 {
      RunSingletons(g, blocks, n - 1);
      var prev := Run(map[], blocks, n - 1);
      assert Run(map[], blocks, n) == ApplyWrites(prev, blocks[n - 1]);
      assert blocks[n - 1] == [] + [g[n - 1]];
      ApplyWritesSnoc(prev, [], g[n - 1]);
      assert g[..n] == g[..n - 1] + [g[n - 1]];
      ApplyWritesSnoc(map[], g[..n - 1], g[n - 1]);
    }
  }
}
