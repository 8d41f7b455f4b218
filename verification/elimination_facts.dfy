/** What the elimination guarantees: the split into `alpha` and `beta`, the
    two entries written for a left-recursive nonterminal, one step per
    rewritten nonterminal, no direct left recursion afterwards, and the
    exception exactly on blank alternatives. */
module EliminationFacts {
  import opened Tokens
  import opened Grammars
  import opened Elimination

  /** Every kind goes to exactly one of the two parts. */
  lemma {:induction false} PartsSizes(alts: seq<string>, ks: seq<Kind>, n: nat)
    requires n <= |alts| && n <= |ks|
    ensures |AlphaOf(ks, n)| + |BetaOf(alts, ks, n)| == n
  {
    if n > 0 {
      PartsSizes(alts, ks, n - 1);
    }
  }

  /** The `alpha` part holds the rest of each `LeftRecursive` kind and nothing else. */
  lemma {:induction false} AlphaOfMembers(ks: seq<Kind>, n: nat)
    requires n <= |ks|
    ensures forall r :: r in AlphaOf(ks, n) <==> exists i :: 0 <= i < n && ks[i] == LeftRecursive(r)
  {
    if n > 0 {
      AlphaOfMembers(ks, n - 1);
      forall r | r in AlphaOf(ks, n) && r !in AlphaOf(ks, n - 1)
        ensures ks[n - 1] == LeftRecursive(r)
      {
      }
    }
  }

  /** The `beta` part holds the alternatives of kind `Other` and nothing else. */
  lemma {:induction false} BetaOfMembers(alts: seq<string>, ks: seq<Kind>, n: nat)
    requires n <= |alts| && n <= |ks|
    ensures forall p :: p in BetaOf(alts, ks, n) <==> exists i :: 0 <= i < n && ks[i] == Other && alts[i] == p
  {
    if n > 0 {
      BetaOfMembers(alts, ks, n - 1);
    }
  }

  /** The `alpha` part is empty exactly when no kind is `LeftRecursive`. */
  lemma {:induction false} AlphaOfEmpty(ks: seq<Kind>, n: nat)
    requires n <= |ks|
    ensures AlphaOf(ks, n) == [] <==> forall i :: 0 <= i < n ==> ks[i] == Other
  {
    if n > 0 {
      AlphaOfEmpty(ks, n - 1);
    }
  }

  /** Every alternative goes to exactly one of `alpha` and `beta`. */
  lemma PartitionSizes(a: string, alts: seq<string>, n: nat)
    requires n <= |alts|
    ensures |Alpha(a, alts, n)| + |Beta(a, alts, n)| == n
  {
    PartsSizes(alts, Kinds(a, alts), n);
  }

  /** `alpha` holds, for each alternative whose first word is `a`, its other
      words joined, and nothing else. */
  lemma AlphaMembers(a: string, alts: seq<string>, n: nat)
    requires n <= |alts|
    ensures forall r :: r in Alpha(a, alts, n) <==>
              exists i :: 0 <= i < n && StartsWith(a, alts[i]) && r == Rest(alts[i])
  {
    var ks := Kinds(a, alts);
    AlphaOfMembers(ks, n);
    forall r
      ensures r in Alpha(a, alts, n) <==>
                exists i :: 0 <= i < n && StartsWith(a, alts[i]) && r == Rest(alts[i])
    {
      if r in Alpha(a, alts, n) {
        var i :| 0 <= i < n && ks[i] == LeftRecursive(r);
        assert StartsWith(a, alts[i]) && r == Rest(alts[i]);
      }
      if exists i :: 0 <= i < n && StartsWith(a, alts[i]) && r == Rest(alts[i]) {
        var i :| 0 <= i < n && StartsWith(a, alts[i]) && r == Rest(alts[i]);
        assert ks[i] == LeftRecursive(r);
      }
    }
  }

  /** `beta` holds the alternatives whose first word is not `a`, verbatim,
      and nothing else. */
  lemma BetaMembers(a: string, alts: seq<string>, n: nat)
    requires n <= |alts|
    ensures forall p :: p in Beta(a, alts, n) <==> p in alts[..n] && !StartsWith(a, p)
  {
    var ks := Kinds(a, alts);
    BetaOfMembers(alts, ks, n);
    forall p
      ensures p in Beta(a, alts, n) <==> p in alts[..n] && !StartsWith(a, p)
    {
      if p in alts[..n] && !StartsWith(a, p) {
        var i :| 0 <= i < n && alts[..n][i] == p;
        assert ks[i] == Other && alts[i] == p;
      }
    }
  }

  /** `alpha` is empty exactly when no alternative starts with `a`. */
  lemma AlphaEmpty(a: string, alts: seq<string>, n: nat)
    requires n <= |alts|
    ensures Alpha(a, alts, n) == [] <==> forall i :: 0 <= i < n ==> !StartsWith(a, alts[i])
  {
    var ks := Kinds(a, alts);
    AlphaOfEmpty(ks, n);
    assert forall i :: 0 <= i < n ==> (ks[i] == Other <==> !StartsWith(a, alts[i]));
  }

  /** The elimination throws exactly when some alternative is blank. */
  lemma WellFormedIffNoBlank(g: Grammar)
    ensures WellFormed(g) <==>
              forall i, j :: 0 <= i < |g| && 0 <= j < |g[i].1| ==> !Blank(g[i].1[j])
  {
    forall i, j | 0 <= i < |g| && 0 <= j < |g[i].1|
      ensures Words(g[i].1[j]) == [] <==> Blank(g[i].1[j])
    {
      WordsEmptyIffBlank(g[i].1[j]);
    }
  }

  /** After the rewrite no alternative of `a` starts with `a` any more, and
      a second elimination of the rewritten list changes nothing. */
  lemma NoDirectRecursionLeft(a: string, alts: seq<string>)
    requires HasWords(alts)
    ensures var alts' := NewAlternatives(a, alts);
            HasWords(alts') &&
            Alpha(a, alts', |alts'|) == [] &&
            EntryWrites(a, alts') == [(a, alts')] && EntrySteps(a, alts') == []
  {
    var alpha, beta := Alpha(a, alts, |alts|), Beta(a, alts, |alts|);
    var alts' := NewAlternatives(a, alts);
    if alpha != [] {
      BetaMembers(a, alts, |alts|);
      forall j | 0 <= j < |alts'|
        ensures Words(alts'[j]) != [] && !StartsWith(a, alts'[j])
      {
        WordsConcat(beta[j], Prime(a));
        assert beta[j] in alts[..|alts|];
      }
      AlphaEmpty(a, alts', |alts'|);
    } else {
      AlphaEmpty(a, alts, |alts|);
      AlphaEmpty(a, alts', |alts'|);
    }
  }

  /** An alternative that is `A` alone leaves `""` in `alpha`, so `A'` gets
      the alternative `" A'"`, whose first word is `A'`: the new nonterminal
      is itself directly left-recursive, and eliminating its list again
      rewrites it and logs a step. */
  lemma PrimeLeftRecursive(a: string, alts: seq<string>, i: nat)
    requires i < |alts| && Words(alts[i]) == [a]
    ensures var ps := PrimedAlternatives(a, alts);
            Alpha(Prime(a), ps, |ps|) != [] &&
            EntrySteps(Prime(a), ps) == [Eliminated(Prime(a), Prime(Prime(a)))]
  {
    var a' := Prime(a);
    var alpha := Alpha(a, alts, |alts|);
    WordsShape(alts[i]);
    assert Words(alts[i])[0] == a;
    assert a != [] && Space !in a;
    assert Words(alts[i])[1..] == [];
    assert StartsWith(a, alts[i]) && Rest(alts[i]) == "";
    AlphaMembers(a, alts, |alts|);
    assert "" in alpha;
    var j :| 0 <= j < |alpha| && alpha[j] == "";
    var ps := PrimedAlternatives(a, alts);
    assert ps[j] == "" + [Space] + a';
    assert Space !in a';
    WordsConcat("", a');
    WordsOfWord(a');
    WordsEmptyIffBlank("");
    assert StartsWith(a', ps[j]);
    AlphaEmpty(a', ps, |ps|);
  }

  /** The writes made for `a` name only `a` and `a'`. */
  lemma EntryWritesOwn(a: string, alts: seq<string>)
    ensures OwnKeys(a, EntryWrites(a, alts))
  {
  }

  /** The writes of one nonterminal, performed on an empty dictionary. */
  lemma EntryAlone(a: string, alts: seq<string>)
    ensures var mi, alpha, beta := ApplyWrites(map[], EntryWrites(a, alts)), Alpha(a, alts, |alts|), Beta(a, alts, |alts|);
            a in mi &&
            if alpha != [] then
              mi[a] == Suffixed(beta, Prime(a)) &&
              Prime(a) in mi && mi[Prime(a)] == Suffixed(alpha, Prime(a)) + [Epsilon]
            else
              mi[a] == alts && Prime(a) !in mi
  {
    assert |Prime(a)| == |a| + 1;
    if Alpha(a, alts, |alts|) != [] {
      var w1, w2 := (a, NewAlternatives(a, alts)), (Prime(a), PrimedAlternatives(a, alts));
      assert EntryWrites(a, alts) == [w1] + [w2];
      ApplyWritesSnoc(map[], [w1], w2);
      ApplyWritesSnoc(map[], [], w1);
    } else {
      assert EntryWrites(a, alts) == [] + [(a, alts)];
      ApplyWritesSnoc(map[], [], (a, alts));
    }
  }

  /** The entries of one nonterminal `A` in the result, for a dictionary
      whose keys are distinct and not primed names of each other: with
      left-recursive alternatives, `A -> beta A'` and `A' -> alpha A' | ε`,
      together one entry more than `A` had; without, `A` keeps its list and
      `A'` is absent. */
  lemma EliminationEntry(g: Grammar, i: nat)
    requires i < |g| && DistinctKeys(g) && NoPrimeClash(g) && WellFormed(g)
    ensures Elimination.Elimination(g).Success?
    ensures var (a, alts), m := g[i], Elimination.Elimination(g).value.productions;
            var alpha, beta := Alpha(a, alts, |alts|), Beta(a, alts, |alts|);
            a in m &&
            if alpha != [] then
              m[a] == Suffixed(beta, Prime(a)) &&
              Prime(a) in m && m[Prime(a)] == Suffixed(alpha, Prime(a)) + [Epsilon] &&
              |m[a]| + |m[Prime(a)]| == |alts| + 1
            else
              m[a] == alts && Prime(a) !in m
  {
    var a, alts := g[i].0, g[i].1;
    var bs := Blocks(g, EntryWrites);
    forall e | 0 <= e < |g|
      ensures OwnKeys(g[e].0, bs[e])
    {
      assert bs[e] == EntryWrites(g[e].0, g[e].1);
      EntryWritesOwn(g[e].0, g[e].1);
    }
    assert Elimination.Elimination(g).value.productions == Run(map[], bs, |g|);
    EntryOwnsKey(g, bs, i, a);
    EntryOwnsKey(g, bs, i, Prime(a));
    assert bs[i] == EntryWrites(a, alts);
    EntryAlone(a, alts);
    PartitionSizes(a, alts, |alts|);
  }

  /** The nonterminal at index `e` has an alternative starting with itself. */
  predicate IsRecursive(g: Grammar, e: nat)
    requires e < |g|
  {
    Alpha(g[e].0, g[e].1, |g[e].1|) != []
  }

  /** The indices below `n` whose flag is set. */
  function Marked(flags: seq<bool>, n: nat): (r: set<nat>)
    requires n <= |flags|
    ensures forall e :: e in r ==> e < n
  {
    if n == 0 then {} else Marked(flags, n - 1) + (if flags[n - 1] then {n - 1} else {})
  }

  lemma {:induction false} MarkedMembers(flags: seq<bool>, n: nat)
    requires n <= |flags|
    ensures forall e: nat :: e in Marked(flags, n) <==> e < n && flags[e]
  {
    if n > 0 {
      MarkedMembers(flags, n - 1);
    }
  }

  /** Blocks of at most one step each, one exactly where the flag is set,
      hold together as many steps as set flags. */
  lemma {:induction false} CountSize(bs: seq<seq<Step>>, flags: seq<bool>, n: nat)
    requires n <= |bs| && |flags| == |bs|
    requires forall e :: 0 <= e < |bs| ==> |bs[e]| == (if flags[e] then 1 else 0)
    ensures |Concat(bs, n)| == |Marked(flags, n)|
  {
    if n > 0 {
      CountSize(bs, flags, n - 1);
      assert n - 1 !in Marked(flags, n - 1);
    }
  }

  /** When every step of every block names a nonterminal and its primed
      name, so does every step of their concatenation. */
  lemma {:induction false} ConcatEliminated(bs: seq<seq<Step>>, n: nat)
    requires n <= |bs|
    requires forall e, j :: 0 <= e < |bs| && 0 <= j < |bs[e]| ==>
               bs[e][j].Eliminated? && bs[e][j].newName == Prime(bs[e][j].nonTerminal)
    ensures forall j :: 0 <= j < |Concat(bs, n)| ==>
              Concat(bs, n)[j].Eliminated? && Concat(bs, n)[j].newName == Prime(Concat(bs, n)[j].nonTerminal)
  {
    if n > 0 {
      ConcatEliminated(bs, n - 1);
      var prev := Concat(bs, n - 1);
      forall j | 0 <= j < |Concat(bs, n)|
        ensures Concat(bs, n)[j].Eliminated? && Concat(bs, n)[j].newName == Prime(Concat(bs, n)[j].nonTerminal)
      {
        if j >= |prev| {
          assert Concat(bs, n)[j] == bs[n - 1][j - |prev|];
        } else {
          assert Concat(bs, n)[j] == prev[j];
        }
      }
    }
  }

  /** Both of the above for blocks of eliminated steps. */
  lemma CountBlocks(bs: seq<seq<Step>>, flags: seq<bool>, n: nat)
    requires n <= |bs| && |flags| == |bs|
    requires forall e :: 0 <= e < |bs| ==> |bs[e]| == (if flags[e] then 1 else 0)
    requires forall e, j :: 0 <= e < |bs| && 0 <= j < |bs[e]| ==>
               bs[e][j].Eliminated? && bs[e][j].newName == Prime(bs[e][j].nonTerminal)
    ensures |Concat(bs, n)| == |Marked(flags, n)|
    ensures forall j :: 0 <= j < |Concat(bs, n)| ==>
              Concat(bs, n)[j].Eliminated? && Concat(bs, n)[j].newName == Prime(Concat(bs, n)[j].nonTerminal)
  {
    CountSize(bs, flags, n);
    ConcatEliminated(bs, n);
  }

  /** Whether each nonterminal has an alternative starting with itself. */
  function Flags(g: Grammar): (fs: seq<bool>)
    ensures |fs| == |g|
  {
    seq(|g|, e requires 0 <= e < |g| => IsRecursive(g, e))
  }

  /** The indices of the first `n` nonterminals that have an alternative
      starting with themselves. */
  function Recursive(g: Grammar, n: nat): set<nat>
    requires n <= |g|
  {
    Marked(Flags(g), n)
  }

  lemma RecursiveMembers(g: Grammar, n: nat)
    requires n <= |g|
    ensures forall e: nat :: e in Recursive(g, n) <==> e < n && IsRecursive(g, e)
  {
    MarkedMembers(Flags(g), n);
  }

  /** One step per nonterminal that is rewritten, naming it and its new nonterminal. */
  lemma StepsCount(g: Grammar, n: nat)
    requires n <= |g|
    ensures |Steps(g, n)| == |Recursive(g, n)|
    ensures forall j :: 0 <= j < |Steps(g, n)| ==>
              Steps(g, n)[j].Eliminated? && Steps(g, n)[j].newName == Prime(Steps(g, n)[j].nonTerminal)
  {
    var bs: seq<seq<Step>> := Blocks(g, EntrySteps);
    var fs := Flags(g);
    forall e | 0 <= e < |bs|
      ensures |bs[e]| == (if fs[e] then 1 else 0)
    {
    }
    CountBlocks(bs, fs, n);
  }

  /** Every step is `Eliminated(A, A')` for a nonterminal `A` with an
      alternative starting with itself, and every such nonterminal has its
      step. */
  lemma StepsLogged(g: Grammar, n: nat)
    requires n <= |g|
    ensures forall s :: s in Steps(g, n) <==>
              exists e :: 0 <= e < n && IsRecursive(g, e) && s == Eliminated(g[e].0, Prime(g[e].0))
  {
    var bs := Blocks(g, EntrySteps);
    ConcatIn(bs, n);
    forall e | 0 <= e < n
      ensures bs[e] == if IsRecursive(g, e) then [Eliminated(g[e].0, Prime(g[e].0))] else []
    {
    }
  }

  /** The keys one nonterminal writes: itself, and its primed name exactly
      when it has an alternative starting with itself. */
  lemma EntryKeys(a: string, alts: seq<string>, k: string)
    ensures (exists j :: 0 <= j < |EntryWrites(a, alts)| && EntryWrites(a, alts)[j].0 == k) <==>
            k == a || (k == Prime(a) && Alpha(a, alts, |alts|) != [])
  {
    var ws := EntryWrites(a, alts);
    assert ws[0].0 == a;
    if Alpha(a, alts, |alts|) != [] {
      assert ws[1].0 == Prime(a);
    }
  }

  /** The result of a successful elimination holds exactly the input's
      nonterminals and the primed names of those rewritten: nothing else is
      ever written. */
  lemma ResultKeys(g: Grammar)
    requires WellFormed(g)
    ensures var m := Elimination.Elimination(g).value.productions;
            forall k :: k in m <==> exists e :: 0 <= e < |g| && (k == g[e].0 || (k == Prime(g[e].0) && IsRecursive(g, e)))
  {
    var bs := Blocks(g, EntryWrites);
    var m := Elimination.Elimination(g).value.productions;
    RunKeys(bs, |g|);
    forall k
      ensures k in m <==> exists e :: 0 <= e < |g| && (k == g[e].0 || (k == Prime(g[e].0) && IsRecursive(g, e)))
    {
      if k in m {
        var e, j :| 0 <= e < |g| && 0 <= j < |bs[e]| && bs[e][j].0 == k;
        assert bs[e] == EntryWrites(g[e].0, g[e].1);
        EntryKeys(g[e].0, g[e].1, k);
      }
      if exists e :: 0 <= e < |g| && (k == g[e].0 || (k == Prime(g[e].0) && IsRecursive(g, e))) {
        var e :| 0 <= e < |g| && (k == g[e].0 || (k == Prime(g[e].0) && IsRecursive(g, e)));
        assert bs[e] == EntryWrites(g[e].0, g[e].1);
        EntryKeys(g[e].0, g[e].1, k);
      }
    }
  }

  /** A grammar in which no alternative starts with its own nonterminal —
      indirect recursion included — comes back as it went in, with no step. */
  lemma Unchanged(g: Grammar)
    requires WellFormed(g)
    requires forall e :: 0 <= e < |g| ==> Alpha(g[e].0, g[e].1, |g[e].1|) == []
    ensures Elimination.Elimination(g) == Success(Transformed(AsMap(g), []))
  {
    var bs := Blocks(g, EntryWrites);
    forall e | 0 <= e < |g|
      ensures bs[e] == [g[e]]
    {
    }
    RunSingletons(g, bs, |g|);
    assert g[..|g|] == g;
    StepsCount(g, |g|);
    RecursiveMembers(g, |g|);
    assert Recursive(g, |g|) == {};
  }
}
