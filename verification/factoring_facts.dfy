/** What left factoring by first token guarantees: one alternative per
    distinct first token, in order of first occurrence; a group of two or
    more becomes `prefix A'` and sends its remainders to `A'`; one step per
    such group; nothing changes where all first tokens differ; and every
    write to `A'` replaces the one before. */
module FactoringFacts {
  import opened Tokens
  import opened Lookup
  import opened Grammars
  import opened Factoring

  /** The groups among the first `n` that have two or more members. */
  function SharedGroups(gs: seq<Group>, n: nat): set<nat>
    requires n <= |gs|
  {
    set i: nat | i < n && Shared(gs[i])
  }

  /** The positions among the keys of `alts` of the first tokens that two or
      more alternatives share. */
  function SharedKeys(alts: seq<string>): set<nat>
  {
    var ks := Keys(alts);
    set i: nat | i < |ks| && |WithFirst(alts, ks[i])| > 1
  }

  /** The first tokens of `alts` are pairwise different. */
  predicate DistinctFirst(alts: seq<string>)
  {
    forall i, j :: 0 <= i < j < |alts| ==> FirstToken(alts[i]) != FirstToken(alts[j])
  }

  /** One new alternative per group, in group order. */
  lemma {:induction false} ReplacementsShape(a: string, gs: seq<Group>, n: nat)
    requires n <= |gs| && forall i :: 0 <= i < |gs| ==> gs[i].members != []
    ensures |Replacements(a, gs, n)| == n
    ensures forall i :: 0 <= i < n ==> Replacements(a, gs, n)[i] == Replacement(a, gs[i])
  {
    if n > 0 {
      ReplacementsShape(a, gs, n - 1);
    }
  }

  /** A group holds exactly the alternatives with its first token. */
  lemma {:induction false} WithFirstMembers(alts: seq<string>, k: string)
    ensures forall p :: p in WithFirst(alts, k) <==> p in alts && FirstToken(p) == k
  {
    if alts != [] {
      var init, last := alts[..|alts| - 1], alts[|alts| - 1];
      WithFirstMembers(init, k);
      assert alts == init + [last];
    }
  }

  /** Two alternatives with the same first token put two members in its group. */
  lemma {:induction false} WithFirstTwo(alts: seq<string>, i: nat, j: nat)
    requires i < j < |alts| && FirstToken(alts[i]) == FirstToken(alts[j])
    ensures |WithFirst(alts, FirstToken(alts[i]))| >= 2
  {
    var init, last := alts[..|alts| - 1], alts[|alts| - 1];
    if j < |alts| - 1 {
      assert init[i] == alts[i] && init[j] == alts[j];
      WithFirstTwo(init, i, j);
    } else {
      WithFirstMembers(init, FirstToken(alts[i]));
      assert alts[i] == init[i];
    }
  }

  /** The new alternatives of `A`: one per distinct first token, in order of
      first occurrence; `prefix A'` for a token shared by two or more
      alternatives, the one alternative itself otherwise. */
  lemma NewAlternativesSpec(a: string, alts: seq<string>)
    ensures var ks, r := Keys(alts), NewAlternatives(a, alts);
            |r| == |ks| &&
            forall i :: 0 <= i < |ks| ==>
              var ms := WithFirst(alts, ks[i]);
              ms != [] && r[i] == if |ms| > 1 then ks[i] + [Space] + Prime(a) else ms[0]
  {
    var gs, ks := GroupByFirst(alts), Keys(alts);
    GroupByFirstSpec(alts);
    ReplacementsShape(a, gs, |gs|);
    forall i | 0 <= i < |ks|
      ensures WithFirst(alts, ks[i]) != []
    {
      WithFirstEmpty(alts, ks[i]);
    }
  }

  /** A member of the group of `k` is `k` followed by a space and its
      remainder, or `k` alone with the empty remainder. */
  lemma GroupMember(alts: seq<string>, k: string, p: string)
    requires p in WithFirst(alts, k)
    ensures Space in p ==> p == k + [Space] + Remainder(p)
    ensures Space !in p ==> p == k && Remainder(p) == ""
  {
    WithFirstMembers(alts, k);
    Reassemble(p);
  }

  /** Blank alternatives and alternatives with a leading space do not fail:
      they share the group whose key is the empty token. */
  lemma BlankKey(alts: seq<string>, p: string)
    requires p in alts && (p == [] || p[0] == Space)
    ensures p in WithFirst(alts, "")
  {
    FirstTokenEmpty(p);
    WithFirstMembers(alts, "");
  }

  /** As many writes and steps as groups of two or more. */
  lemma {:induction false} GroupWritesCount(a: string, gs: seq<Group>, n: nat)
    requires n <= |gs|
    ensures |GroupWrites(a, gs, n)| == |GroupSteps(a, gs, n)| == |SharedGroups(gs, n)|
  {
    if n > 0 {
      GroupWritesCount(a, gs, n - 1);
      if Shared(gs[n - 1]) {
        assert SharedGroups(gs, n) == SharedGroups(gs, n - 1) + {n - 1};
      } else {
        assert SharedGroups(gs, n) == SharedGroups(gs, n - 1);
      }
    } else {
      assert SharedGroups(gs, 0) == {};
    }
  }

  /** Every write is to `A'`, every step names `A` and `A'`. */
  lemma {:induction false} GroupWritesEach(a: string, gs: seq<Group>, n: nat)
    requires n <= |gs|
    ensures forall j :: 0 <= j < |GroupWrites(a, gs, n)| ==> GroupWrites(a, gs, n)[j].0 == Prime(a)
    ensures forall j :: 0 <= j < |GroupSteps(a, gs, n)| ==>
              GroupSteps(a, gs, n)[j].Factored? &&
              GroupSteps(a, gs, n)[j].nonTerminal == a && GroupSteps(a, gs, n)[j].newName == Prime(a)
  {
    if n > 0 {
      GroupWritesEach(a, gs, n - 1);
    }
  }

  /** No write at all exactly when no group has two or more members. */
  lemma {:induction false} GroupWritesEmpty(a: string, gs: seq<Group>, n: nat)
    requires n <= |gs|
    ensures GroupWrites(a, gs, n) == [] <==> forall i :: 0 <= i < n ==> !Shared(gs[i])
  {
    if n > 0 {
      GroupWritesEmpty(a, gs, n - 1);
    }
  }

  /** One write to `A'` and one step per group of two or more, nothing for
      the others. */
  lemma GroupWritesShape(a: string, gs: seq<Group>, n: nat)
    requires n <= |gs|
    ensures |GroupWrites(a, gs, n)| == |GroupSteps(a, gs, n)| == |SharedGroups(gs, n)|
    ensures forall j :: 0 <= j < |GroupWrites(a, gs, n)| ==>
              GroupWrites(a, gs, n)[j].0 == Prime(a) &&
              GroupSteps(a, gs, n)[j].Factored? &&
              GroupSteps(a, gs, n)[j].nonTerminal == a && GroupSteps(a, gs, n)[j].newName == Prime(a)
    ensures GroupWrites(a, gs, n) == [] <==> forall i :: 0 <= i < n ==> !Shared(gs[i])
  {
    GroupWritesCount(a, gs, n);
    GroupWritesEach(a, gs, n);
    GroupWritesEmpty(a, gs, n);
  }

  /** The index of the last of the first `n` groups with two or more
      members, or -1 when there is none. */
  function LastShared(gs: seq<Group>, n: nat): (j: int)
    requires n <= |gs|
    ensures -1 <= j < n
    ensures j >= 0 ==> Shared(gs[j])
    ensures forall l :: j < l < n ==> !Shared(gs[l])
  {
    if n == 0 then -1 else if Shared(gs[n - 1]) then n - 1 else LastShared(gs, n - 1)
  }

  /** The last write to `A'` is the one of the last shared group. */
  lemma {:induction false} LastSharedWriteAt(a: string, gs: seq<Group>, n: nat)
    requires n <= |gs| && GroupWrites(a, gs, n) != []
    ensures var ws, j := GroupWrites(a, gs, n), LastShared(gs, n);
            j >= 0 && ws[|ws| - 1] == (Prime(a), Remainders(gs[j].members))
  {
    var ws := GroupWrites(a, gs, n);
    if Shared(gs[n - 1]) {
      var w := (Prime(a), Remainders(gs[n - 1].members));
      assert ws == GroupWrites(a, gs, n - 1) + [w];
    } else {
      assert ws == GroupWrites(a, gs, n - 1);
      LastSharedWriteAt(a, gs, n - 1);
    }
  }

  /** The last write to `A'` carries the remainders of the last group of two or more. */
  lemma LastSharedWrite(a: string, gs: seq<Group>, n: nat)
    requires n <= |gs| && GroupWrites(a, gs, n) != []
    ensures var ws := GroupWrites(a, gs, n);
            exists j :: 0 <= j < n && Shared(gs[j]) && (forall l :: j < l < n ==> !Shared(gs[l])) &&
                        ws[|ws| - 1] == (Prime(a), Remainders(gs[j].members))
  {
    LastSharedWriteAt(a, gs, n);
    var j := LastShared(gs, n);
    assert forall l :: j < l < n ==> !Shared(gs[l]);
  }

  /** The writes made for `a` name only `a` and `a'`. */
  lemma EntryWritesOwn(a: string, alts: seq<string>)
    ensures OwnKeys(a, EntryWrites(a, alts))
  {
    var gs := GroupByFirst(alts);
    GroupWritesShape(a, gs, |gs|);
  }

  /** What the writes of one nonterminal do to a dictionary `m0`: `A` holds
      its new alternatives; when some group has two or more members, `A'`
      holds the remainders of the last such group, whatever it held before;
      otherwise `A'` is as it was. */
  lemma EntryMap(m0: Productions, a: string, gs: seq<Group>, na: seq<string>)
    ensures var mi := ApplyWrites(m0, GroupWrites(a, gs, |gs|) + [(a, na)]);
            a in mi && mi[a] == na &&
            (Prime(a) in mi <==> Prime(a) in m0 || exists j :: 0 <= j < |gs| && Shared(gs[j])) &&
            ((exists j :: 0 <= j < |gs| && Shared(gs[j])) ==>
               exists j :: 0 <= j < |gs| && Shared(gs[j]) && (forall l :: j < l < |gs| ==> !Shared(gs[l])) &&
                           mi[Prime(a)] == Remainders(gs[j].members)) &&
            ((forall j :: 0 <= j < |gs| ==> !Shared(gs[j])) && Prime(a) in m0 ==> mi[Prime(a)] == m0[Prime(a)])
  {
    var ws := GroupWrites(a, gs, |gs|);
    ApplyWritesSnoc(m0, ws, (a, na));
    GroupWritesShape(a, gs, |gs|);
    if ws != [] {
      LastWriteWins(m0, ws, |ws| - 1);
      LastSharedWrite(a, gs, |gs|);
    }
  }

  /** The entries of one nonterminal `A` in the result, for a dictionary
      whose keys are distinct and not primed names of each other: `A` holds
      its new alternatives; `A'` is present exactly when some group has two
      or more members, and then holds the remainders of the last such group,
      the earlier ones being overwritten. */
  lemma FactorizationEntry(g: Grammar, i: nat)
    requires i < |g| && DistinctKeys(g) && NoPrimeClash(g)
    ensures var (a, alts), m := g[i], Factorization(g).productions;
            var gs := GroupByFirst(alts);
            a in m && m[a] == NewAlternatives(a, alts) &&
            (Prime(a) in m <==> exists j :: 0 <= j < |gs| && Shared(gs[j])) &&
            (Prime(a) in m ==>
               exists j :: 0 <= j < |gs| && Shared(gs[j]) && (forall l :: j < l < |gs| ==> !Shared(gs[l])) &&
                           m[Prime(a)] == Remainders(gs[j].members))
  {
    var a, alts := g[i].0, g[i].1;
    var bs := Blocks(g, EntryWrites);
    forall e | 0 <= e < |g|
      ensures OwnKeys(g[e].0, bs[e])
    {
      EntryWritesOwn(g[e].0, g[e].1);
    }
    EntryOwnsKey(g, bs, i, a);
    EntryOwnsKey(g, bs, i, Prime(a));
    assert bs[i] == GroupWrites(a, GroupByFirst(alts), |GroupByFirst(alts)|) + [(a, NewAlternatives(a, alts))];
    EntryMap(map[], a, GroupByFirst(alts), NewAlternatives(a, alts));
  }

  /** With pairwise different first tokens every group is a single alternative. */
  lemma {:induction false} GroupByFirstSingletons(alts: seq<string>)
    requires DistinctFirst(alts)
    ensures var gs := GroupByFirst(alts);
            |gs| == |alts| && forall i :: 0 <= i < |alts| ==> gs[i] == Group(FirstToken(alts[i]), [alts[i]])
  {
    if alts != [] {
      var init, last := alts[..|alts| - 1], alts[|alts| - 1];
      GroupByFirstSingletons(init);
      InsertNew(GroupByFirst(init), last);
    }
  }

  /** Single-member groups keep their alternatives and write and log nothing. */
  lemma {:induction false} SingletonGroups(a: string, alts: seq<string>, gs: seq<Group>, n: nat)
    requires |gs| == |alts| && n <= |gs|
    requires forall i :: 0 <= i < |alts| ==> gs[i] == Group(FirstToken(alts[i]), [alts[i]])
    ensures Replacements(a, gs, n) == alts[..n]
    ensures GroupWrites(a, gs, n) == [] && GroupSteps(a, gs, n) == []
  {
    if n > 0 {
      SingletonGroups(a, alts, gs, n - 1);
      assert alts[..n] == alts[..n - 1] + [alts[n - 1]];
    }
  }

  /** When all first tokens differ, the list comes back unchanged and nothing is logged. */
  lemma Unfactored(a: string, alts: seq<string>)
    requires DistinctFirst(alts)
    ensures NewAlternatives(a, alts) == alts
    ensures EntryWrites(a, alts) == [(a, alts)] && EntrySteps(a, alts) == []
  {
    var gs := GroupByFirst(alts);
    GroupByFirstSingletons(alts);
    SingletonGroups(a, alts, gs, |gs|);
    assert alts[..|alts|] == alts;
  }

  /** Two alternatives sharing a first token make a group of two or more. */
  lemma SharedGroup(alts: seq<string>, i: nat, j: nat)
    requires i < j < |alts| && FirstToken(alts[i]) == FirstToken(alts[j])
    ensures exists m :: 0 <= m < |GroupByFirst(alts)| && Shared(GroupByFirst(alts)[m])
  {
    var k := FirstToken(alts[i]);
    WithFirstTwo(alts, i, j);
    assert alts[i] in alts;
    GroupByFirstSpec(alts);
    KeysMembers(alts);
    var ks := Keys(alts);
    assert k in ks;
    var m :| 0 <= m < |ks| && ks[m] == k;
    assert Shared(GroupByFirst(alts)[m]);
  }

  /** A nonterminal is factored, with at least one step, exactly when two of
      its alternatives share a first token. */
  lemma FactoredIff(a: string, alts: seq<string>)
    ensures EntrySteps(a, alts) != [] <==> !DistinctFirst(alts)
  {
    var gs := GroupByFirst(alts);
    GroupWritesShape(a, gs, |gs|);
    if DistinctFirst(alts) {
      Unfactored(a, alts);
    } else {
      var i, j :| 0 <= i < j < |alts| && FirstToken(alts[i]) == FirstToken(alts[j]);
      SharedGroup(alts, i, j);
    }
  }

  /** The steps of a nonterminal: one per first token shared by two or more alternatives. */
  lemma EntryStepsCount(a: string, alts: seq<string>)
    ensures |EntrySteps(a, alts)| == |SharedKeys(alts)|
  {
    var gs, ks := GroupByFirst(alts), Keys(alts);
    GroupByFirstSpec(alts);
    GroupWritesShape(a, gs, |gs|);
    var byKey := SharedKeys(alts);
    forall i: nat
      ensures i in SharedGroups(gs, |gs|) <==> i in byKey
    {
      if i < |ks| {
        assert gs[i].members == WithFirst(alts, ks[i]);
      }
    }
    assert SharedGroups(gs, |gs|) == byKey;
  }

  /** The number of first tokens shared by two or more alternatives, summed
      over the first `n` nonterminals. */
  function SharedTotal(g: Grammar, n: nat): nat
    requires n <= |g|
  {
    if n == 0 then 0 else SharedTotal(g, n - 1) + |SharedKeys(g[n - 1].1)|
  }

  /** One step per group of two or more, over all nonterminals, each naming
      its nonterminal and the primed name. */
  lemma {:induction false} StepsCount(g: Grammar, n: nat)
    requires n <= |g|
    ensures |Steps(g, n)| == SharedTotal(g, n)
    ensures forall j :: 0 <= j < |Steps(g, n)| ==>
              Steps(g, n)[j].Factored? && Steps(g, n)[j].newName == Prime(Steps(g, n)[j].nonTerminal)
  {
    if n > 0 {
      var (a, alts) := g[n - 1];
      var gs := GroupByFirst(alts);
      StepsCount(g, n - 1);
      EntryStepsCount(a, alts);
      GroupWritesShape(a, gs, |gs|);
    }
  }

  /** No steps for the first `n` nonterminals when none of them is factored. */
  lemma {:induction false} StepsEmpty(g: Grammar, n: nat)
    requires n <= |g| && forall e :: 0 <= e < |g| ==> DistinctFirst(g[e].1)
    ensures Steps(g, n) == []
  {
    if n > 0 {
      StepsEmpty(g, n - 1);
      Unfactored(g[n - 1].0, g[n - 1].1);
    }
  }

  /** The steps of the first `n` groups: one `Factored(A, key, A')` for
      each of them with two or more members. */
  lemma {:induction false} GroupStepsIn(a: string, gs: seq<Group>, n: nat)
    requires n <= |gs|
    ensures forall s :: s in GroupSteps(a, gs, n) <==>
              exists m :: 0 <= m < n && Shared(gs[m]) && s == Factored(a, gs[m].key, Prime(a))
  {
    if n > 0 {
      GroupStepsIn(a, gs, n - 1);
    }
  }

  /** The steps of one nonterminal: `Factored(A, k, A')` exactly for the
      first tokens `k` that two or more of its alternatives share. */
  lemma EntryStepsIn(a: string, alts: seq<string>)
    ensures forall s :: s in EntrySteps(a, alts) <==>
              exists k :: |WithFirst(alts, k)| > 1 && s == Factored(a, k, Prime(a))
  {
    var gs, ks := GroupByFirst(alts), Keys(alts);
    GroupStepsIn(a, gs, |gs|);
    GroupByFirstSpec(alts);
    forall k | |WithFirst(alts, k)| > 1
      ensures Factored(a, k, Prime(a)) in EntrySteps(a, alts)
    {
      WithFirstEmpty(alts, k);
      var m :| 0 <= m < |ks| && ks[m] == k;
      assert Shared(gs[m]) && gs[m].key == k;
    }
  }

  /** Every step names the nonterminal it was logged for, a first token two
      or more of its alternatives share, and its primed name; and every such
      token of every nonterminal has its step. */
  lemma StepsLogged(g: Grammar, n: nat)
    requires n <= |g|
    ensures forall s :: s in Steps(g, n) <==>
              exists e, k :: 0 <= e < n && |WithFirst(g[e].1, k)| > 1 && s == Factored(g[e].0, k, Prime(g[e].0))
  {
    var bs := Blocks(g, EntrySteps);
    ConcatIn(bs, n);
    forall s | s in Steps(g, n)
      ensures exists e, k :: 0 <= e < n && |WithFirst(g[e].1, k)| > 1 && s == Factored(g[e].0, k, Prime(g[e].0))
    {
      var e :| 0 <= e < n && s in bs[e];
      assert bs[e] == EntrySteps(g[e].0, g[e].1);
      EntryStepsIn(g[e].0, g[e].1);
    }
    forall e, k | 0 <= e < n && |WithFirst(g[e].1, k)| > 1
      ensures Factored(g[e].0, k, Prime(g[e].0)) in Steps(g, n)
    {
      assert bs[e] == EntrySteps(g[e].0, g[e].1);
      EntryStepsIn(g[e].0, g[e].1);
    }
  }

  /** The keys one nonterminal writes: itself, and its primed name exactly
      when two of its alternatives share a first token. */
  lemma EntryKeys(a: string, alts: seq<string>, k: string)
    ensures (exists j :: 0 <= j < |EntryWrites(a, alts)| && EntryWrites(a, alts)[j].0 == k) <==>
            k == a || (k == Prime(a) && !DistinctFirst(alts))
  {
    var gs := GroupByFirst(alts);
    var ws := EntryWrites(a, alts);
    var gw := GroupWrites(a, gs, |gs|);
    GroupWritesShape(a, gs, |gs|);
    FactoredIff(a, alts);
    assert ws[|ws| - 1].0 == a;
    if k == Prime(a) && !DistinctFirst(alts) {
      assert ws[0] == gw[0];
    }
    if exists j :: 0 <= j < |ws| && ws[j].0 == k {
      var j :| 0 <= j < |ws| && ws[j].0 == k;
      if j < |gw| {
        assert ws[j] == gw[j];
      }
    }
  }

  /** The result holds exactly the input's nonterminals and the primed names
      of those factored: nothing else is ever written. */
  lemma ResultKeys(g: Grammar)
    ensures var m := Factorization(g).productions;
            forall k :: k in m <==> exists e :: 0 <= e < |g| && (k == g[e].0 || (k == Prime(g[e].0) && !DistinctFirst(g[e].1)))
  {
    var bs := Blocks(g, EntryWrites);
    var m := Factorization(g).productions;
    RunKeys(bs, |g|);
    forall k
      ensures k in m <==> exists e :: 0 <= e < |g| && (k == g[e].0 || (k == Prime(g[e].0) && !DistinctFirst(g[e].1)))
    {
      if k in m {
        var e, j :| 0 <= e < |g| && 0 <= j < |bs[e]| && bs[e][j].0 == k;
        assert bs[e] == EntryWrites(g[e].0, g[e].1);
        EntryKeys(g[e].0, g[e].1, k);
      }
      if exists e :: 0 <= e < |g| && (k == g[e].0 || (k == Prime(g[e].0) && !DistinctFirst(g[e].1))) {
        var e :| 0 <= e < |g| && (k == g[e].0 || (k == Prime(g[e].0) && !DistinctFirst(g[e].1)));
        assert bs[e] == EntryWrites(g[e].0, g[e].1);
        EntryKeys(g[e].0, g[e].1, k);
      }
    }
  }

  /** A grammar whose alternatives all start differently within each
      nonterminal comes back as it went in, with no step. */
  lemma Unchanged(g: Grammar)
    requires forall e :: 0 <= e < |g| ==> DistinctFirst(g[e].1)
    ensures Factorization(g) == Transformed(AsMap(g), [])
  {
    var bs := Blocks(g, EntryWrites);
    forall e | 0 <= e < |g|
      ensures bs[e] == [g[e]]
    {
      Unfactored(g[e].0, g[e].1);
    }
    RunSingletons(g, bs, |g|);
    assert g[..|g|] == g;
    StepsEmpty(g, |g|);
  }

  /** The dictionary built from two entries: the writes of the first, then
      those of the second. */
  lemma TwoEntries(g: Grammar)
    requires |g| == 2
    ensures Factorization(g).productions ==
            ApplyWrites(ApplyWrites(map[], EntryWrites(g[0].0, g[0].1)), EntryWrites(g[1].0, g[1].1))
  {
    var bs := Blocks(g, EntryWrites);
    assert bs[0] == EntryWrites(g[0].0, g[0].1);
    assert bs[1] == EntryWrites(g[1].0, g[1].1);
    assert Run(map[], bs, 1) == ApplyWrites(map[], bs[0]);
  }

  /** An input key that is the primed name of another, placed after `A`,
      keeps its own new alternatives, whatever `A` wrote there. */
  lemma PrimeKeyAfter(a: string, alts: seq<string>, alts2: seq<string>)
    ensures var m := Factorization([(a, alts), (Prime(a), alts2)]).productions;
            Prime(a) in m && m[Prime(a)] == NewAlternatives(Prime(a), alts2)
  {
    var gs2 := GroupByFirst(alts2);
    TwoEntries([(a, alts), (Prime(a), alts2)]);
    EntryMap(ApplyWrites(map[], EntryWrites(a, alts)), Prime(a), gs2, NewAlternatives(Prime(a), alts2));
  }

  /** The same key placed before `A` is overwritten by the remainders of
      `A`'s last group of two or more, and keeps its own new alternatives
      only when `A` has no such group. */
  lemma PrimeKeyBefore(a: string, alts: seq<string>, alts2: seq<string>)
    ensures var m, gs := Factorization([(Prime(a), alts2), (a, alts)]).productions, GroupByFirst(alts);
            Prime(a) in m &&
            if exists j :: 0 <= j < |gs| && Shared(gs[j]) then
              exists j :: 0 <= j < |gs| && Shared(gs[j]) && (forall l :: j < l < |gs| ==> !Shared(gs[l])) &&
                          m[Prime(a)] == Remainders(gs[j].members)
            else m[Prime(a)] == NewAlternatives(Prime(a), alts2)
  {
    var gs, gs2 := GroupByFirst(alts), GroupByFirst(alts2);
    TwoEntries([(Prime(a), alts2), (a, alts)]);
    var m1 := ApplyWrites(map[], EntryWrites(Prime(a), alts2));
    EntryMap(map[], Prime(a), gs2, NewAlternatives(Prime(a), alts2));
    EntryMap(m1, a, gs, NewAlternatives(a, alts));
  }
}
