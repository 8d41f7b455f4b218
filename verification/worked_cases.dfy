/** Two small grammars worked through both transformations: the textbook
    left-recursive rule, and a rule whose longest common prefix is two
    symbols long, which the first-token grouping factors on one symbol only. */
module WorkedCases {
  import opened Tokens
  import opened Grammars
  import Lookup
  import Factoring
  import Elimination

  /** A single word joined is itself. */
  lemma JoinOne(w: string)
    ensures Join([w]) == w
  {
    assert [w][1..] == [];
  }

  /** The first token of `w + " " + rest`, for a word `w`, is `w`, and the remainder is `rest`. */
  lemma RemainderAfter(w: string, rest: string)
    requires w != [] && Space !in w
    ensures FirstToken(w + [Space] + rest) == w && Remainder(w + [Space] + rest) == rest
  {
    SplitConcat(w, rest);
    SplitNoSpace(w);
    JoinSplit(rest);
    assert (Split(w) + Split(rest))[1..] == Split(rest);
  }

  /** Two non-empty space-free words joined by a space split back into them. */
  lemma TwoWords(x: string, y: string)
    requires x != [] && y != [] && Space !in x && Space !in y
    ensures Words(x + [Space] + y) == [x, y]
    ensures Split(x + [Space] + y) == [x, y]
    ensures FirstToken(x + [Space] + y) == x && Remainder(x + [Space] + y) == y
  {
    WordsConcat(x, y);
    WordsOfWord(x);
    WordsOfWord(y);
    SplitConcat(x, y);
    SplitNoSpace(x);
    SplitNoSpace(y);
  }

  /** One nonterminal that makes two writes. */
  lemma OneEntryRun(bs: seq<seq<Write>>, w1: Write, w2: Write)
    requires bs == [[w1, w2]]
    ensures Run(map[], bs, 1) == map[w1.0 := w1.1, w2.0 := w2.1]
  {
    assert Run(map[], bs, 1) == ApplyWrites(Run(map[], bs, 0), bs[0]);
    assert [w1, w2] == [w1] + [w2];
    ApplyWritesSnoc(map[], [w1], w2);
    ApplyWritesSnoc(map[], [], w1);
  }

  /** A word: non-empty and without a space. */
  predicate IsWord(w: string)
  {
    w != [] && Space !in w
  }

  /** The split of `A -> A x | A y | c`: `alpha = [x, y]`, `beta = [c]`. */
  lemma CaseSplit(a: string, x: string, y: string, c: string)
    requires IsWord(a) && IsWord(x) && IsWord(y) && IsWord(c) && c != a
    ensures var alts := [a + [Space] + x, a + [Space] + y, c];
            Elimination.HasWords(alts) &&
            Elimination.Alpha(a, alts, 3) == [x, y] && Elimination.Beta(a, alts, 3) == [c]
  {
    var alts := [a + [Space] + x, a + [Space] + y, c];
    TwoWords(a, x);
    TwoWords(a, y);
    WordsOfWord(c);
    JoinOne(x);
    JoinOne(y);
    assert Elimination.Rest(alts[0]) == x && Elimination.Rest(alts[1]) == y;
    assert !Elimination.StartsWith(a, alts[2]);
    var ks := Elimination.Kinds(a, alts);
    assert ks[0] == Elimination.LeftRecursive(x) && ks[1] == Elimination.LeftRecursive(y) && ks[2] == Elimination.Other;
    assert Elimination.AlphaOf(ks, 0) == [] && Elimination.BetaOf(alts, ks, 0) == [];
    assert Elimination.AlphaOf(ks, 1) == [x] && Elimination.BetaOf(alts, ks, 1) == [];
    assert Elimination.AlphaOf(ks, 2) == [x, y] && Elimination.BetaOf(alts, ks, 2) == [];
  }

  /** `A -> A x | A y | c` becomes `A -> c A'` and `A' -> x A' | y A' | ε`,
      for any words with `c` different from `A`. */
  lemma LeftRecursionCase(a: string, x: string, y: string, c: string)
    requires IsWord(a) && IsWord(x) && IsWord(y) && IsWord(c) && c != a
    ensures var a' := Prime(a);
            Elimination.Elimination([(a, [a + [Space] + x, a + [Space] + y, c])]) ==
              Success(Transformed(map[a := [c + [Space] + a'], a' := [x + [Space] + a', y + [Space] + a', Elimination.Epsilon]],
                                     [Eliminated(a, a')]))
  {
    var a' := Prime(a);
    var alts := [a + [Space] + x, a + [Space] + y, c];
    var g := [(a, alts)];
    CaseSplit(a, x, y, c);
    var w1, w2 := (a, [c + [Space] + a']), (a', [x + [Space] + a', y + [Space] + a', Elimination.Epsilon]);
    assert Elimination.Suffixed([c], a') == [c + [Space] + a'];
    assert Elimination.Suffixed([x, y], a') == [x + [Space] + a', y + [Space] + a'];
    assert |alts| == 3;
    assert Elimination.NewAlternatives(a, alts) == w1.1;
    assert Elimination.PrimedAlternatives(a, alts) == [x + [Space] + a', y + [Space] + a'] + [Elimination.Epsilon];
    assert [x + [Space] + a', y + [Space] + a'] + [Elimination.Epsilon] == w2.1;
    assert Elimination.Alpha(a, alts, |alts|) != [];
    assert Elimination.EntryWrites(a, alts) == [w1, w2];
    assert Elimination.WellFormed(g);
    assert Blocks(g, Elimination.EntrySteps)[0] == Elimination.EntrySteps(a, alts) == [Eliminated(a, a')];
    assert Concat(Blocks(g, Elimination.EntrySteps), 0) == [];
    assert Elimination.Steps(g, 1) == [Eliminated(a, a')];
    OneEntryRun(Blocks(g, Elimination.EntryWrites), w1, w2);
  }

  /** The writes and the step for `A -> p qr | p qs | x` once its groups are known. */
  lemma CaseFactorEntry(a: string, alts: seq<string>, p: string, qr: string, qs: string, x: string)
    requires |alts| == 3 && alts[2] == x && x != p
    requires Lookup.GroupByFirst(alts) == [Lookup.Group(p, [alts[0], alts[1]]), Lookup.Group(x, [alts[2]])]
    requires Remainder(alts[0]) == qr && Remainder(alts[1]) == qs
    ensures Factoring.EntryWrites(a, alts) == [(Prime(a), [qr, qs]), (a, [p + [Space] + Prime(a), x])]
    ensures Factoring.EntrySteps(a, alts) == [Factored(a, p, Prime(a))]
  {
    var a' := Prime(a);
    var gs := Lookup.GroupByFirst(alts);
    assert Factoring.Remainders(gs[0].members) == [qr, qs];
    assert Factoring.Replacements(a, gs, 1) == [p + [Space] + a'];
    assert Factoring.Replacements(a, gs, 2) == [p + [Space] + a', x];
    assert Factoring.GroupWrites(a, gs, 1) == [(a', [qr, qs])];
    assert Factoring.GroupSteps(a, gs, 1) == [Factored(a, p, a')];
  }

  /** `A -> p q r | p q s | x` becomes `A -> p A' | x` and `A' -> q r | q s`
      for any words with `x` different from `p`: the shared prefix taken is
      the first word `p`, not the longer common prefix `p q`. */
  lemma FirstTokenFactoringCase(a: string, p: string, q: string, r: string, s: string, x: string)
    requires IsWord(p) && IsWord(q) && IsWord(r) && IsWord(s) && IsWord(x) && x != p
    ensures var a' := Prime(a);
            Factoring.Factorization([(a, [p + [Space] + q + [Space] + r, p + [Space] + q + [Space] + s, x])]) ==
              Transformed(map[a := [p + [Space] + a', x], a' := [q + [Space] + r, q + [Space] + s]], [Factored(a, p, a')])
  {
    var a' := Prime(a);
    var qr, qs := q + [Space] + r, q + [Space] + s;
    var alts := [p + [Space] + qr, p + [Space] + qs, x];
    assert alts[0] == p + [Space] + q + [Space] + r && alts[1] == p + [Space] + q + [Space] + s;
    var g := [(a, alts)];
    RemainderAfter(p, qr);
    RemainderAfter(p, qs);
    SplitNoSpace(x);
    CaseGroups(alts, p, x);
    CaseFactorEntry(a, alts, p, qr, qs, x);
    assert Blocks(g, Factoring.EntrySteps)[0] == Factoring.EntrySteps(a, alts);
    assert Concat(Blocks(g, Factoring.EntrySteps), 0) == [];
    assert Factoring.Steps(g, 1) == [Factored(a, p, a')];
    OneEntryRun(Blocks(g, Factoring.EntryWrites), (a', [qr, qs]), (a, [p + [Space] + a', x]));
  }

  /** The lookup of three alternatives of which the first two share the first token. */
  lemma CaseGroups(alts: seq<string>, p: string, x: string)
    requires |alts| == 3 && FirstToken(alts[0]) == p && FirstToken(alts[1]) == p && FirstToken(alts[2]) == x && x != p
    ensures Lookup.GroupByFirst(alts) == [Lookup.Group(p, [alts[0], alts[1]]), Lookup.Group(x, [alts[2]])]
  {
    var g0 := [Lookup.Group(p, [alts[0]])];
    assert alts[..1][..0] == [];
    assert Lookup.GroupByFirst(alts[..1]) == g0;
    Lookup.InsertExisting(g0, alts[1], 0);
    var g1 := [Lookup.Group(p, [alts[0], alts[1]])];
    assert [alts[0]] + [alts[1]] == [alts[0], alts[1]];
    assert alts[..2][..1] == alts[..1] && alts[..2][1] == alts[1];
    assert Lookup.GroupByFirst(alts[..2]) == g1;
    Lookup.InsertNew(g1, alts[2]);
    assert alts[..3][..2] == alts[..2] && alts[..3] == alts;
  }
}
