/** The three operations of `GrammarTransformer`. The class has no fields,
    so its methods are plain methods here; each builds its result dictionary
    and its list of steps by the same loops as the original, and is proved to
    return what the specification functions of `Factoring` and `Elimination`
    say. */
module GrammarTransformer {
  import opened Tokens
  import opened Lookup
  import opened Grammars
  import Factoring
  import Elimination

  /** The fixed status text of the combined report. */
  const Message: string := "Proceso completo de transformación"

  /** The combined report: both transformations, each of the original grammar. */
  datatype Report = Report(message: string, factorization: Transformed, recursionElimination: Transformed)

  /** Left factoring by first token, one pass over the nonterminals. */
  method Factorize(grammar: Grammar) returns (out: Transformed)
    ensures out == Factoring.Factorization(grammar)
  {
    var result: Productions := map[];
    var steps: seq<Step> := [];
    for i := 0 to |grammar|
      invariant result == Run(map[], Blocks(grammar, Factoring.EntryWrites), i)
      invariant steps == Factoring.Steps(grammar, i)
    {
      result, steps := FactorEntry(grammar[i].0, grammar[i].1, result, steps);
    }
    out := Transformed(result, steps);
  }

  /** The body of the loop of `Factorize` for one nonterminal: its groups,
      then `result[nonTerminal] = newProductions`. */
  method FactorEntry(nonTerminal: string, productions: seq<string>, result0: Productions, steps0: seq<Step>)
    returns (result: Productions, steps: seq<Step>)
    ensures result == ApplyWrites(result0, Factoring.EntryWrites(nonTerminal, productions))
    ensures steps == steps0 + Factoring.EntrySteps(nonTerminal, productions)
  {
    var grouped := GroupByFirst(productions);
    var newProductions;
    result, steps, newProductions := FactorGroups(nonTerminal, grouped, result0, steps0);
    ApplyWritesSnoc(result0, Factoring.GroupWrites(nonTerminal, grouped, |grouped|), (nonTerminal, newProductions));
    result := result[nonTerminal := newProductions];
  }

  /** The inner loop of `Factorize`: walks the groups of one nonterminal,
      writing `result[A']` and logging a step for each group of two or more,
      and collects the nonterminal's new alternatives. */
  method FactorGroups(nonTerminal: string, grouped: seq<Group>, result0: Productions, steps0: seq<Step>)
    returns (result: Productions, steps: seq<Step>, newProductions: seq<string>)
    requires forall i :: 0 <= i < |grouped| ==> grouped[i].members != []
    ensures result == ApplyWrites(result0, Factoring.GroupWrites(nonTerminal, grouped, |grouped|))
    ensures steps == steps0 + Factoring.GroupSteps(nonTerminal, grouped, |grouped|)
    ensures newProductions == Factoring.Replacements(nonTerminal, grouped, |grouped|)
  {
    result, steps, newProductions := result0, steps0, [];
    for j := 0 to |grouped|
      invariant result == ApplyWrites(result0, Factoring.GroupWrites(nonTerminal, grouped, j))
      invariant steps == steps0 + Factoring.GroupSteps(nonTerminal, grouped, j)
      invariant newProductions == Factoring.Replacements(nonTerminal, grouped, j)
    {
      var group := grouped[j];
      Factoring.GroupSnoc(nonTerminal, grouped, j);
      if |group.members| > 1 {
        var prefix := group.key;
        var newNT := Prime(nonTerminal);
        newProductions := newProductions + [prefix + [Space] + newNT];
        var subRules := Factoring.Remainders(group.members);
        assert Factoring.GroupWrites(nonTerminal, grouped, j + 1)
            == Factoring.GroupWrites(nonTerminal, grouped, j) + [(newNT, subRules)];
        ApplyWritesSnoc(result0, Factoring.GroupWrites(nonTerminal, grouped, j), (newNT, subRules));
        result := result[newNT := subRules];
        steps := steps + [Factored(nonTerminal, prefix, newNT)];
      } else {
        newProductions := newProductions + [group.members[0]];
        assert Factoring.GroupWrites(nonTerminal, grouped, j + 1) == Factoring.GroupWrites(nonTerminal, grouped, j);
      }
    }
  }

  /** Direct left-recursion elimination, one pass over the nonterminals. */
  method EliminateLeftRecursion(grammar: Grammar) returns (out: Result<Transformed>)
    ensures out == Elimination.Elimination(grammar)
  {
    var result: Productions := map[];
    var steps: seq<Step> := [];
    for i := 0 to |grammar|
      invariant Elimination.WellFormedUpTo(grammar, i)
      invariant result == Run(map[], Blocks(grammar, Elimination.EntryWrites), i)
      invariant steps == Elimination.Steps(grammar, i)
    {
      var a, alts := grammar[i].0, grammar[i].1;
      var ok, alpha, beta := Partition(a, alts);
      if !ok {
        assert !Elimination.HasWords(grammar[i].1);
        return Failure(IndexOutOfRange);
      }
      assert Blocks(grammar, Elimination.EntryWrites)[i] == Elimination.EntryWrites(a, alts);
      assert Blocks(grammar, Elimination.EntrySteps)[i] == Elimination.EntrySteps(a, alts);
      result, steps := Rewrite(a, alts, alpha, beta, result, steps);
    }
    Elimination.WellFormedUpToAll(grammar, |grammar|);
    out := Success(Transformed(result, steps));
  }

  /** The rewrite of one nonterminal `a` once its alternatives are split:
      `A -> beta A'` and `A' -> alpha A' | ε` when `alpha` is not empty,
      `A` keeps its list otherwise. */
  method Rewrite(a: string, alts: seq<string>, alpha: seq<string>, beta: seq<string>, result0: Productions, steps0: seq<Step>)
    returns (result: Productions, steps: seq<Step>)
    requires alpha == Elimination.Alpha(a, alts, |alts|) && beta == Elimination.Beta(a, alts, |alts|)
    ensures result == ApplyWrites(result0, Elimination.EntryWrites(a, alts))
    ensures steps == steps0 + Elimination.EntrySteps(a, alts)
  {
    if alpha != [] {
      var a1 := Prime(a);
      result := result0[a := Elimination.Suffixed(beta, a1)];
      result := result[a1 := Elimination.Suffixed(alpha, a1)];
      result := result[a1 := result[a1] + [Elimination.Epsilon]];
      steps := steps0 + [Eliminated(a, a1)];
      var w1, w2 := (a, Elimination.NewAlternatives(a, alts)), (a1, Elimination.PrimedAlternatives(a, alts));
      assert Elimination.EntryWrites(a, alts) == [w1] + [w2];
      ApplyWritesSnoc(result0, [w1], w2);
      ApplyWritesSnoc(result0, [], w1);
    } else {
      result := result0[a := alts];
      steps := steps0;
      ApplyWritesSnoc(result0, [], (a, alts));
    }
  }

  /** The inner loop of `EliminateLeftRecursion`: splits the alternatives of
      `a` into `alpha` and `beta`; `ok` is false where `symbols[0]` throws. */
  method Partition(a: string, alts: seq<string>) returns (ok: bool, alpha: seq<string>, beta: seq<string>)
    ensures ok <==> Elimination.HasWords(alts)
    ensures ok ==> alpha == Elimination.Alpha(a, alts, |alts|) && beta == Elimination.Beta(a, alts, |alts|)
  {
    alpha, beta := [], [];
    for k := 0 to |alts|
      invariant forall j :: 0 <= j < k ==> Words(alts[j]) != []
      invariant alpha == Elimination.Alpha(a, alts, k)
      invariant beta == Elimination.Beta(a, alts, k)
    {
      var prod := alts[k];
      var symbols := Words(prod);
      if symbols == [] {
        // `symbols[0]` throws IndexOutOfRangeException
        return false, alpha, beta;
      }
      if symbols[0] == a {
        alpha := alpha + [Join(symbols[1..])];
      } else {
        beta := beta + [prod];
      }
    }
    ok := true;
  }

  /** Both transformations, applied independently to the same grammar. The
      call raises whatever the elimination raises. */
  method TransformStepByStep(grammar: Grammar) returns (out: Result<Report>)
    ensures out.Success? <==> Elimination.WellFormed(grammar)
    ensures out.Success? ==>
              out.value.message == Message &&
              out.value.factorization == Factoring.Factorization(grammar) &&
              Success(out.value.recursionElimination) == Elimination.Elimination(grammar)
  {
    var factorized := Factorize(grammar);
    var noRecursion := EliminateLeftRecursion(grammar);
    if noRecursion.Failure? {
      return Failure(noRecursion.error);
    }
    out := Success(Report(Message, factorized, noRecursion.value));
  }
}
