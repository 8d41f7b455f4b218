# Grammar transformer: left factoring and left-recursion elimination

This project models `GrammarTransformer`, the service that rewrites a
context-free grammar for top-down parsing. The grammar is a dictionary from
nonterminal names to lists of alternatives, and each alternative is a string
of space-separated symbols. The service offers three operations:

- `Factorize` groups the alternatives of each nonterminal `A` by their first
  token. A group of two or more becomes the single alternative `prefix A'`,
  and `A'` receives the group's remainders.
- `EliminateLeftRecursion` splits the alternatives of each `A` into `alpha`
  (they start with the word `A`; that word is dropped) and `beta` (all the
  others). When `alpha` is not empty it rewrites `A -> beta A'` and
  `A' -> alpha A' | ε`.
- `TransformStepByStep` runs both on the same grammar and bundles the two
  results with a fixed message.

The model follows the code as written:

- it groups by the first token only;
- it makes a single pass;
- the new name is always `A + "'"`;
- a member with one token leaves the remainder `""`;
- every dictionary write replaces the earlier value.

## Layout

- `tokens.dfy` (`Tokens`) covers the three string operations the code uses:
  - `Split` is `Split(' ')` and keeps empty fragments;
  - `Words` is `Split(' ', RemoveEmptyEntries)`;
  - `Join` is `string.Join(' ', …)`.
  
  The module also has their round-trip and concatenation lemmas.
- `lookup.dfy` (`Lookup`) models LINQ `GroupBy` on the first token. It is a
  one-pass fold, proved equal to "one group per distinct key, keys in order of
  first occurrence, members in input order".
- `grammars.dfy` (`Grammars`) holds the shared values:
  - the input dictionary as its entries in enumeration order;
  - the result dictionary;
  - steps, `Prime` and the error;
  - `Blocks`, the writes of each nonterminal under a given per-entry rule,
    and `Run`, which performs them in order to build the result;
  - the last-write-wins lemmas about those writes.
- `factoring.dfy` and `elimination.dfy` hold the specification functions:
  what each operation returns, as a function of the input. The elimination
  first classifies each alternative (`Kind`: its rest goes to `alpha`, or
  the alternative goes to `beta`). Then `alpha` and `beta` are read off the
  classification.
- `transformer.dfy` (`GrammarTransformer`) holds the three operations as
  methods. They use the same loops as the source: an outer loop over the
  nonterminals and an inner loop over the groups or alternatives. Each method
  is proved to return what the specification function says.
- `factoring_facts.dfy`, `elimination_facts.dfy` and `worked_cases.dfy` prove
  what the transformations guarantee. `worked_cases.dfy` also works through
  two example grammars in general form.

## Model

| member | source | states |
|---|---|---|
| GrammarTransformer.Factorize | Services/GrammarTransformer.cs:7-42 | The loop over the nonterminals returns exactly the result dictionary and steps of `Factoring.Factorization` |
| GrammarTransformer.FactorEntry | Services/GrammarTransformer.cs:14-39 | One pass of the outer loop: performs exactly the writes of one nonterminal and appends exactly its steps |
| GrammarTransformer.FactorGroups | Services/GrammarTransformer.cs:19-36 | The loop over the groups of one nonterminal: the new alternatives are `Replacements`, every shared group writes `result[A']` and logs one step, in group order |
| GrammarTransformer.EliminateLeftRecursion | Services/GrammarTransformer.cs:44-79 | Returns `Elimination.Elimination(grammar)`: a failure exactly when some alternative has no word, otherwise the result dictionary and steps of the specification |
| GrammarTransformer.Partition | Services/GrammarTransformer.cs:52-62 | `ok` holds exactly when every alternative has a word (`symbols[0]` defined); then `alpha` and `beta` are the specification's split |
| GrammarTransformer.Rewrite | Services/GrammarTransformer.cs:64-75 | The writes for one nonterminal are performed: `A -> beta A'`, then `A' -> alpha A'` with `ε` appended and one step, or `A` keeps its list |
| GrammarTransformer.TransformStepByStep | Services/GrammarTransformer.cs:81-91 | Not chained: both parts are computed from the original grammar; for non-null input, fails exactly when the elimination fails; the message is fixed |
| Tokens.SplitShape | Services/GrammarTransformer.cs:18 | `Split(' ')` yields one more fragment than there are spaces, and no fragment contains a space |
| Tokens.JoinSplit | Services/GrammarTransformer.cs:28 | Joining the fragments of `Split(' ')` with single spaces gives back the string |
| Tokens.SplitJoin | Services/GrammarTransformer.cs:28 | Splitting the join of a non-empty list of space-free parts gives back the parts |
| Tokens.WordsJoin | Services/GrammarTransformer.cs:59 | The words of a join of non-empty, space-free words are those words |
| Tokens.WordsShape | Services/GrammarTransformer.cs:57 | `Split(' ', RemoveEmptyEntries)` yields only non-empty, space-free words |
| Tokens.WordsConcat | Services/GrammarTransformer.cs:57 | The words of `x + " " + y` are the words of `x` followed by those of `y` |
| Tokens.WordsEmptyIffBlank | Services/GrammarTransformer.cs:57-58 | There is no word, so `symbols[0]` throws, exactly when the alternative is blank |
| Tokens.Reassemble | Services/GrammarTransformer.cs:18-28 | First token + space + remainder is the alternative; without a space the first token is the whole alternative and the remainder is `""` |
| Lookup.KeysMembers | Services/GrammarTransformer.cs:18 | The group keys are exactly the first tokens of the alternatives (and they are distinct) |
| Lookup.WithFirstEmpty | Services/GrammarTransformer.cs:18 | A key has members exactly when it is a key of the lookup |
| Lookup.GroupByFirstSpec | Services/GrammarTransformer.cs:18 | The one-pass lookup has one group per distinct first token, in order of first occurrence, each holding all alternatives with that token in input order |
| Grammars.LastWriteWins | Services/GrammarTransformer.cs:29-38 | A key holds the value of the last write to it |
| Grammars.ApplyWritesKeys | Services/GrammarTransformer.cs:29-38 | Dictionary writes never remove a key: the keys afterwards are the keys before plus the keys written |
| Grammars.RunKeys | Services/GrammarTransformer.cs:9-39 | The result starts empty, so its keys are exactly the keys some nonterminal writes |
| Grammars.ConcatIn | Services/GrammarTransformer.cs:12-39 | The trace starts empty and is only appended to, so a step is in it exactly when some nonterminal logged it |
| Grammars.UnwrittenKey | Services/GrammarTransformer.cs:29-38 | A key no write names keeps its value or stays absent |
| Grammars.PrimeInjective | Services/GrammarTransformer.cs:26 | Two nonterminals get the same new name only if they are the same |
| Grammars.EntryOwnsKey | Services/GrammarTransformer.cs:12-39 | With distinct keys, none the primed name of another, the final value of `A` and `A'` is what `A`'s own writes give them |
| Grammars.RunSingletons | Services/GrammarTransformer.cs:72-75 | When each nonterminal writes only its own list, the result is the input dictionary |
| FactoringFacts.NewAlternativesSpec | Services/GrammarTransformer.cs:18-36 | One output alternative per distinct first token, in order of first occurrence: `prefix A'` for a shared token, the single alternative verbatim otherwise |
| FactoringFacts.WithFirstMembers | Services/GrammarTransformer.cs:18 | A group holds exactly the alternatives with its first token |
| FactoringFacts.GroupMember | Services/GrammarTransformer.cs:25-28 | A group member is `prefix + " " + remainder`, or `prefix` alone with remainder `""` |
| FactoringFacts.BlankKey | Services/GrammarTransformer.cs:18 | Empty and leading-space (non-null) alternatives do not fail; they share the group with key `""` |
| FactoringFacts.GroupWritesShape | Services/GrammarTransformer.cs:21-35 | One write to `A'` and one step naming `A` and `A'` per group of two or more; none when no group is shared |
| FactoringFacts.LastSharedWrite | Services/GrammarTransformer.cs:26-29 | The last write to `A'` carries the remainders of the last shared group |
| FactoringFacts.EntryMap | Services/GrammarTransformer.cs:21-38 | After one nonterminal, `A` holds its new alternatives; `A'` holds the last shared group's remainders, whatever it held, or is untouched when no group is shared |
| FactoringFacts.FactorizationEntry | Services/GrammarTransformer.cs:12-39 | With distinct keys, none the primed name of another: `result[A]` holds the new alternatives; `A'` is present exactly when some group is shared, and holds the last shared group's remainders |
| FactoringFacts.Unfactored | Services/GrammarTransformer.cs:21-38 | When all first tokens differ, the list comes back unchanged, with only the write `result[A] = alts` and no step |
| FactoringFacts.SharedGroup | Services/GrammarTransformer.cs:18-23 | Two alternatives with the same first token make a group of two or more |
| FactoringFacts.FactoredIff | Services/GrammarTransformer.cs:21-35 | A nonterminal logs a step exactly when two of its alternatives share a first token |
| FactoringFacts.EntryStepsCount | Services/GrammarTransformer.cs:21-35 | The steps of a nonterminal number the first tokens shared by two or more alternatives |
| FactoringFacts.StepsCount | Services/GrammarTransformer.cs:12-39 | The total number of steps is the number of shared groups summed over all nonterminals; each step is a factoring step whose new name is the primed form of its nonterminal |
| FactoringFacts.GroupStepsIn | Services/GrammarTransformer.cs:21-35 | The steps of the groups are exactly one `Factored(A, key, A')` per group of two or more |
| FactoringFacts.EntryStepsIn | Services/GrammarTransformer.cs:18-35 | The steps of one nonterminal are exactly `Factored(A, k, A')` for the first tokens `k` shared by two or more of its alternatives |
| FactoringFacts.StepsLogged | Services/GrammarTransformer.cs:12-39 | Every step names the nonterminal it was logged for, a first token shared by two or more of that nonterminal's alternatives, and its primed name; every such token of every nonterminal has its step |
| FactoringFacts.EntryKeys | Services/GrammarTransformer.cs:21-38 | One nonterminal writes exactly itself, and its primed name when two of its alternatives share a first token |
| FactoringFacts.ResultKeys | Services/GrammarTransformer.cs:7-42 | The result's keys are exactly the input's nonterminals plus the primed names of the factored ones: nothing else is written |
| FactoringFacts.Unchanged | Services/GrammarTransformer.cs:7-42 | A grammar whose alternatives all start differently within each nonterminal comes back as the input dictionary, with no step |
| FactoringFacts.PrimeKeyAfter | Services/GrammarTransformer.cs:29-38 | An input key `A'` after `A` keeps its own new alternatives |
| FactoringFacts.PrimeKeyBefore | Services/GrammarTransformer.cs:29-38 | An input key `A'` before `A` is overwritten by `A`'s last shared group, if there is one |
| Elimination.Classify | Services/GrammarTransformer.cs:57-61 | An alternative goes to `alpha` exactly when its first word is `A`, and then `A` followed by the words of the rest it contributes are the alternative's words: nothing is dropped but `A` |
| Elimination.RestWords | Services/GrammarTransformer.cs:57-59 | Splitting the re-joined rest again gives exactly the words after the first |
| EliminationFacts.RecursiveMembers | Services/GrammarTransformer.cs:58-64 | The recursive set holds exactly the indices of nonterminals with an alternative starting with themselves |
| EliminationFacts.PartitionSizes | Services/GrammarTransformer.cs:55-62 | The sizes of `alpha` and `beta` add up to the number of alternatives |
| EliminationFacts.AlphaMembers | Services/GrammarTransformer.cs:57-59 | `alpha` holds exactly the alternatives whose first word is `A`, with that word dropped and the rest re-joined |
| EliminationFacts.BetaMembers | Services/GrammarTransformer.cs:60-61 | `beta` holds exactly the other alternatives, verbatim |
| EliminationFacts.AlphaEmpty | Services/GrammarTransformer.cs:58-64 | `alpha` is empty exactly when no alternative starts with `A` |
| EliminationFacts.WellFormedIffNoBlank | Services/GrammarTransformer.cs:57-58 | The elimination throws exactly when some alternative is blank |
| EliminationFacts.NoDirectRecursionLeft | Services/GrammarTransformer.cs:64-75 | After the rewrite no alternative of `A` starts with `A`, and eliminating `A`'s new list again changes nothing |
| EliminationFacts.PrimeLeftRecursive | Services/GrammarTransformer.cs:59-69 | An alternative that is `A` alone puts `""` in `alpha`, so `A'` gets the alternative ` A'` and is itself directly left-recursive: eliminating `A'`'s list again rewrites it and logs a step |
| EliminationFacts.EntryAlone | Services/GrammarTransformer.cs:64-75 | One nonterminal's writes alone: with `alpha` non-empty, `A -> beta A'` and `A' -> alpha A'` plus `ε`; otherwise `A` keeps its list and `A'` is not written |
| EliminationFacts.EliminationEntry | Services/GrammarTransformer.cs:64-75 | With distinct keys, none the primed name of another: a recursive `A` gives `A -> beta A'` and `A' -> alpha A'` plus `ε`, one alternative more than `A` had; otherwise `A` keeps its list and `A'` is absent |
| EliminationFacts.StepsCount | Services/GrammarTransformer.cs:64-71 | As many steps as nonterminals with an alternative starting with themselves; each step is an elimination step whose new name is the primed form of its nonterminal |
| EliminationFacts.StepsLogged | Services/GrammarTransformer.cs:49-76 | The steps are exactly `Eliminated(A, A')` for the nonterminals `A` with an alternative starting with `A` |
| EliminationFacts.EntryKeys | Services/GrammarTransformer.cs:64-75 | One nonterminal writes exactly itself, and its primed name when it has an alternative starting with itself |
| EliminationFacts.ResultKeys | Services/GrammarTransformer.cs:44-79 | The result's keys are exactly the input's nonterminals plus the primed names of the rewritten ones: nothing else is written |
| EliminationFacts.Unchanged | Services/GrammarTransformer.cs:72-75 | A grammar with no blank alternative and no direct left recursion, including one with only indirect recursion, comes back unchanged, with no step |
| Elimination.WellFormedUpToAll | Services/GrammarTransformer.cs:49-58 | No alternative of the first `n` nonterminals throws, exactly when each of their lists has words |
| WorkedCases.LeftRecursionCase | Services/GrammarTransformer.cs:44-79 | `A -> A x, A y, c` becomes `A -> c A'` and `A' -> x A', y A', ε`, with one step |
| WorkedCases.FirstTokenFactoringCase | Services/GrammarTransformer.cs:7-42 | `A -> p q r, p q s, x` becomes `A -> p A', x` and `A' -> q r, q s`: factored on the first token `p`, not on `p q` |
| WorkedCases.CaseGroups | Services/GrammarTransformer.cs:18 | Three alternatives, the first two sharing a first token, form two groups in order |

## Left out

- HTTP routing, service registration and JSON serialisation are left out. So are the anonymous result objects: they are plain datatypes here (`Transformed`, `Report`).
- The `Grammar` and `Production` DTOs are left out, and there is no conversion between them and the dictionary form: the code has none.
- Step messages are kept as the facts they report (`Factored(A, prefix, A')` and `Eliminated(A, A')`), not as their Spanish text.
- Dictionary enumeration order is replaced by the order of an explicit entry sequence. The result dictionary is a `map`, whose order is not modelled.
- An exception from `symbols[0]` becomes a `Failure(IndexOutOfRange)` result for the whole call, and so also for `TransformStepByStep`.
- Sharing is not modelled. `result[A] = kv.Value` stores the input list itself rather than a copy, and the code never changes that list afterwards, so values stand in for lists.
- A longest-common-prefix search, repeated factoring, fresh-name allocation and `ε` for an empty remainder are not modelled: the code does none of them. `WorkedCases.FirstTokenFactoringCase` shows the first-token behaviour where a longer common prefix exists.
- FactoringFacts.FactorizationEntry: describes each nonterminal's final entries only for dictionaries whose keys are not primed names of each other. When one is, the order of entries decides which write survives; `FactoringFacts.PrimeKeyAfter` and `FactoringFacts.PrimeKeyBefore` cover that case for two entries.
- EliminationFacts.EliminationEntry: describes each nonterminal's final entries only for dictionaries whose keys are not primed names of each other, for the same reason: when one is, a later entry can overwrite `A'` or an earlier one can be overwritten by it.
- Null references are not modelled: the dictionary, its lists and its alternatives are always present values. In the code a null alternative or list makes `Split` or `GroupBy` throw at line 18 inside `Factorize`, which `TransformStepByStep` runs before the elimination, so for such input `TransformStepByStep` fails even when the elimination alone would not.
- EliminationFacts.NoDirectRecursionLeft states that `A` is free of direct left recursion after one pass, not the new nonterminal `A'`: with an alternative that is `A` alone, `A'` is directly left-recursive (`EliminationFacts.PrimeLeftRecursive`). The code makes a single pass and so does the model.
