/** LINQ's `GroupBy(p => p.Split(' ')[0])` over the alternatives of one
    nonterminal: one group per distinct first token, groups in the order in
    which their key first occurs, each group's elements in input order. */
module Lookup {
  import opened Tokens

  /** One group: its key and the alternatives that have it as first token. */
  datatype Group = Group(key: string, members: seq<string>)

  /** The distinct first tokens of `alts`, in order of first occurrence. */
  function Keys(alts: seq<string>): (ks: seq<string>)
    ensures forall i, j :: 0 <= i < j < |ks| ==> ks[i] != ks[j]
  {
    if alts == [] then []
    else
      var init, last := alts[..|alts| - 1], alts[|alts| - 1];
      assert alts == init + [last];
      var ks := Keys(init);
      if FirstToken(last) in ks then ks else ks + [FirstToken(last)]
  }

  /** The alternatives whose first token is `k`, in input order. */
  function WithFirst(alts: seq<string>, k: string): (r: seq<string>)
  {
    if alts == [] then []
    else
      var last := alts[|alts| - 1];
      WithFirst(alts[..|alts| - 1], k) + (if FirstToken(last) == k then [last] else [])
  }

  /** Adds `p` to the group of its first token, or opens a new group for it at the end. */
  function Insert(gs: seq<Group>, p: string): (r: seq<Group>)
    ensures (forall i :: 0 <= i < |gs| ==> gs[i].members != []) ==>
              forall i :: 0 <= i < |r| ==> r[i].members != []
  {
    if gs == [] then [Group(FirstToken(p), [p])]
    else if gs[0].key == FirstToken(p) then [gs[0].(members := gs[0].members + [p])] + gs[1..]
    else [gs[0]] + Insert(gs[1..], p)
  }

  /** The lookup, built by one pass over the alternatives. No group is empty. */
  function GroupByFirst(alts: seq<string>): (gs: seq<Group>)
    ensures forall i :: 0 <= i < |gs| ==> gs[i].members != []
  {
    if alts == [] then [] else Insert(GroupByFirst(alts[..|alts| - 1]), alts[|alts| - 1])
  }

  /** The keys are exactly the first tokens of the alternatives. */
  lemma {:induction false} KeysMembers(alts: seq<string>)
    ensures forall k :: k in Keys(alts) <==> exists p :: p in alts && FirstToken(p) == k
  {
    if alts != [] {
      var init, last := alts[..|alts| - 1], alts[|alts| - 1];
      KeysMembers(init);
      assert alts == init + [last];
    }
  }

  /** No alternative has first token `k` exactly when `k` is not a key. */
  lemma {:induction false} WithFirstEmpty(alts: seq<string>, k: string)
    ensures WithFirst(alts, k) == [] <==> k !in Keys(alts)
  {
    if alts != [] {
      WithFirstEmpty(alts[..|alts| - 1], k);
    }
  }

  lemma {:induction false} InsertExisting(gs: seq<Group>, p: string, i: nat)
    requires i < |gs| && gs[i].key == FirstToken(p)
    requires forall j :: 0 <= j < |gs| && j != i ==> gs[j].key != FirstToken(p)
    ensures Insert(gs, p) == gs[i := gs[i].(members := gs[i].members + [p])]
  {
    if i > 0 {
      InsertExisting(gs[1..], p, i - 1);
    }
  }

  lemma {:induction false} InsertNew(gs: seq<Group>, p: string)
    requires forall j :: 0 <= j < |gs| ==> gs[j].key != FirstToken(p)
    ensures Insert(gs, p) == gs + [Group(FirstToken(p), [p])]
  {
    if gs != [] {
      InsertNew(gs[1..], p);
    }
  }

  /** The one-pass lookup has exactly one group per distinct first token, in
      order of first occurrence, and each group holds all the alternatives
      with that first token, in input order. */
  lemma {:induction false} GroupByFirstSpec(alts: seq<string>)
    ensures |GroupByFirst(alts)| == |Keys(alts)|
    ensures forall i :: 0 <= i < |Keys(alts)| ==>
              GroupByFirst(alts)[i] == Group(Keys(alts)[i], WithFirst(alts, Keys(alts)[i]))
  {
    if alts != [] {
      var init, p := alts[..|alts| - 1], alts[|alts| - 1];
      var gs0, ks0, k := GroupByFirst(init), Keys(init), FirstToken(p);
      GroupByFirstSpec(init);
      assert GroupByFirst(alts) == Insert(gs0, p);
      if k in ks0 {
        var i :| 0 <= i < |ks0| && ks0[i] == k;
        InsertExisting(gs0, p, i);
        assert Keys(alts) == ks0;
        forall j | 0 <= j < |ks0|
          ensures GroupByFirst(alts)[j] == Group(ks0[j], WithFirst(alts, ks0[j]))
        {
          assert WithFirst(alts, ks0[j]) == WithFirst(init, ks0[j]) + (if k == ks0[j] then [p] else []);
        }
      } else {
        InsertNew(gs0, p);
        WithFirstEmpty(init, k);
        assert Keys(alts) == ks0 + [k];
        forall j | 0 <= j < |ks0| + 1
          ensures GroupByFirst(alts)[j] == Group(Keys(alts)[j], WithFirst(alts, Keys(alts)[j]))
        {
          if j < |ks0| {
            assert WithFirst(alts, ks0[j]) == WithFirst(init, ks0[j]);
          } else {
            assert WithFirst(alts, k) == WithFirst(init, k) + [p];
          }
        }
      }
    }
  }
}
