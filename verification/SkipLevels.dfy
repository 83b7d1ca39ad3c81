/**
 What the levels look like from the pointers: following the pointers of a level from the head meets
 exactly the nodes of that level, in strictly ascending order; and during a put each level's keys are
 among the keys of the level below, whichever of its stores was the last.
 */
module SkipLevels {
  import opened Bytes
  import opened SkipLinks
  import opened SkipReaders

  /** The nodes met by following the level-l pointers from n. Every slot on the way is set. */
  ghost function Chain(s: Links, l: nat, n: Node): seq<Node>
    requires Inv(s) && l < MAX_HEIGHT && n in s.next && Up(s, l, n)
    decreases After(s, n)
  {
    assert SlotOk(s, l, n);
    var v := s.next[n][l].node;
    if v == null then []
    else
      assert v in s.at[l];
      AfterShrinks(s, n, v);
      [v] + Chain(s, l, v)
  }

  ghost predicate StrictlyAscending(ns: seq<Node>) {
    forall i, j :: 0 <= i < j < |ns| ==> Less(ns[i].kv.key, ns[j].kv.key)
  }

  lemma {:induction false} ChainFrom(s: Links, l: nat, n: Node)
    requires Inv(s) && l < MAX_HEIGHT && n in s.next && Up(s, l, n)
    ensures StrictlyAscending(Chain(s, l, n))
    ensures forall m :: m in Chain(s, l, n) <==> m in s.at[l] && Before(s, n, m)
    decreases After(s, n)
  {
    assert SlotOk(s, l, n);
    var v := s.next[n][l].node;
    if v != null {
      assert v in s.at[l];
      AfterShrinks(s, n, v);
      ChainFrom(s, l, v);
      LessIsStrictTotalOrder();
      hide Less, Chain, Inv;
      assert v != s.head;
      var rest := Chain(s, l, v);
      forall m
        ensures m in [v] + rest <==> m in s.at[l] && Before(s, n, m)
      {
        if m in s.at[l] && Before(s, n, m) {
          assert m == v || Before(s, v, m);
        }
      }
      forall j | 0 <= j < |rest|
        ensures Less(v.kv.key, rest[j].kv.key)
      {
        assert rest[j] in rest && Before(s, v, rest[j]);
      }
      assert Chain(s, l, n) == [v] + rest by { ChainStep(s, l, n); }
    } else {
      assert Chain(s, l, n) == [];
    }
  }

  lemma ChainStep(s: Links, l: nat, n: Node)
    requires Inv(s) && l < MAX_HEIGHT && n in s.next && Up(s, l, n)
    ensures SlotOk(s, l, n)
    ensures var v := s.next[n][l].node;
            v != null ==> v in s.next && Up(s, l, v) && Chain(s, l, n) == [v] + Chain(s, l, v)
  {
    assert SlotOk(s, l, n);
    hide Less;
    var v := s.next[n][l].node;
    assert v != null ==> v in s.at[l];
  }

  /** After every single store, each level reachable from the head is strictly ascending and is just that level. */
  lemma LevelsAscend(s: Links, l: nat)
    requires Inv(s) && l < MAX_HEIGHT
    ensures StrictlyAscending(Chain(s, l, s.head)) && forall m :: m in Chain(s, l, s.head) <==> m in s.at[l]
  {
    ChainFrom(s, l, s.head);
  }

  /** Each level's keys are among the keys of the level below. */
  ghost predicate KeysNested(at: seq<set<Node>>) {
    forall l, h :: 0 <= l <= h < |at| ==> KeysOf(at[h]) <= KeysOf(at[l])
  }

  lemma QuiescentNests(s: Links)
    requires Quiescent(s)
    ensures |s.at| == MAX_HEIGHT && KeysNested(s.at)
  {
    assert |s.at| == MAX_HEIGHT;
    hide Inv;
    forall l, h | 0 <= l <= h < MAX_HEIGHT
      ensures KeysOf(s.at[h]) <= KeysOf(s.at[l])
    {
      assert s.at[h] <= s.at[l];
    }
  }

  /** All states from moment n on have nested levels. */
  ghost predicate NestedSince(n: nat, tr: Trace) {
    forall j :: n <= j < |tr| ==> KeysNested(tr[j].at)
  }

  lemma NestedGrows(n: nat, tr: Trace, tr': Trace)
    requires NestedSince(n, tr) && tr <= tr' && NestedSince(|tr|, tr')
    ensures NestedSince(n, tr')
  {
    hide KeysNested;
    forall j | n <= j < |tr'|
      ensures KeysNested(tr'[j].at)
    {
      assert j < |tr| ==> tr'[j] == tr[j];
    }
  }
}
