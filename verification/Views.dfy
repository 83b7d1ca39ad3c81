/**
 What a list of segments means. Segments are ordered oldest first; each key takes its entry from the
 newest segment that has one, and a key whose entry is a removal is not there at all.
 */
module Views {
  import opened Bytes
  import opened KeyValues

  ghost function Merged(ms: seq<Entries>): Entries {
    if ms == [] then map[] else Merged(ms[..|ms| - 1]) + ms[|ms| - 1]
  }

  ghost function Live(m: Entries): Entries {
    map k | k in m && m[k] != [] :: m[k]
  }

  ghost function LiveView(ms: seq<Entries>): Entries {
    Live(Merged(ms))
  }

  /** Entry k of the merge comes from segment i, the newest one that has it. */
  ghost predicate NewestAt(ms: seq<Entries>, k: Bytes, i: nat) {
    i < |ms| && k in ms[i] && forall j :: i < j < |ms| ==> k !in ms[j]
  }

  lemma {:induction false} MergedIsNewest(ms: seq<Entries>, k: Bytes, i: nat)
    requires NewestAt(ms, k, i)
    ensures k in Merged(ms) && Merged(ms)[k] == ms[i][k]
    decreases |ms|
  {
    if i < |ms| - 1 {
      MergedIsNewest(ms[..|ms| - 1], k, i);
    }
  }

  lemma {:induction false} MergedHasNewest(ms: seq<Entries>, k: Bytes) returns (i: nat)
    requires k in Merged(ms)
    ensures NewestAt(ms, k, i)
    decreases |ms|
  {
    var n := |ms| - 1;
    if k in ms[n] {
      i := n;
    } else {
      i := MergedHasNewest(ms[..n], k);
    }
  }

  lemma {:induction false} MergedLacks(ms: seq<Entries>, k: Bytes)
    requires forall i :: 0 <= i < |ms| ==> k !in ms[i]
    ensures k !in Merged(ms)
    decreases |ms|
  {
    if ms != [] {
      MergedLacks(ms[..|ms| - 1], k);
    }
  }

  lemma {:induction false} MergedConcat(a: seq<Entries>, b: seq<Entries>)
    ensures Merged(a + b) == Merged(a) + Merged(b)
    decreases |b|
  {
    if b == [] {
      assert a + b == a;
    } else {
      var front := b[..|b| - 1];
      assert (a + b)[..|a + b| - 1] == a + front;
      MergedConcat(a, front);
    }
  }

  lemma {:induction false} MergedMinus(ms: seq<Entries>, ms': seq<Entries>, k: Bytes)
    requires |ms| == |ms'| && forall i :: 0 <= i < |ms| ==> ms'[i] == ms[i] - {k}
    ensures Merged(ms') == Merged(ms) - {k}
    decreases |ms|
  {
    if ms != [] {
      MergedMinus(ms[..|ms| - 1], ms'[..|ms| - 1], k);
    }
  }

  // ---- the clients' own account: a plain map ----

  function PutLive(v: Entries, key: Bytes, value: Bytes): Entries {
    if value == [] then v - {key} else v[key := value]
  }

  function PutsLive(v: Entries, es: seq<KeyValue>): Entries {
    if es == [] then v else PutLive(PutsLive(v, es[..|es| - 1]), es[|es| - 1].key, es[|es| - 1].value)
  }

  /** write does not check its keys; the empty key is the one that must not be in a batch. */
  ghost predicate NoEmptyKeyIn(es: seq<KeyValue>) {
    forall i :: 0 <= i < |es| ==> es[i].key != []
  }

  lemma {:induction false} PutsLiveIsLive(m: Entries, es: seq<KeyValue>)
    ensures PutsLive(Live(m), es) == Live(m + MapOf(es))
    decreases |es|
  {
    if es == [] {
      assert m + MapOf(es) == m;
    } else {
      var front, kv := es[..|es| - 1], es[|es| - 1];
      PutsLiveIsLive(m, front);
      hide PutsLive;
      assert m + MapOf(es) == (m + MapOf(front))[kv.key := kv.value];
      LivePut(m + MapOf(front), kv);
    }
  }

  lemma LivePut(m: Entries, kv: KeyValue)
    ensures Live(m[kv.key := kv.value]) == PutLive(Live(m), kv.key, kv.value)
  {
  }

  lemma {:induction false} MapOfNoEmptyKey(es: seq<KeyValue>)
    requires NoEmptyKeyIn(es)
    ensures [] !in MapOf(es)
    decreases |es|
  {
    if es != [] {
      MapOfNoEmptyKey(es[..|es| - 1]);
    }
  }

  /** Live views that agree still agree when the same newer segment comes on top of both. */
  lemma SameViewThenSameView(a: seq<Entries>, b: seq<Entries>, m: Entries)
    requires LiveView(a) == LiveView(b)
    ensures LiveView(a + [m]) == LiveView(b + [m])
  {
    MergedConcat(a, [m]);
    MergedConcat(b, [m]);
    SingleMerged(m);
    var x, y := Merged(a), Merged(b);
    assert Live(x) == Live(y);
    hide Merged;
    forall k
      ensures k in Live(x + m) <==> k in Live(y + m)
      ensures k in Live(x + m) ==> Live(x + m)[k] == Live(y + m)[k]
    {
      assert k in Live(x) <==> k in Live(y);
    }
    SameEntries(Live(x + m), Live(y + m));
  }

  lemma EmptyOnTop(ms: seq<Entries>)
    ensures LiveView(ms + [map[]]) == LiveView(ms)
  {
    MergedConcat(ms, [map[]]);
    SingleMerged(map[]);
  }

  lemma EmptyBetween(a: seq<Entries>, b: seq<Entries>)
    ensures LiveView(a + [map[]] + b) == LiveView(a + b)
  {
    MergedConcat(a + [map[]], b);
    MergedConcat(a, [map[]]);
    MergedConcat(a, b);
    SingleMerged(map[]);
  }

  lemma PutsOnTop(ms: seq<Entries>, m: Entries, es: seq<KeyValue>)
    ensures LiveView(ms + [m + MapOf(es)]) == PutsLive(LiveView(ms + [m]), es)
  {
    MergedConcat(ms, [m + MapOf(es)]);
    MergedConcat(ms, [m]);
    SingleMerged(m);
    SingleMerged(m + MapOf(es));
    var older, puts := Merged(ms), MapOf(es);
    PutsLiveIsLive(older + m, es);
    hide Merged, MapOf, PutsLive, Live;
    assert older + (m + puts) == older + m + puts;
  }

  // ---- replacing a window of segments by its merge ----

  lemma WindowMergeKeepsMerged(a: seq<Entries>, w: seq<Entries>, b: seq<Entries>)
    ensures Merged(a + [Merged(w)] + b) == Merged(a + w + b)
  {
    MergedConcat(a + [Merged(w)], b);
    MergedConcat(a, [Merged(w)]);
    MergedConcat(a + w, b);
    MergedConcat(a, w);
    assert Merged([Merged(w)]) == Merged(w) by {
      assert [Merged(w)][..0] == [];
    }
  }

  lemma SingleMerged(m: Entries)
    ensures Merged([m]) == m
  {
    assert [m][..0] == [];
  }

  /** A removal may be dropped from the merge of w when nothing older would show through. */
  ghost predicate PurgeIsSafe(a: seq<Entries>, w: seq<Entries>, b: seq<Entries>) {
    forall k :: k in Merged(w) && Merged(w)[k] == [] && k !in Merged(b) ==> k !in LiveView(a)
  }

  /** Dropping removals while merging a window keeps the live view exactly when no removal hides an older value. */
  lemma PurgeKeepsLiveViewExactlyWhen(a: seq<Entries>, w: seq<Entries>, b: seq<Entries>)
    ensures LiveView(a + [Live(Merged(w))] + b) == LiveView(a + w + b) <==> PurgeIsSafe(a, w, b)
  {
    MergedConcat(a + [Live(Merged(w))], b);
    MergedConcat(a, [Live(Merged(w))]);
    MergedConcat(a + w, b);
    MergedConcat(a, w);
    SingleMerged(Live(Merged(w)));
    var ma, mw, mb := Merged(a), Merged(w), Merged(b);
    hide Merged;
    PurgeByKey(ma, mw, mb);
    assert LiveView(a) == Live(ma);
  }

  lemma PurgeByKey(ma: Entries, mw: Entries, mb: Entries)
    ensures Live(ma + Live(mw) + mb) == Live(ma + mw + mb) <==>
            forall k :: k in mw && mw[k] == [] && k !in mb ==> k !in Live(ma)
  {
    var a, b := ma + Live(mw) + mb, ma + mw + mb;
    if k :| k in mw && mw[k] == [] && k !in mb && k in Live(ma) {
      assert k in Live(a) && k !in Live(b);
    } else {
      forall k
        ensures k in Live(a) <==> k in Live(b)
        ensures k in Live(a) ==> Live(a)[k] == Live(b)[k]
      {
        if k in mb {
        } else if k in mw && mw[k] == [] {
          assert k !in Live(ma);
        }
      }
      SameEntries(Live(a), Live(b));
    }
  }

  lemma SameEntries(a: Entries, b: Entries)
    requires forall k :: k in a <==> k in b
    requires forall k :: k in a ==> a[k] == b[k]
    ensures a == b
  {
  }

  /** The merger purges only windows that start at the oldest segment: always safe. */
  lemma PurgeAtBottomKeepsLiveView(w: seq<Entries>, b: seq<Entries>)
    ensures LiveView([Live(Merged(w))] + b) == LiveView(w + b)
  {
    hide Merged, LiveView;
    assert PurgeIsSafe([], w, b) by { NothingLive(); }
    PurgeKeepsLiveViewExactlyWhen([], w, b);
    assert [] + [Live(Merged(w))] + b == [Live(Merged(w))] + b && [] + w + b == w + b;
  }

  lemma NothingLive()
    ensures LiveView([]) == map[]
  {
  }

  /** Why the rule is needed: purged above an older value, a removal brings the value back. */
  lemma PurgeAboveResurrects(k: Bytes, v: Bytes)
    requires v != []
    ensures var a, w := [map[k := v]], [map[k := []]];
            LiveView(a + w) == map[] && LiveView(a + [Live(Merged(w))]) == map[k := v]
  {
    var a, w := [map[k := v]], [map[k := []]];
    SingleMerged(a[0]);
    SingleMerged(w[0]);
    MergedConcat(a, w);
    MergedConcat(a, [Live(w[0])]);
    SingleMerged(Live(w[0]));
  }

  /** What a merge writes: everything, or at the bottom of the list only what is not a removal. */
  ghost function MergedEntries(ms: seq<Entries>, purge: bool): Entries {
    if purge then Live(Merged(ms)) else Merged(ms)
  }

  /** Replacing a window by its merge, purged when it starts at the bottom. */
  lemma MergeWindowKeepsView(a: seq<Entries>, w: seq<Entries>, b: seq<Entries>, purge: bool)
    requires purge ==> a == []
    ensures LiveView(a + [MergedEntries(w, purge)] + b) == LiveView(a + w + b)
  {
    if purge {
      PurgeAtBottomKeepsLiveView(w, b);
      assert a + [MergedEntries(w, purge)] + b == [Live(Merged(w))] + b && a + w + b == w + b;
    } else {
      WindowMergeKeepsMerged(a, w, b);
    }
  }

  lemma WindowMergeKeepsView(ms: seq<Entries>, start: nat, count: nat)
    requires start + count <= |ms|
    ensures LiveView(ms[..start] + [MergedEntries(ms[start..start + count], start == 0)] + ms[start + count..]) ==
            LiveView(ms)
  {
    hide LiveView, MergedEntries;
    assert ms == ms[..start] + ms[start..start + count] + ms[start + count..];
    MergeWindowKeepsView(ms[..start], ms[start..start + count], ms[start + count..], start == 0);
  }

  // ---- point lookup over a list of segments ----

  /** What a single segment's get returns: empty for an absent or removed key. */
  function ValueIn(m: Entries, k: Bytes): Bytes {
    if k in m then m[k] else []
  }

  /** MultiSegment::get looks from the newest segment back and passes over empty values. */
  ghost function NewestNonEmpty(ms: seq<Entries>, k: Bytes): Bytes {
    if ms == [] then []
    else
      var v := ValueIn(ms[|ms| - 1], k);
      if v != [] then v else NewestNonEmpty(ms[..|ms| - 1], k)
  }

  /** A removal of k is the newest entry, and an older segment still holds a value. */
  ghost predicate RemovalHidesValue(ms: seq<Entries>, k: Bytes) {
    k in Merged(ms) && Merged(ms)[k] == [] && exists i :: 0 <= i < |ms| && k in ms[i] && ms[i][k] != []
  }

  lemma {:induction false} NewestNonEmptyIsSomewhere(ms: seq<Entries>, k: Bytes)
    ensures NewestNonEmpty(ms, k) == [] <==> forall i :: 0 <= i < |ms| ==> k in ms[i] ==> ms[i][k] == []
    decreases |ms|
  {
    if ms != [] {
      var n := |ms| - 1;
      NewestNonEmptyIsSomewhere(ms[..n], k);
      assert forall i :: 0 <= i < n ==> ms[..n][i] == ms[i];
    }
  }

  /** Of several values get finds the one in the newest segment, whatever removals are newer. */
  lemma {:induction false} NewestNonEmptyIs(ms: seq<Entries>, k: Bytes, i: nat)
    requires i < |ms| && k in ms[i] && ms[i][k] != [] && forall j :: i < j < |ms| && k in ms[j] ==> ms[j][k] == []
    ensures NewestNonEmpty(ms, k) == ms[i][k]
    decreases |ms|
  {
    if i < |ms| - 1 {
      NewestNonEmptyIs(ms[..|ms| - 1], k, i);
    }
  }

  lemma {:induction false} NewestNonEmptyIsMerged(ms: seq<Entries>, k: Bytes)
    requires k in Merged(ms) && Merged(ms)[k] != []
    ensures NewestNonEmpty(ms, k) == Merged(ms)[k]
    decreases |ms|
  {
    var n := |ms| - 1;
    if k !in ms[n] {
      NewestNonEmptyIsMerged(ms[..n], k);
    }
  }

  /** get answers as the merged iterator does for exactly those keys whose removal hides no older value. */
  lemma GetIsLiveExactlyWhen(ms: seq<Entries>, k: Bytes)
    ensures NewestNonEmpty(ms, k) == ValueIn(LiveView(ms), k) <==> !RemovalHidesValue(ms, k)
  {
    NewestNonEmptyIsSomewhere(ms, k);
    if k in Merged(ms) {
      if Merged(ms)[k] != [] {
        NewestNonEmptyIsMerged(ms, k);
      }
    } else {
      forall i | 0 <= i < |ms|
        ensures k !in ms[i]
      {
        NotMergedNotIn(ms, k, i);
      }
    }
  }

  /** A key that was removed after its value had moved on to an older segment is still found by get. */
  lemma GetFindsRemovedValue(k: Bytes, v: Bytes)
    requires v != []
    ensures var ms := [map[k := v], map[k := []]];
            NewestNonEmpty(ms, k) == v && k !in LiveView(ms)
  {
    var ms: seq<Entries> := [map[k := v], map[k := []]];
    assert ms[..1] == [map[k := v]];
    SingleMerged(ms[0]);
    assert NewestNonEmpty(ms[..1], k) == v;
  }

  lemma {:induction false} NotMergedNotIn(ms: seq<Entries>, k: Bytes, i: nat)
    requires k !in Merged(ms) && i < |ms|
    ensures k !in ms[i]
    decreases |ms|
  {
    if i < |ms| - 1 {
      NotMergedNotIn(ms[..|ms| - 1], k, i);
    }
  }

  lemma NothingFoundNothingLive(ms: seq<Entries>, key: Bytes)
    requires NewestNonEmpty(ms, key) == []
    ensures LiveView(ms) - {key} == LiveView(ms)
  {
    if key in LiveView(ms) {
      NewestNonEmptyIsMerged(ms, key);
    }
  }

  lemma {:induction false} NewestConcat(a: seq<Entries>, b: seq<Entries>, k: Bytes)
    ensures NewestNonEmpty(a + b, k) == if NewestNonEmpty(b, k) != [] then NewestNonEmpty(b, k)
            else NewestNonEmpty(a, k)
    decreases |b|
  {
    if b == [] {
      assert a + b == a;
    } else {
      assert (a + b)[..|a + b| - 1] == a + b[..|b| - 1];
      NewestConcat(a, b[..|b| - 1], k);
    }
  }

  lemma NewestOfOne(m: Entries, k: Bytes)
    ensures NewestNonEmpty([m], k) == ValueIn(m, k)
  {
    var one := [m];
    assert one[..0] == [];
  }

  /**
   A merge changes what get finds for exactly those keys whose hidden value it drops, unless that value is found
   elsewhere.
   */
  lemma MergeKeepsGetExactlyWhen(a: seq<Entries>, w: seq<Entries>, b: seq<Entries>, purge: bool, k: Bytes)
    ensures NewestNonEmpty(a + [MergedEntries(w, purge)] + b, k) == NewestNonEmpty(a + w + b, k) <==>
            NewestNonEmpty(b, k) != [] || !RemovalHidesValue(w, k) || NewestNonEmpty(w, k) == NewestNonEmpty(a, k)
  {
    var m := MergedEntries(w, purge);
    NewestConcat(a + [m], b, k);
    NewestConcat(a, [m], k);
    NewestOfOne(m, k);
    NewestConcat(a + w, b, k);
    NewestConcat(a, w, k);
    assert ValueIn(m, k) == ValueIn(Merged(w), k);
    NewestNonEmptyIsSomewhere(w, k);
    if ValueIn(Merged(w), k) != [] {
      NewestNonEmptyIsMerged(w, k);
    } else if k !in Merged(w) {
      forall i | 0 <= i < |w|
        ensures k !in w[i]
      {
        NotMergedNotIn(w, k, i);
      }
    }
  }

  // ---- ranges ----

  lemma {:induction false} MergedRange(ms: seq<Entries>, rs: seq<Entries>, lower: Bytes, upper: Bytes)
    requires |rs| == |ms| && forall i :: 0 <= i < |ms| ==> rs[i] == Range(ms[i], lower, upper)
    ensures Merged(rs) == Range(Merged(ms), lower, upper)
    decreases |ms|
  {
    hide InRange;
    if ms != [] {
      MergedRange(ms[..|ms| - 1], rs[..|ms| - 1], lower, upper);
    }
  }
}
