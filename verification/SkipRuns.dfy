/** Runs of puts, removes and calls of next on one skip list: what an iterator delivers in terms of maps. */
module SkipRuns {
  import opened Bytes
  import opened KeyValues
  import opened SkipLinks
  import opened SkipReaders
  import opened SkipLevels
  import opened SkipCursors
  import opened SkipLists
  import opened SkipIterators

  datatype ListOp =
    | PutOp(kv: KeyValue, height: nat)
    | RemoveOp(key: Bytes)
    | NextOp

  ghost predicate HeightsOk(ops: seq<ListOp>) {
    forall i :: 0 <= i < |ops| && ops[i].PutOp? ==> 1 <= ops[i].height <= MAX_HEIGHT
  }

  ghost function Applied(m: Entries, op: ListOp): Entries {
    match op
    case PutOp(kv, _) => m[kv.key := kv.value]
    case RemoveOp(key) => m - {key}
    case NextOp => m
  }

  ghost function Folded(m: Entries, ops: seq<ListOp>): Entries {
    if ops == [] then m else Applied(Folded(m, ops[..|ops| - 1]), ops[|ops| - 1])
  }

  lemma NothingFolded(m: Entries, ops: seq<ListOp>)
    ensures Folded(m, ops[..0]) == m
  {
  }

  lemma FoldedMore(m: Entries, ops: seq<ListOp>, i: nat)
    requires i < |ops|
    ensures Folded(m, ops[..i + 1]) == Applied(Folded(m, ops[..i]), ops[i])
  {
    assert ops[..i + 1][..i] == ops[..i];
  }

  // ---- states of the list and prefixes of the run ----

  /** The map is what some prefix of the first n operations leads to. */
  ghost predicate Among(m: Entries, c0: Entries, ops: seq<ListOp>, n: nat)
    requires n <= |ops|
  {
    exists j :: 0 <= j <= n && m == Folded(c0, ops[..j])
  }

  ghost predicate Shows(s: Links, c0: Entries, ops: seq<ListOp>, n: nat)
    requires n <= |ops|
  {
    |s.at| == MAX_HEIGHT && Among(Bindings(s), c0, ops, n)
  }

  /** Every state of the list since b is one of these. */
  ghost predicate Tracks(tr: Trace, b: nat, c0: Entries, ops: seq<ListOp>, n: nat)
    requires n <= |ops|
  {
    b < |tr| && forall m :: b <= m < |tr| ==> Shows(tr[m], c0, ops, n)
  }

  /** A write leaves bindings that are those of before or those of after at every moment. */
  lemma SwitchTracks(tr0: Trace, tr: Trace, w: nat, b: nat, c0: Entries, ops: seq<ListOp>, n: nat)
    requires TraceOk(tr0) && TraceOk(tr) && tr0 != [] && tr != [] && n < |ops| && Tracks(tr0, b, c0, ops, n)
    requires Switch(tr0, tr, w, tr0[|tr0| - 1].at, tr[|tr| - 1].at)
    requires Bindings(tr0[|tr0| - 1]) == Folded(c0, ops[..n]) && Bindings(tr[|tr| - 1]) == Folded(c0, ops[..n + 1])
    ensures Tracks(tr, b, c0, ops, n + 1)
  {
    hide Folded, Step, Inv, TraceOk;
    InvAt(tr0, |tr0| - 1);
    InvAt(tr, |tr| - 1);
    forall m | b <= m < |tr|
      ensures Shows(tr[m], c0, ops, n + 1)
    {
      InvAt(tr, m);
      if m < |tr0| {
        assert tr[m] == tr0[m] && Shows(tr0[m], c0, ops, n);
      } else {
        assert Bindings(tr[m]) == Folded(c0, ops[..if m < w then n else n + 1]);
      }
    }
  }

  lemma TracksMore(tr: Trace, b: nat, c0: Entries, ops: seq<ListOp>, n: nat)
    requires n < |ops| && Tracks(tr, b, c0, ops, n)
    ensures Tracks(tr, b, c0, ops, n + 1)
  {
    hide Folded;
    forall m | b <= m < |tr|
      ensures Shows(tr[m], c0, ops, n + 1)
    {
      assert Shows(tr[m], c0, ops, n);
    }
  }

  // ---- what has been delivered ----

  ghost predicate WasBound(kv: KeyValue, c0: Entries, ops: seq<ListOp>, n: nat)
    requires n <= |ops|
  {
    exists j :: 0 <= j <= n && kv.key in Folded(c0, ops[..j]) && Folded(c0, ops[..j])[kv.key] == kv.value
  }

  /** The key is bound after each of the first n operations, and before them. */
  ghost predicate AlwaysBound(k: Bytes, c0: Entries, ops: seq<ListOp>, n: nat)
    requires n <= |ops|
  {
    forall j :: 0 <= j <= n ==> k in Folded(c0, ops[..j])
  }

  ghost predicate HasKey(out: seq<KeyValue>, k: Bytes) {
    exists i :: 0 <= i < |out| && out[i].key == k
  }

  /** What an iterator that started at target has delivered, and the node it stands on now. */
  ghost predicate Scanned(target: Bytes, c0: Entries, ops: seq<ListOp>, n: nat, out: seq<KeyValue>, node: Node?)
    requires n <= |ops|
  {
    && Ascending(out)
    && (forall i :: 0 <= i < |out| ==> !Less(out[i].key, target) && WasBound(out[i], c0, ops, n))
    && (node != null ==> !Less(node.kv.key, target) && forall i :: 0 <= i < |out| ==> Less(out[i].key, node.kv.key))
    && forall k :: AlwaysBound(k, c0, ops, n) && !Less(k, target) && (node == null || Less(k, node.kv.key)) ==>
       HasKey(out, k)
  }

  lemma ScanStarts(s: Links, target: Bytes, c0: Entries, ops: seq<ListOp>, node: Node?)
    requires Inv(s) && Bindings(s) == c0 && IsFirstAtLeast(s, target, node)
    ensures Scanned(target, c0, ops, 0, [], node)
  {
    hide Less, Inv;
    assert Folded(c0, ops[..0]) == c0;
    FirstAtLeastMeans(s, target, node);
  }

  lemma FirstAtLeastMeans(s: Links, target: Bytes, node: Node?)
    requires Inv(s) && IsFirstAtLeast(s, target, node)
    ensures node != null ==> !Less(node.kv.key, target)
    ensures forall k :: k in Bindings(s) && !Less(k, target) ==> node != null && !Less(k, node.kv.key)
  {
    LessIsStrictTotalOrder();
    hide Less;
  }

  lemma ScanWaits(target: Bytes, c0: Entries, ops: seq<ListOp>, n: nat, out: seq<KeyValue>, node: Node?)
    requires n < |ops| && Scanned(target, c0, ops, n, out, node)
    ensures Scanned(target, c0, ops, n + 1, out, node)
  {
    hide Less, Folded, Ascending, HasKey;
    forall i | 0 <= i < |out|
      ensures WasBound(out[i], c0, ops, n + 1)
    {
      assert WasBound(out[i], c0, ops, n);
    }
    assert forall k :: AlwaysBound(k, c0, ops, n + 1) ==> AlwaysBound(k, c0, ops, n);
  }

  lemma ScanGoesOn(target: Bytes, c0: Entries, ops: seq<ListOp>, n: nat, out: seq<KeyValue>, node: Node, after: Node?,
                   tr: Trace, b: nat, was: nat, m: nat)
    requires n <= |ops| && TraceOk(tr) && Tracks(tr, b, c0, ops, n) && b <= was <= m < |tr|
    requires Scanned(target, c0, ops, n, out, node) && node != tr[m].head
    requires Bound(tr[was], node.kv) && Follows(tr[m], node, ToCursor(after))
    ensures Scanned(target, c0, ops, n, out + [node.kv], after)
  {
    hide Less, Folded, TraceOk, Follows, Bound, Shows;
    LessIsStrictTotalOrder();
    BoundAmong(tr[was], node.kv, c0, ops, n);
    assert Inv(tr[m]) by { InvAt(tr, m); }
    FollowsMeans(tr[m], node, ToCursor(after));
    var next := out + [node.kv];
    forall k | AlwaysBound(k, c0, ops, n) && !Less(k, target) && (after == null || Less(k, after.kv.key))
      ensures HasKey(next, k)
    {
      if Less(node.kv.key, k) {
        AlwaysBoundAt(tr[m], k, c0, ops, n);
        assert false;
      } else if k == node.kv.key {
        assert next[|out|].key == k;
      } else {
        HasKeyMore(out, node.kv, k);
      }
    }
  }

  lemma HasKeyMore(out: seq<KeyValue>, kv: KeyValue, k: Bytes)
    requires HasKey(out, k)
    ensures HasKey(out + [kv], k)
  {
    var i :| 0 <= i < |out| && out[i].key == k;
    assert (out + [kv])[i] == out[i];
  }

  lemma BoundAmong(s: Links, kv: KeyValue, c0: Entries, ops: seq<ListOp>, n: nat)
    requires n <= |ops| && Bound(s, kv) && Shows(s, c0, ops, n)
    ensures WasBound(kv, c0, ops, n)
  {
    hide Folded, Bindings;
    var j :| 0 <= j <= n && Bindings(s) == Folded(c0, ops[..j]);
  }

  lemma AlwaysBoundAt(s: Links, k: Bytes, c0: Entries, ops: seq<ListOp>, n: nat)
    requires n <= |ops| && AlwaysBound(k, c0, ops, n) && Shows(s, c0, ops, n)
    ensures k in Bindings(s)
  {
    hide Folded, Bindings;
    var j :| 0 <= j <= n && Bindings(s) == Folded(c0, ops[..j]);
  }

  lemma ScanEnds(target: Bytes, c0: Entries, ops: seq<ListOp>, out: seq<KeyValue>)
    requires Scanned(target, c0, ops, |ops|, out, null)
    ensures Ascending(out)
    ensures forall i :: 0 <= i < |out| ==> !Less(out[i].key, target) && WasBound(out[i], c0, ops, |ops|)
    ensures forall k :: AlwaysBound(k, c0, ops, |ops|) && !Less(k, target) ==> HasKey(out, k)
  {
    hide Less, Folded;
  }

  // ---- the run ----

  lemma NotHead(tr: Trace, was: nat, m: nat, node: Node)
    requires TraceOk(tr) && was <= m < |tr| && LinkedAt(tr, was, node)
    ensures node != tr[m].head
  {
    hide Less, Step;
    HeadNeverMoves(tr, was, m);
    InvAt(tr, was);
  }

  lemma {:induction false} NextStays(tr: Trace, m: nat, t: nat, n: Node)
    requires TraceOk(tr) && m <= t < |tr| && n in tr[m].next
    ensures n in tr[t].next
    decreases t - m
  {
    if m < t {
      NextStays(tr, m, t - 1, n);
      assert Step(tr[t - 1], tr[t]);
    }
  }

  lemma FollowerIsThere(s: Links, n: Node, v: Node)
    requires Inv(s) && Follows(s, n, On(v))
    ensures v in s.next && Before(s, n, v)
  {
    hide Less;
  }

  lemma NotAfterItself(s: Links, n: Node)
    ensures n !in After(s, n)
  {
    LessIsStrictTotalOrder();
  }

  lemma TracksAtFirst(tr: Trace, c0: Entries, ops: seq<ListOp>)
    requires tr != [] && |tr[|tr| - 1].at| == MAX_HEIGHT && Bindings(tr[|tr| - 1]) == c0
    ensures Tracks(tr, |tr| - 1, c0, ops, 0)
  {
    assert ops[..0] == [];
    assert c0 == Folded(c0, ops[..0]);
  }

  method Write(list: SkipList, op: ListOp, ghost b: nat, ghost c0: Entries, ghost ops: seq<ListOp>, ghost n: nat)
    requires list.Valid() && n < |ops| && op == ops[n] && (op.PutOp? ==> 1 <= op.height <= MAX_HEIGHT)
    requires list.Contents() == Folded(c0, ops[..n]) && Tracks(list.trace, b, c0, ops, n)
    modifies list, list.nodes
    ensures list.Valid() && old(list.nodes) <= list.nodes && fresh(list.nodes - old(list.nodes)) &&
            old(list.trace) <= list.trace
    ensures list.Contents() == Folded(c0, ops[..n + 1]) && Tracks(list.trace, b, c0, ops, n + 1)
  {
    hide Folded, Tracks, Bindings, TraceOk, Quiescent, Inv, NestedSince, Step;
    ValidList(list);
    FoldedMore(c0, ops, n);
    ghost var was := list.trace;
    match op
    case PutOp(kv, height) =>
      ghost var w;
      var previous;
      previous, w := list.Put(kv, height);
      ValidList(list);
      SwitchTracks(was, list.trace, w, b, c0, ops, n);
    case RemoveOp(key) =>
      ghost var w;
      var previous;
      previous, w := list.Remove(key);
      ValidList(list);
      SwitchTracks(was, list.trace, w, b, c0, ops, n);
    case NextOp =>
      TracksMore(list.trace, b, c0, ops, n);
  }

  /** The iterator has delivered out and still has its node to deliver. */
  ghost predicate Scanning(itr: ListIterator, b: nat, target: Bytes, c0: Entries, ops: seq<ListOp>, n: nat,
                           out: seq<KeyValue>)
    requires n <= |ops|
    reads itr, itr.list, itr.list.nodes
  {
    && itr.Valid() && b <= itr.since
    && Tracks(itr.list.trace, b, c0, ops, n) && Scanned(target, c0, ops, n, out, itr.node)
  }

  /** Delivers the pair of the current node, and goes on. */
  method Deliver(itr: ListIterator, ghost b: nat, ghost target: Bytes, ghost c0: Entries, ghost ops: seq<ListOp>,
                 ghost n: nat, out: seq<KeyValue>)
    returns (out': seq<KeyValue>)
    requires n <= |ops| && Scanning(itr, b, target, c0, ops, n, out) && itr.node != null
    modifies itr
    ensures Scanning(itr, b, target, c0, ops, n, out')
    ensures itr.node != null ==> StillAhead(itr.list, itr.node) < StillAhead(itr.list, old(itr.node))
  {
    hide Scanned, Tracks, TraceOk, Bound, Follows, Inv, Bindings, Hop, StillAhead;
    var node := itr.node;
    ghost var was := itr.since;
    CurrentWasBound(itr);
    out' := out + [node.kv];
    var _ := itr.Next();
    ghost var tr := itr.list.trace;
    StableTrace(itr.list);
    NotHead(tr, was, itr.since, node);
    ScanGoesOn(target, c0, ops, n, out, node, itr.node, tr, b, was, itr.since);
    if itr.node != null {
      AheadShrinks(itr.list, itr.since, node, itr.node);
    }
  }

  ghost function StillAhead(list: SkipList, node: Node): set<Node>
    reads list, list.nodes
  {
    After(list.State(), node) + {node}
  }

  lemma AheadShrinks(list: SkipList, m: nat, node: Node, after: Node)
    requires list.Stable() && m < |list.trace| && Follows(list.trace[m], node, On(after))
    ensures StillAhead(list, after) < StillAhead(list, node)
  {
    hide Less, Inv, Step;
    var s := list.State();
    InvAt(list.trace, m);
    FollowerIsThere(list.trace[m], node, after);
    NextStays(list.trace, m, |list.trace| - 1, after);
    HeadNeverMoves(list.trace, m, |list.trace| - 1);
    NotAfterItself(s, node);
    AfterShrinks(s, node, after);
  }

  /** Replays a run of writes and of calls of next, after a seek; then reads to the end. */
  method ScanAmong(list: SkipList, target: Bytes, ops: seq<ListOp>) returns (out: seq<KeyValue>)
    requires list.Valid() && HeightsOk(ops)
    modifies list, list.nodes
    ensures list.Valid() && list.Contents() == Folded(old(list.Contents()), ops)
    ensures Ascending(out)
    ensures forall i :: 0 <= i < |out| ==>
            !Less(out[i].key, target) && WasBound(out[i], old(list.Contents()), ops, |ops|)
    ensures forall k :: AlwaysBound(k, old(list.Contents()), ops, |ops|) && !Less(k, target) ==> HasKey(out, k)
  {
    hide Folded, Tracks, Scanned, Bindings, TraceOk, Quiescent, Inv, NestedSince, Step, Less, IsFirstAtLeast, Ascending;
    hide LinkedAt;
    ghost var c0 := list.Contents();
    ValidList(list);
    var itr := new ListIterator(list);
    var _ := itr.Seek(target);
    ghost var b := |list.trace| - 1;
    ScanStarts(list.State(), target, c0, ops, itr.node);
    TracksAtFirst(list.trace, c0, ops);
    NothingFolded(c0, ops);
    out := [];
    for i := 0 to |ops|
      invariant list.Valid() && fresh(list.nodes - old(list.nodes)) && list.Contents() == Folded(c0, ops[..i])
      invariant Scanning(itr, b, target, c0, ops, i, out)
    {
      ghost var was := list.trace;
      Write(list, ops[i], b, c0, ops, i);
      ValidList(list);
      LinkedLater(was, list.trace, itr.since, itr.node);
      ScanWaits(target, c0, ops, i, out, itr.node);
      if ops[i].NextOp? && itr.node != null {
        out := Deliver(itr, b, target, c0, ops, i + 1, out);
      }
    }
    assert ops[..|ops|] == ops;
    while itr.node != null
      invariant Scanning(itr, b, target, c0, ops, |ops|, out)
      decreases if itr.node == null then {} else StillAhead(list, itr.node)
      modifies itr
    {
      out := Deliver(itr, b, target, c0, ops, |ops|, out);
    }
    ScanEnds(target, c0, ops, out);
  }
}
