/**
 Iteration over a skip list: the list's own iterator, which may be used while the list is written to, and the
 range iterator of memory segments.
 */
module SkipIterators {
  import opened Bytes
  import opened KeyValues
  import opened SkipLinks
  import opened SkipReaders
  import opened SkipCursors
  import opened SkipLists

  /** The node, if any, was linked on level 0 at the moment b. */
  ghost predicate LinkedAt(tr: Trace, b: nat, n: Node?) {
    b < |tr| && (n != null ==> |tr[b].at| == MAX_HEIGHT && n in tr[b].at[0])
  }

  lemma LinkedLater(tr0: Trace, tr: Trace, b: nat, n: Node?)
    requires LinkedAt(tr0, b, n) && tr0 <= tr
    ensures LinkedAt(tr, b, n)
  {
  }

  /** SkipList::Iterator. Its node may have been replaced or removed since it got there. */
  class ListIterator {
    const list: SkipList
    var node: Node?
    /** A moment at which the current node was linked and followed the one before. */
    ghost var since: nat

    ghost predicate Valid()
      reads this, list, list.nodes
    {
      list.Stable() && LinkedAt(list.trace, since, node)
    }

    /** What is left: the bindings from the current node on. */
    ghost function Rest(): Entries
      requires Valid()
      reads this, list, list.nodes
    {
      if node == null then map[] else From(Bindings(list.State()), node.kv.key)
    }

    ghost predicate Linked()
      reads this, list
    {
      node != null ==> list.at != [] && node in list.at[0]
    }

    constructor (list: SkipList)
      requires list.Stable()
      ensures Valid() && this.list == list && node == null
    {
      StableTrace(list);
      this.list, node, since := list, null, |list.trace| - 1;
    }

    method SeekToFirst() returns (valid: bool)
      requires list.Stable()
      modifies this
      ensures Valid() && Linked() && valid == (node != null) && since == |list.trace| - 1
      ensures Rest() == Bindings(list.State())
    {
      hide TraceOk;
      StableTrace(list);
      FirstOfAll(list.State());
      node := list.head.Next(0);
      since := |list.trace| - 1;
      valid := node != null;
    }

    method Seek(target: Bytes) returns (valid: bool)
      requires list.Stable()
      modifies this
      ensures Valid() && Linked() && valid == (node != null) && since == |list.trace| - 1
      ensures Rest() == From(Bindings(list.State()), target) && IsFirstAtLeast(list.State(), target, node)
    {
      hide TraceOk;
      StableTrace(list);
      node := list.FindGreaterOrEqual(target, null);
      FirstFrom(list.State(), target, node);
      since := |list.trace| - 1;
      valid := node != null;
    }

    /**
     Wherever the node is by now: next goes to what followed it at some moment since it was linked. If it still
     is, exactly the current binding is passed.
     */
    method Next() returns (valid: bool)
      requires Valid() && node != null
      modifies this
      ensures Valid() && valid == (node != null)
      ensures old(since) <= since && Follows(list.trace[since], old(node), ToCursor(node))
      ensures ToCursor(node) == Hop(list.State(), On(old(node)))
      ensures old(Linked()) ==> Linked() && Rest() == old(Rest()) - {old(node).kv.key}
    {
      hide TraceOk, Less, From, Bindings, Follows;
      StableTrace(list);
      if Linked() {
        NextFrom(list.State(), node);
      }
      StoodOn(list.trace, since, node);
      since := NextLinearizes(list.trace, since, |list.trace| - 1, node);
      FollowsNotLost(list.trace[since], node, Hop(list.State(), On(node)));
      HopIsOn(list.State(), node);
      GotTo(list.trace[since], node, list.State().next[node][0].node);
      node := node.Next(0);
      valid := node != null;
    }
  }

  lemma StableTrace(list: SkipList)
    requires list.Stable()
    ensures TraceOk(list.trace) && list.trace != [] && list.trace[|list.trace| - 1] == list.State() &&
            Inv(list.State()) && |list.at| == MAX_HEIGHT
  {
  }

  lemma ValidList(list: SkipList)
    requires list.Valid()
    ensures list.Stable() && |list.at| == MAX_HEIGHT && list.Contents() == Bindings(list.State())
    ensures TraceOk(list.trace) && list.trace != [] && list.trace[|list.trace| - 1] == list.State() && Inv(list.State())
  {
  }

  lemma StoodOn(tr: Trace, b: nat, n: Node)
    requires TraceOk(tr) && LinkedAt(tr, b, n)
    ensures CanStand(tr[b], n)
  {
  }

  lemma HopIsOn(s: Links, n: Node)
    requires Hop(s, On(n)) != Lost
    ensures SlotSet(s, n, 0) && Hop(s, On(n)) == ToCursor(s.next[n][0].node)
  {
  }

  lemma GotTo(s: Links, n: Node, v: Node?)
    requires Follows(s, n, ToCursor(v))
    ensures |s.at| == MAX_HEIGHT && (v != null ==> v in s.at[0])
  {
  }

  ghost function From(m: Entries, k: Bytes): Entries {
    map j | j in m && !Less(j, k) :: m[j]
  }

  lemma FirstOfAll(s: Links)
    requires Inv(s)
    ensures SlotOk(s, 0, s.head)
    ensures var v := s.next[s.head][0].node;
            v != null ==> v in s.at[0] && From(Bindings(s), v.kv.key) == Bindings(s)
    ensures s.next[s.head][0].node == null ==> Bindings(s) == map[]
  {
    LessIsStrictTotalOrder();
    hide Less;
    assert Up(s, 0, s.head);
  }

  lemma FirstFrom(s: Links, k: Bytes, v: Node?)
    requires Inv(s) && IsFirstAtLeast(s, k, v)
    ensures v != null ==> v in s.at[0] && From(Bindings(s), v.kv.key) == From(Bindings(s), k)
    ensures v == null ==> From(Bindings(s), k) == map[]
  {
    LessIsStrictTotalOrder();
    hide Less;
  }

  lemma NextFrom(s: Links, n: Node)
    requires Inv(s) && n in s.at[0]
    ensures SlotOk(s, 0, n) && IsLeast(From(Bindings(s), n.kv.key), n.kv.key)
    ensures From(Bindings(s), n.kv.key)[n.kv.key] == n.kv.value
    ensures var v := s.next[n][0].node;
            From(Bindings(s), n.kv.key) - {n.kv.key} == if v == null then map[] else From(Bindings(s), v.kv.key)
    ensures s.next[n][0].node != null ==> s.next[n][0].node in s.at[0]
  {
    LessIsStrictTotalOrder();
    hide Less;
    assert Up(s, 0, n);
    assert NodeWith(s.at[0], n.kv.key) == n;
  }

  /** The iterator of a memory segment: a one-entry peek buffer and an inclusive upper bound. */
  class SkipListIterator {
    const itr: ListIterator
    const upper: Bytes
    var peek: KeyValue
    /** The nodes of the list when the iterator was made. */
    ghost const nodes: set<Node>

    /** Holds beside a writer, too: a pair that has been peeked at stays that of the current node. */
    ghost predicate Live()
      reads this, itr, itr.list, itr.list.nodes
    {
      itr.Valid() && (peek.key != [] ==> itr.node != null && peek == itr.node.kv)
    }

    /** In addition, no node has been added to the list, and the current one is linked. */
    ghost predicate Valid()
      reads this, itr, itr.list, nodes
    {
      itr.list.nodes == nodes && Live() && itr.Linked()
    }

    /** What is still to be delivered. */
    ghost function Rem(): Entries
      requires Valid()
      reads this, itr, itr.list, nodes
    {
      Range(itr.Rest(), [], upper)
    }

    ghost predicate AtEnd()
      reads this, itr
    {
      itr.node == null || (upper != [] && CompareTo(itr.node.kv.key, upper) > 0)
    }

    /** MemorySegment::lookup */
    constructor (list: SkipList, lower: Bytes, upper: Bytes)
      requires list.Stable()
      ensures Valid() && fresh(itr) && itr.list == list && this.upper == upper && nodes == list.nodes
      ensures Rem() == Range(Bindings(list.State()), lower, upper) && itr.since == |list.trace| - 1
    {
      hide Less, Inv, TraceOk, Bindings, Follows, IsFirstAtLeast;
      StableTrace(list);
      var i := new ListIterator(list);
      if lower != [] {
        var _ := i.Seek(lower);
      } else {
        var _ := i.SeekToFirst();
      }
      itr := i;
      this.upper := upper;
      nodes := list.nodes;
      peek := EMPTY;
      new;
      assert Rem() == Range(Bindings(list.State()), lower, upper);
    }

    method PeekKey() returns (key: Bytes)
      requires Live()
      modifies `peek
      ensures Live() && key == if AtEnd() then [] else itr.node.kv.key
      ensures old(Valid()) ==> Valid() && Rem() == old(Rem()) && key == First(Rem()).key
    {
      hide Less, CompareTo, TraceOk, Inv, Bindings;
      if Valid() {
        CurrentIsFirst(itr, upper);
      }
      if itr.node == null {
        return [];
      }
      if peek.key == [] {
        peek := itr.node.kv;
      }
      if upper != [] && CompareTo(peek.key, upper) > 0 {
        return [];
      }
      return peek.key;
    }

    /** Delivers the pair of the node it has stood on, and goes on from there as ListIterator.Next does. */
    method Next() returns (kv: KeyValue)
      requires Live()
      modifies `peek, itr
      ensures Live() && kv == if old(AtEnd()) then EMPTY else old(itr.node).kv
      ensures old(AtEnd()) ==> itr.node == old(itr.node) && itr.since == old(itr.since)
      ensures !old(AtEnd()) ==>
                && old(itr.since) <= itr.since && Bound(itr.list.trace[old(itr.since)], kv)
                && Follows(itr.list.trace[itr.since], old(itr.node), ToCursor(itr.node))
      ensures old(Valid()) ==> Valid() && kv == old(First(Rem())) && Rem() == old(Rem()) - {kv.key}
    {
      hide Less, CompareTo, TraceOk, Inv, Bindings, IsLeast, Follows, Bound, Hop;
      if Valid() {
        CurrentIsFirst(itr, upper);
      }
      if itr.node == null {
        return EMPTY;
      }
      CurrentWasBound(itr);
      kv := if peek.key == [] then itr.node.kv else peek;
      peek := EMPTY;
      if upper != [] && CompareTo(kv.key, upper) > 0 {
        return EMPTY;
      }
      var _ := itr.Next();
    }
  }

  lemma CurrentWasBound(itr: ListIterator)
    requires itr.Valid() && itr.node != null
    ensures Bound(itr.list.trace[itr.since], itr.node.kv)
  {
    hide TraceOk, Inv, Bound;
    StableTrace(itr.list);
    InvAt(itr.list.trace, itr.since);
    LinkedIsBound(itr.list.trace[itr.since], itr.node);
  }

  lemma LinkedIsBound(s: Links, n: Node)
    requires Inv(s) && n in s.at[0]
    ensures Bound(s, n.kv)
  {
    assert NodeWith(s.at[0], n.kv.key) == n;
  }

  lemma CurrentIsFirst(itr: ListIterator, upper: Bytes)
    requires itr.Valid() && itr.Linked()
    ensures itr.node != null ==>
              First(Range(itr.Rest(), [], upper)) ==
              if upper != [] && CompareTo(itr.node.kv.key, upper) > 0 then EMPTY else itr.node.kv
    ensures itr.node != null && upper != [] && CompareTo(itr.node.kv.key, upper) > 0 ==>
            Range(itr.Rest(), [], upper) == map[]
    ensures itr.node == null ==> Range(itr.Rest(), [], upper) == map[]
  {
    if itr.node != null {
      NextFrom(itr.list.State(), itr.node);
      LessIsStrictTotalOrder();
      var k := itr.node.kv.key;
      CompareToSigns(k, upper);
      var m := Range(itr.Rest(), [], upper);
      assert CompareTo(k, upper) > 0 <==> Less(upper, k);
      hide Less, CompareTo;
      if upper == [] || !Less(upper, k) {
        assert IsLeast(m, k);
        FirstIs(m, k);
      } else {
        assert m == map[];
      }
    }
  }
}
