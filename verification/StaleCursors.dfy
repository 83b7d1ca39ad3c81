/** A run in which an iterator passes over a key, because the node it stands on has been replaced. */
module StaleCursors {
  import opened Bytes
  import opened SkipLinks
  import opened SkipReaders
  import opened SkipCursors

  ghost function Levels(level: set<Node>): (at: seq<set<Node>>)
    ensures |at| == MAX_HEIGHT && at[0] == level && forall l :: 1 <= l < MAX_HEIGHT ==> at[l] == {}
  {
    seq(MAX_HEIGHT, l => if l == 0 then level else {})
  }

  lemma OtherLevel(level: set<Node>, other: set<Node>)
    ensures Levels(level)[0 := other] == Levels(other)
  {
  }

  /** The slots of the head when only level 0 has nodes. */
  ghost function Tower(v: Node): (slots: seq<Slot>)
    ensures |slots| == MAX_HEIGHT && slots[0] == To(v) && forall l :: 1 <= l < MAX_HEIGHT ==> slots[l] == To(null)
  {
    seq(MAX_HEIGHT, l => if l == 0 then To(v) else To(null))
  }

  lemma OtherTower(v: Node, w: Node)
    ensures Tower(v)[0 := To(w)] == Tower(w)
  {
  }

  /** Nodes of height 1 in three places, two of them for the first key. */
  ghost predicate Places(head: Node, a: Node, a2: Node, b: Node, c: Node) {
    && head.height == MAX_HEIGHT && a.height == a2.height == b.height == c.height == 1
    && |{head, a, a2, b, c}| == 5 && head !in {a, a2, b, c} && a !in {a2, b, c} && a2 !in {b, c} && b != c
    && a2.kv.key == a.kv.key && Less(a.kv.key, b.kv.key) && Less(b.kv.key, c.kv.key)
  }

  /** The stores: a2 is allocated and takes over from a; b is allocated and goes in behind it. */
  ghost function Stores(head: Node, a: Node, a2: Node, b: Node, c: Node): Trace
    requires Places(head, a, a2, b, c)
  {
    var blank := [Unset];
    var n0 := map[head := Tower(a), a := [To(c)], c := [To(null)]];
    var n1 := n0[a2 := blank];
    var n2 := n1[a2 := [To(c)]];
    var n3 := n2[head := Tower(a2)];
    var n4 := n3[b := blank];
    var n5 := n4[b := [To(c)]];
    var n6 := n5[a2 := [To(b)]];
    [ Links(head, n0, 1, Levels({a, c})), Links(head, n1, 1, Levels({a, c})), Links(head, n2, 1, Levels({a, c})),
      Links(head, n3, 1, Levels({a2, c})), Links(head, n4, 1, Levels({a2, c})), Links(head, n5, 1, Levels({a2, c})),
      Links(head, n6, 1, Levels({a2, b, c})) ]
  }

  lemma FirstState(head: Node, a: Node, a2: Node, b: Node, c: Node)
    requires Places(head, a, a2, b, c)
    ensures Quiescent(Stores(head, a, a2, b, c)[0])
  {
    LessIsStrictTotalOrder();
    hide Less;
    var s := Stores(head, a, a2, b, c)[0];
    assert forall l :: 0 <= l < MAX_HEIGHT ==> Distinct(s.at[l]);
    forall n, l: nat | n in s.next && l < MAX_HEIGHT && Up(s, l, n)
      ensures SlotOk(s, l, n)
    {
      assert n == head || l == 0;
    }
  }

  lemma BlankOne()
    ensures Blank(1) == [Unset]
  {
  }

  lemma Allocated(s: Links, x: Node)
    requires Inv(s) && x !in s.next && x.height == 1
    ensures var t := s.(next := s.next[x := [Unset]]); Inv(t) && Step(s, t)
  {
    hide Inv, Step;
    BlankOne();
    AllocateKeeps(s, x);
  }

  lemma Prepared(s: Links, x: Node, v: Node)
    requires Inv(s) && x in s.next && s.next[x] == [Unset]
    ensures var t := s.(next := s.next[x := [To(v)]]); Inv(t) && Step(s, t)
  {
    hide Inv, Step;
    PrepareKeeps(s, x, 0, v);
    assert s.next[x][0 := To(v)] == [To(v)];
  }

  lemma TookOver(head: Node, a: Node, a2: Node, b: Node, c: Node)
    requires Places(head, a, a2, b, c) && Inv(Stores(head, a, a2, b, c)[2])
    ensures var tr := Stores(head, a, a2, b, c); Inv(tr[3]) && Step(tr[2], tr[3])
  {
    hide Inv, Step, Less;
    var tr := Stores(head, a, a2, b, c);
    ReplaceKeeps(tr[2], head, a, a2, 0);
    assert {a, c} - {a} + {a2} == {a2, c};
    OtherLevel({a, c}, {a2, c});
    OtherTower(a, a2);
  }

  lemma WentIn(head: Node, a: Node, a2: Node, b: Node, c: Node)
    requires Places(head, a, a2, b, c) && Inv(Stores(head, a, a2, b, c)[5])
    ensures var tr := Stores(head, a, a2, b, c); Inv(tr[6]) && Step(tr[5], tr[6])
  {
    hide Inv, Step, Less;
    var tr := Stores(head, a, a2, b, c);
    assert tr[5].next[a2] == [To(c)] && [To(c)][0 := To(b)] == [To(b)];
    InsertKeeps(tr[5], a2, b, 0);
    assert {a2, c} + {b} == {a2, b, c};
    OtherLevel({a2, c}, {a2, b, c});
  }

  /**
   An iterator stands on a; put replaces a's pair, and another put adds b behind it. From a, next goes to c and
   never delivers b, although it has been bound since before the call.
   */
  lemma NextSkipsInserted(head: Node, a: Node, a2: Node, b: Node, c: Node)
    requires Places(head, a, a2, b, c)
    ensures var tr := Stores(head, a, a2, b, c);
            && TraceOk(tr) && Quiescent(tr[0]) && CanStand(tr[0], a)
            && Visits(tr, a, [6]) == [On(c)]
            && Bound(tr[6], b.kv) && Less(a.kv.key, b.kv.key) && Less(b.kv.key, c.kv.key)
  {
    hide Less, Inv, Step;
    var tr := Stores(head, a, a2, b, c);
    FirstState(head, a, a2, b, c);
    assert Inv(tr[0]) by { QuiescentIsOk(tr[0]); }
    Allocated(tr[0], a2);
    Prepared(tr[1], a2, c);
    TookOver(head, a, a2, b, c);
    Allocated(tr[3], b);
    Prepared(tr[4], b, c);
    WentIn(head, a, a2, b, c);
    assert TraceOk(tr);
    BIsBound(tr[6], b);
    assert [6][..0] == [];
    assert Visits(tr, a, [6][..0]) == [];
    assert a in tr[0].at[0];
  }

  lemma QuiescentIsOk(s: Links)
    requires Quiescent(s)
    ensures Inv(s)
  {
  }

  lemma BIsBound(s: Links, b: Node)
    requires Inv(s) && b in s.at[0]
    ensures Bound(s, b.kv)
  {
    assert NodeWith(s.at[0], b.kv.key) == b;
  }
}
