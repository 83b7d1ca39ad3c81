/**
 The skip list object. One writer at a time; every pointer store is recorded in `trace`, so that the
 theorems about readers in SkipReaders speak about the stores these methods really make.
 */
module SkipLists {
  import opened Bytes
  import opened KeyValues
  import opened SkipLinks
  import opened SkipReaders
  import opened SkipLevels

  class SkipList {
    const head: Node
    var maxHeight: nat
    ghost var nodes: set<Node>
    ghost var at: seq<set<Node>>
    ghost var trace: Trace

    /** The links as they are in the heap now. */
    ghost function State(): Links
      reads this, nodes
    {
      Links(head, map n | n in nodes :: n.next, maxHeight, at)
    }

    /** Holds after every store. */
    ghost predicate Stable()
      reads this, nodes
    {
      TraceOk(trace) && trace[|trace| - 1] == State() && Inv(State())
    }

    /** Holds between writes. */
    ghost predicate Valid()
      reads this, nodes
    {
      Stable() && Quiescent(State())
    }

    ghost function Contents(): map<Bytes, Bytes>
      requires Valid()
      reads this, nodes
    {
      Bindings(State())
    }

    constructor ()
      ensures Valid() && fresh(nodes)
      ensures Contents() == map[]
    {
      var h := new Node(EMPTY, MAX_HEIGHT);
      head := h;
      maxHeight := 1;
      nodes := {h};
      at := seq(MAX_HEIGHT, _ => {});
      new;
      for i := 0 to MAX_HEIGHT
        invariant fresh(head) && nodes == {head} && head.height == MAX_HEIGHT == |head.next|
        invariant maxHeight == 1 && at == seq(MAX_HEIGHT, _ => {})
        invariant forall l :: 0 <= l < i ==> head.next[l] == To(null)
      {
        head.SetNext(i, null);
      }
      trace := [State()];
      assert Distinct(at[0]);
      forall l: nat, n | n in State().next && l < MAX_HEIGHT && Up(State(), l, n)
        ensures SlotOk(State(), l, n)
      {
        assert IsSucc(State(), State().at[l], n, State().next[n][l].node);
      }
    }

    /** One pointer store, n->setNext(l, v); `level` is what level l holds afterwards. */
    method Store(n: Node, l: nat, v: Node?, ghost level: set<Node>)
      requires Stable() && n in nodes && l < |n.next| && l < MAX_HEIGHT && |at| == MAX_HEIGHT
      requires var t := Stored(State(), n, l, v, at[l := level]); Inv(t) && Step(State(), t)
      modifies n, `at, `trace
      ensures Stable()
      ensures State() == Stored(old(State()), n, l, v, old(at)[l := level])
      ensures trace == old(trace) + [State()]
    {
      ghost var t := Stored(State(), n, l, v, at[l := level]);
      ExtendTrace(trace, t);
      n.SetNext(l, v);
      at := at[l := level];
      assert State() == t;
      trace := trace + [t];
    }

    /** prev may be null; between writes it receives, level by level, the node whose link leads past key. */
    method FindGreaterOrEqual(key: Bytes, prev: array?<Node?>) returns (result: Node?)
      requires Inv(State())
      requires prev != null ==> prev.Length == MAX_HEIGHT
      modifies if prev == null then {} else {prev}
      ensures IsFirstAtLeast(State(), key, result)
      ensures result != null ==> result in nodes
      ensures exists n :: Turns(State(), key, n) == Done(result)
      ensures prev != null && Quiescent(State()) ==>
                forall l :: 0 <= l < maxHeight ==> prev[l] in nodes && IsPred(State(), l, key, prev[l])
    {
      hide Inv, Shape, Up, SlotOk, Less, IsPred, IsFirstAtLeast, Turns, After, Quiescent;
      ghost var s := State();
      var x := head;
      var level := maxHeight - 1;
      ghost var turns := 0;
      SearchStarts(s, key);
      while true
        invariant State() == s
        invariant 0 <= level < maxHeight
        invariant x in nodes && Up(s, level, x)
        invariant x == head || Less(x.kv.key, key)
        invariant Turns(s, key, turns) == Searching(x, level)
        invariant prev != null && Quiescent(s) ==>
                  forall l :: level < l < maxHeight ==> prev[l] in nodes && IsPred(s, l, key, prev[l])
        decreases level, After(s, x)
      {
        OneTurn(s, key, turns, level, x);
        var next := x.Next(level);
        turns := turns + 1;
        if next != null && Less(next.kv.key, key) {
          x := next;
        } else {
          ghost var before := if prev == null then [] else prev[..];
          if prev != null {
            if Quiescent(s) {
              FoundPred(s, level, key, x);
            }
            prev[level] := x;
          }
          if level == 0 {
            SuccIsFirst(s, key, x);
            return next;
          }
          level := level - 1;
        }
      }
    }

    /** newNode(kv, height), with every slot still unwritten. */
    method NewNode(kv: KeyValue, height: Height) returns (x: Node)
      requires Stable()
      modifies this
      ensures Stable() && fresh(x) && x.kv == kv && x.height == height && nodes == old(nodes) + {x}
      ensures State() == old(State()).(next := old(State()).next[x := Blank(height)])
      ensures trace == old(trace) + [State()] && maxHeight == old(maxHeight)
    {
      x := new Node(kv, height);
      ghost var s := State();
      assert x !in s.next;
      ghost var t := s.(next := s.next[x := Blank(height)]);
      AllocateKeeps(s, x);
      ExtendTrace(trace, t);
      nodes := nodes + {x};
      assert State().next == t.next;
      trace := trace + [t];
    }

    /** One level of the insertion loop: x->setNext(i, p->next(i)); p->setNext(i, x). */
    method LinkLevel(ghost s0: Links, p: Node, x: Node, i: nat)
      requires Stable() && InsertReady(s0, State(), x, i) && i < x.height
      requires CanLink(s0, i, x, p)
      modifies x, p, `at, `trace
      ensures Stable() && nodes == old(nodes) && InsertReady(s0, State(), x, i + 1)
      ensures |trace| == old(|trace|) + 2 && old(trace) < trace
      ensures trace[|trace| - 2].at == old(at) && NestedSince(|old(trace)|, trace)
    {
      hide KeysNested;
      ghost var s := State();
      InsertKeysNested(s0, s, x, i);
      InsertLevel(s0, s, x, i, p);
      assert at[i := at[i]] == at;
      Store(x, i, p.Next(i), at[i]);
      assert at == s.at;
      Store(p, i, x, at[i] + {x});
      InsertKeysNested(s0, State(), x, i + 1);
    }

    /** maxHeight = height: the new top levels hold nothing yet. */
    method RaiseMaxHeight(height: nat)
      requires Stable() && maxHeight <= height <= MAX_HEIGHT
      modifies `maxHeight, `trace
      ensures Stable() && State() == old(State()).(maxHeight := height)
      ensures trace == old(trace) + [State()]
    {
      ghost var t := State().(maxHeight := height);
      RaiseKeeps(State(), height);
      ExtendTrace(trace, t);
      maxHeight := height;
      assert State() == t;
      trace := trace + [t];
    }

    /** The levels that appear with a tall node: their predecessor is the head. */
    method GrowTo(height: nat, prev: array<Node?>)
      requires Valid() && 1 <= height <= MAX_HEIGHT == prev.Length
      modifies `maxHeight, `trace, prev
      ensures Stable() && maxHeight == if height > old(maxHeight) then height else old(maxHeight)
      ensures State() == old(State()).(maxHeight := maxHeight) && Steady(old(trace), trace, at)
      ensures forall l :: 0 <= l < old(maxHeight) ==> prev[l] == old(prev[l])
      ensures forall l :: old(maxHeight) <= l < height ==> prev[l] == head
    {
      if height > maxHeight {
        for i := maxHeight to height
          invariant State() == old(State()) && trace == old(trace) && Valid()
          invariant forall l :: 0 <= l < maxHeight ==> prev[l] == old(prev[l])
          invariant forall l :: maxHeight <= l < i ==> prev[l] == head
        {
          prev[i] := head;
        }
        RaiseMaxHeight(height);
      }
    }

    /** The linking loop of put, from level 0 up. */
    method LinkAll(ghost s0: Links, x: Node, prev: array<Node?>) returns (ghost w: nat)
      requires Stable() && s0 == State() && InsertReady(s0, s0, x, 0) && x.height <= MAX_HEIGHT == prev.Length
      requires forall l :: 0 <= l < x.height ==> prev[l] in nodes && CanLink(s0, l, x, prev[l])
      modifies nodes, `at, `trace
      ensures Stable() && nodes == old(nodes) && InsertReady(s0, State(), x, x.height)
      ensures x.height > 0 ==> Switch(old(trace), trace, w, s0.at, at)
      ensures NestedSince(|old(trace)|, trace)
    {
      hide Less, IsPred, NestedSince, KeysNested, Step, TraceOk, Inv, Quiescent;
      w := |trace|;
      NothingSince(trace);
      for i := 0 to x.height
        invariant Stable() && nodes == old(nodes)
        invariant InsertReady(s0, State(), x, i)
        invariant NestedSince(|old(trace)|, trace)
        invariant if i == 0 then Steady(old(trace), trace, s0.at) && w == |trace|
                  else Switch(old(trace), trace, w, s0.at, at)
      {
        ghost var was := trace;
        LinkLevel(s0, prev[i], x, i);
        NestedGrows(|old(trace)|, was, trace);
        if i == 0 {
          w := |trace| - 1;
        }
      }
    }

    /** Allocation of the inserted node; no level links it yet. */
    method StartInsert(kv: KeyValue, height: nat, prev: array<Node?>) returns (x: Node)
      requires Valid() && 1 <= height <= MAX_HEIGHT == prev.Length
      requires forall l :: 0 <= l < maxHeight ==> prev[l] in nodes && IsPred(State(), l, kv.key, prev[l])
      requires kv.key !in Contents()
      modifies this, prev
      ensures Stable() && nodes == old(nodes) + {x} && fresh(x) && x.kv == kv && x.height == height
      ensures Steady(old(trace), trace, old(at)) && at == old(at)
      ensures maxHeight == if height > old(maxHeight) then height else old(maxHeight)
      ensures InsertReady(State(), State(), x, 0)
      ensures forall l :: 0 <= l < height ==> prev[l] in nodes && CanLink(State(), l, x, prev[l])
    {
      hide Less, IsSucc, SlotOk, Step, TraceOk, Distinct, Up;
      ghost var s := State();
      GrowTo(height, prev);
      x := NewNode(kv, height);
      InsertStarts(s, State(), x);
    }

    /** The insert half of put, once findGreaterOrEqual has filled prev and found no equal key. */
    method Insert(kv: KeyValue, height: nat, prev: array<Node?>) returns (ghost w: nat)
      requires Valid() && 1 <= height <= MAX_HEIGHT == prev.Length
      requires forall l :: 0 <= l < maxHeight ==> prev[l] in nodes && IsPred(State(), l, kv.key, prev[l])
      requires kv.key !in Contents()
      modifies this, nodes, prev
      ensures Valid() && old(nodes) <= nodes && fresh(nodes - old(nodes))
      ensures Contents() == old(Contents())[kv.key := kv.value]
      ensures Added(old(at)[0], at[0], kv, height) && maxHeight == if height > old(maxHeight) then height
              else old(maxHeight)
      ensures Switch(old(trace), trace, w, old(at), at)
      ensures NestedSince(|old(trace)|, trace)
    {
      hide Less, IsSucc, SlotOk, Step, TraceOk, Distinct, Up, IsPred, CanLink, KeysNested, NestedSince, Bindings;
      hide InsertReady, Inv;
      ghost var s := State();
      QuiescentNests(s);
      var x := StartInsert(kv, height, prev);
      SteadyNests(old(trace), trace, at);
      ghost var s0 := State();
      SameBindings(s, s0);
      ghost var started := trace;
      w := LinkAll(s0, x, prev);
      InsertEnds(s0, State(), x);
      NestedGrows(|old(trace)|, started, trace);
    }

    /** One level of the replacement loop: r->setNext(i, x->next(i)); p->setNext(i, r). */
    method SwapLevel(ghost s0: Links, p: Node, x: Node, r: Node, i: nat)
      requires Stable() && ReplaceReady(s0, State(), x, r, i) && i < x.height
      requires p in nodes && x in nodes && r in nodes && IsPred(s0, i, x.kv.key, p)
      modifies r, p, `at, `trace
      ensures Stable() && nodes == old(nodes) && ReplaceReady(s0, State(), x, r, i + 1)
      ensures |trace| == old(|trace|) + 2 && old(trace) < trace
      ensures trace[|trace| - 2].at == old(at) && NestedSince(|old(trace)|, trace)
    {
      hide KeysNested;
      ghost var s := State();
      ReplaceKeysNested(s0, s, x, r, i);
      ReplaceLevel(s0, s, x, r, i, p);
      assert at[i := at[i]] == at;
      Store(r, i, x.Next(i), at[i]);
      assert at == s.at;
      Store(p, i, r, at[i] - {x} + {r});
      ReplaceKeysNested(s0, State(), x, r, i + 1);
    }

    /** The replace half of put: a new node takes over x's place, level by level from 0 up. */
    method Replace(kv: KeyValue, x: Node, prev: array<Node?>) returns (ghost w: nat)
      requires Valid() && x in nodes && x in at[0] && x.kv.key == kv.key && prev.Length == MAX_HEIGHT
      requires forall l :: 0 <= l < maxHeight ==> prev[l] in nodes && IsPred(State(), l, kv.key, prev[l])
      modifies this, nodes
      ensures Valid() && old(nodes) <= nodes && fresh(nodes - old(nodes))
      ensures Contents() == old(Contents())[kv.key := kv.value]
      ensures TakenOver(old(at)[0], at[0], kv) && maxHeight == old(maxHeight)
      ensures Switch(old(trace), trace, w, old(at), at)
      ensures NestedSince(|old(trace)|, trace)
    {
      hide Less, IsSucc, SlotOk, Step, TraceOk, Distinct, Up, KeysNested, NestedSince;
      ghost var s := State();
      QuiescentNests(s);
      var r := NewNode(kv, x.height);
      SteadyNests(old(trace), trace, at);
      ghost var s0 := State();
      ghost var started := trace;
      ReplaceStarts(s, s0, x, r);
      w := SwapAll(s0, x, r, prev);
      ReplaceEnds(s0, State(), x, r);
      NestedGrows(|old(trace)|, started, trace);
    }

    method SwapAll(ghost s0: Links, x: Node, r: Node, prev: array<Node?>) returns (ghost w: nat)
      requires Stable() && s0 == State() && ReplaceReady(s0, s0, x, r, 0) && prev.Length == MAX_HEIGHT
      requires x in nodes && r in nodes && 0 < x.height <= MAX_HEIGHT
      requires forall l :: 0 <= l < x.height ==> prev[l] in nodes && IsPred(s0, l, x.kv.key, prev[l])
      modifies nodes, `at, `trace
      ensures Stable() && nodes == old(nodes) && ReplaceReady(s0, State(), x, r, x.height)
      ensures Switch(old(trace), trace, w, s0.at, at)
      ensures NestedSince(|old(trace)|, trace)
    {
      hide Less, IsPred, NestedSince, KeysNested, Step, TraceOk, Inv, Quiescent;
      w := |trace|;
      NothingSince(trace);
      for i := 0 to x.height
        invariant Stable() && nodes == old(nodes)
        invariant ReplaceReady(s0, State(), x, r, i)
        invariant NestedSince(|old(trace)|, trace)
        invariant if i == 0 then Steady(old(trace), trace, s0.at) && w == |trace|
                  else Switch(old(trace), trace, w, s0.at, at)
      {
        ghost var was := trace;
        SwapLevel(s0, prev[i], x, r, i);
        NestedGrows(|old(trace)|, was, trace);
        if i == 0 {
          w := |trace| - 1;
        }
      }
    }

    /** One level of the unlinking loop: p->setNext(i, x->next(i)). */
    method UnlinkOne(ghost s0: Links, p: Node, x: Node, i: nat)
      requires Stable() && UnlinkReady(s0, State(), x, i) && i < x.height
      requires p in nodes && x in nodes && IsPred(s0, i, x.kv.key, p)
      modifies p, `at, `trace
      ensures Stable() && nodes == old(nodes) && UnlinkReady(s0, State(), x, i + 1)
      ensures trace == old(trace) + [State()]
    {
      UnlinkLevel(s0, State(), x, i, p);
      Store(p, i, x.Next(i), at[i] - {x});
    }

    /** The unlinking loop of remove, from level 0 up. */
    method Unlink(x: Node, prev: array<Node?>) returns (ghost w: nat)
      requires Valid() && x in nodes && x in at[0] && prev.Length == MAX_HEIGHT
      requires forall l :: 0 <= l < maxHeight ==> prev[l] in nodes && IsPred(State(), l, x.kv.key, prev[l])
      modifies nodes, `at, `trace
      ensures Valid() && nodes == old(nodes)
      ensures Contents() == old(Contents()) - {x.kv.key}
      ensures Switch(old(trace), trace, w, old(at), at)
    {
      hide Less, IsPred, Step, TraceOk, Inv;
      ghost var s0 := State();
      UnlinkStarts(s0, x);
      w := |trace|;
      for i := 0 to x.height
        invariant Stable() && nodes == old(nodes)
        invariant UnlinkReady(s0, State(), x, i)
        invariant if i == 0 then Steady(old(trace), trace, s0.at) && w == |trace|
                  else Switch(old(trace), trace, w, s0.at, at)
      {
        UnlinkOne(s0, prev[i], x, i);
        if i == 0 {
          w := |trace| - 1;
        }
      }
      UnlinkEnds(s0, State(), x);
    }

    // ---- the public operations ----

    ghost function Found(key: Bytes): KeyValue
      requires Valid()
      reads this, nodes
    {
      if key in Contents() then KeyValue(key, Contents()[key]) else EMPTY
    }

    /** The new node's height is the caller's choice of 1..12, where the source draws it at random. */
    method Put(kv: KeyValue, height: nat) returns (previous: KeyValue, ghost w: nat)
      requires Valid() && 1 <= height <= 12
      modifies this, nodes
      ensures Valid() && old(nodes) <= nodes && fresh(nodes - old(nodes))
      ensures Contents() == old(Contents())[kv.key := kv.value]
      ensures previous == old(Found(kv.key))
      ensures if kv.key in old(Contents()) then TakenOver(old(at)[0], at[0], kv) && maxHeight == old(maxHeight)
              else Added(old(at)[0], at[0], kv, height) &&
                   maxHeight == if height > old(maxHeight) then height else old(maxHeight)
      ensures Switch(old(trace), trace, w, old(at), at)
      ensures NestedSince(|old(trace)|, trace)
    {
      hide Less, IsPred, Step, TraceOk, SlotOk, Inv, NestedSince;
      var prev := new Node?[MAX_HEIGHT];
      var x := FindGreaterOrEqual(kv.key, prev);
      FirstAtLeastDecidesBinding(State(), kv.key, x);
      if x != null && x.kv.key == kv.key {
        previous := x.kv;
        w := Replace(kv, x, prev);
      } else {
        previous := EMPTY;
        w := Insert(kv, height, prev);
      }
    }

    method Remove(key: Bytes) returns (previous: KeyValue, ghost w: nat)
      requires Valid()
      modifies this, nodes
      ensures Valid() && nodes == old(nodes)
      ensures Contents() == old(Contents()) - {key}
      ensures previous == old(Found(key))
      ensures Switch(old(trace), trace, w, old(at), at)
    {
      hide Less, IsPred, Step, TraceOk, SlotOk;
      var prev := new Node?[MAX_HEIGHT];
      var x := FindGreaterOrEqual(key, prev);
      FirstAtLeastDecidesBinding(State(), key, x);
      if x != null && x.kv.key == key {
        previous := x.kv;
        w := Unlink(x, prev);
      } else {
        previous := EMPTY;
        w := |trace|;
        assert at != [] && old(Contents()) - {key} == old(Contents());
      }
    }

    method Contains(key: Bytes) returns (found: bool)
      requires Valid()
      ensures found <==> key in Contents()
    {
      var x := FindGreaterOrEqual(key, null);
      FirstAtLeastDecidesBinding(State(), key, x);
      found := x != null && x.kv.key == key;
    }

    method Get(key: Bytes) returns (kv: KeyValue)
      requires Valid()
      ensures kv == Found(key)
    {
      var x := FindGreaterOrEqual(key, null);
      FirstAtLeastDecidesBinding(State(), key, x);
      kv := if x != null && x.kv.key == key then x.kv else EMPTY;
    }
  }

  /** One node more: a new one of this height. */
  ghost predicate Added(was: set<Node>, now: set<Node>, kv: KeyValue, height: nat) {
    exists x :: x in now && x !in was && x.kv == kv && x.height == height && now == was + {x}
  }

  /** A new node has taken over from the one with its key, and is as high. */
  ghost predicate TakenOver(was: set<Node>, now: set<Node>, kv: KeyValue) {
    exists x, r :: x in was && r in now && r !in was && x.kv.key == kv.key && r.kv == kv && r.height == x.height &&
      now == was - {x} + {r}
  }

  /** p is the true predecessor of key at level l. */
  ghost predicate IsPred(s: Links, l: nat, key: Bytes, p: Node?)
    requires |s.at| == MAX_HEIGHT && l < MAX_HEIGHT
  {
    p != null && (p == s.head || (p in s.at[l] && Less(p.kv.key, key))) && SlotOk(s, l, p) &&
    (s.next[p][l].node != null ==> !Less(s.next[p][l].node.kv.key, key))
  }

  lemma SearchStarts(s: Links, key: Bytes)
    requires Inv(s)
    ensures Shape(s) && |s.at| == MAX_HEIGHT
    ensures 1 <= s.maxHeight <= MAX_HEIGHT && s.head in s.next && Up(s, s.maxHeight - 1, s.head)
    ensures Turns(s, key, 0) == Searching(s.head, s.maxHeight - 1)
  {
  }

  /** What one turn of the loop finds in the slot it reads, and how it goes on. */
  lemma OneTurn(s: Links, key: Bytes, turns: nat, level: nat, x: Node)
    requires Inv(s) && level < MAX_HEIGHT && x in s.next && Up(s, level, x) &&
             Turns(s, key, turns) == Searching(x, level)
    ensures SlotSet(s, x, level) && SlotOk(s, level, x)
    ensures var next := s.next[x][level].node;
            if next != null && Less(next.kv.key, key)
            then next in s.next && Up(s, level, next) && After(s, next) < After(s, x) &&
                 Turns(s, key, turns + 1) == Searching(next, level)
            else if level == 0 then Turns(s, key, turns + 1) == Done(next)
            else Up(s, level - 1, x) && Turns(s, key, turns + 1) == Searching(x, level - 1)
  {
    hide Less, After;
    assert SlotOk(s, level, x);
    var next := s.next[x][level].node;
    if next != null && Less(next.kv.key, key) {
      assert next in s.at[level];
      AfterShrinks(s, x, next);
    } else if level > 0 {
      LowerIsUp(s, level, x);
    }
  }

  lemma SuccIsFirst(s: Links, key: Bytes, x: Node)
    requires Shape(s) && SlotOk(s, 0, x) && (x == s.head || Less(x.kv.key, key))
    requires s.next[x][0].node != null ==> !Less(s.next[x][0].node.kv.key, key)
    ensures IsFirstAtLeast(s, key, s.next[x][0].node)
    ensures s.next[x][0].node != null ==> s.next[x][0].node in s.next
  {
    LessIsStrictTotalOrder();
    hide Less;
    assert s.next[x][0].node != null ==> s.next[x][0].node in s.at[0];
  }

  lemma FoundPred(s: Links, l: nat, key: Bytes, x: Node)
    requires Quiescent(s) && l < MAX_HEIGHT && x in s.next && Up(s, l, x)
    requires x == s.head || Less(x.kv.key, key)
    requires SlotOk(s, l, x) && (s.next[x][l].node != null ==> !Less(s.next[x][l].node.kv.key, key))
    ensures IsPred(s, l, key, x)
  {
    hide Less;
    if x != s.head {
      var h :| l <= h < MAX_HEIGHT && x in s.at[h];
      assert x in s.at[0];
    }
  }

  // ---- the insertion loop ----

  /** The list s while x is linked into levels below i, starting from the quiescent s0 in which x is only allocated. */
  ghost predicate InsertReady(s0: Links, s: Links, x: Node, i: nat) {
    && |s0.at| == |s.at| == MAX_HEIGHT && Quiescent(s0) && Inv(s)
    && s.head == s0.head && s.next.Keys == s0.next.Keys && s.maxHeight == s0.maxHeight
    && x in s0.next && x != s0.head && x !in s0.at[0] && s0.next[x] == Blank(x.height)
    && i <= x.height <= s0.maxHeight
    && (forall l :: 0 <= l < i ==> s.at[l] == s0.at[l] + {x})
    && (forall l :: i <= l < MAX_HEIGHT ==> s.at[l] == s0.at[l])
    && (forall n, l :: n in s0.next && i <= l < n.height ==> s.next[n][l] == s0.next[n][l])
  }

  /** p is where x goes at level i: it precedes x, and the next node, if any, has a greater key. */
  ghost predicate CanLink(s0: Links, i: nat, x: Node, p: Node)
    requires |s0.at| == MAX_HEIGHT && i < MAX_HEIGHT
  {
    IsPred(s0, i, x.kv.key, p) && (s0.next[p][i].node != null ==> Less(x.kv.key, s0.next[p][i].node.kv.key))
  }

  lemma InsertNested(s0: Links, s: Links, x: Node, i: nat)
    requires InsertReady(s0, s, x, i)
    ensures NestedFrom(s, i)
    ensures forall l :: i <= l < MAX_HEIGHT ==> x !in s.at[l]
  {
    hide Less, SlotOk;
    forall l, h | i <= l < h < MAX_HEIGHT
      ensures s.at[h] <= s.at[l]
    {
      assert s0.at[h] <= s0.at[l];
    }
  }

  /** However far the linking has got, the keys of each level are among those of the level below. */
  lemma InsertKeysNested(s0: Links, s: Links, x: Node, i: nat)
    requires InsertReady(s0, s, x, i)
    ensures KeysNested(s.at)
  {
    hide Less, SlotOk, Inv;
    forall l, h | 0 <= l <= h < |s.at|
      ensures KeysOf(s.at[h]) <= KeysOf(s.at[l])
    {
      assert s0.at[h] <= s0.at[l];
      assert s.at[h] <= s.at[l];
    }
  }

  lemma InsertLevel(s0: Links, s: Links, x: Node, i: nat, p: Node)
    requires InsertReady(s0, s, x, i) && i < x.height && CanLink(s0, i, x, p)
    ensures SlotSet(s, p, i) && p in s.next && i < MAX_HEIGHT
    ensures var s1 := Stored(s, x, i, s.next[p][i].node, s.at);
            var s2 := Stored(s1, p, i, x, s1.at[i := s1.at[i] + {x}]);
            Inv(s1) && Step(s, s1) && Inv(s2) && Step(s1, s2) && InsertReady(s0, s2, x, i + 1)
  {
    hide Less;
    InsertNested(s0, s, x, i);
    assert s.next[x][i] == s0.next[x][i] == Unset;
    assert s.next[p][i] == s0.next[p][i];
    PrepareKeeps(s, x, i, s.next[p][i].node);
    var s1 := Stored(s, x, i, s.next[p][i].node, s.at);
    assert p != x;
    assert NestedFrom(s1, i);
    InsertKeeps(s1, p, x, i);
    InsertAdvances(s0, s, x, i, p, s.next[p][i].node);
  }

  lemma InsertAdvances(s0: Links, s: Links, x: Node, i: nat, p: Node, v: Node?)
    requires InsertReady(s0, s, x, i) && i < x.height && p in s.next && i < p.height && |s.next[x]| == x.height &&
             |s.next[p]| == p.height && p != x
    requires var s2 := Stored(Stored(s, x, i, v, s.at), p, i, x, s.at[i := s.at[i] + {x}]); Inv(s2)
    ensures var s2 := Stored(Stored(s, x, i, v, s.at), p, i, x, s.at[i := s.at[i] + {x}]); InsertReady(s0, s2, x, i + 1)
  {
    hide Less, Quiescent, Inv;
  }

  lemma InsertStarts(s: Links, s0: Links, x: Node)
    requires Quiescent(s) && Inv(s0) && x !in s.next && 1 <= x.height <= s0.maxHeight
    requires s0 == s.(next := s.next[x := Blank(x.height)], maxHeight := s0.maxHeight) && s.maxHeight <= s0.maxHeight
    requires x.kv.key !in Bindings(s)
    ensures InsertReady(s0, s0, x, 0)
    ensures forall l, p :: 0 <= l < s.maxHeight && p in s.next && IsPred(s, l, x.kv.key, p) ==> CanLink(s0, l, x, p)
    ensures forall l :: s.maxHeight <= l < MAX_HEIGHT ==> CanLink(s0, l, x, s0.head)
  {
    forall l, p | 0 <= l < s.maxHeight && p in s.next && IsPred(s, l, x.kv.key, p)
      ensures CanLink(s0, l, x, p)
    {
      LessIsStrictTotalOrder();
      hide Less;
      var next := s.next[p][l].node;
      if next != null {
        assert next in s.at[l] && next in s.at[0];
        assert next.kv.key in Bindings(s);
      }
    }
    forall l | s.maxHeight <= l < MAX_HEIGHT
      ensures CanLink(s0, l, x, s0.head)
    {
      hide Less;
      assert Up(s0, l, s0.head);
      assert SlotOk(s0, l, s0.head);
      assert s0.at[l] == {};
    }
  }

  lemma InsertEnds(s0: Links, s: Links, x: Node)
    requires InsertReady(s0, s, x, x.height) && x.height >= 1
    ensures Quiescent(s)
    ensures x.kv.key !in Bindings(s0) ==> Bindings(s) == Bindings(s0)[x.kv.key := x.kv.value]
    ensures x in s.at[0] && x !in s0.at[0] && s.at[0] == s0.at[0] + {x} && s.maxHeight == s0.maxHeight
  {
    hide Less, SlotOk;
  }

  // ---- the stores of one write, seen by readers ----

  /** Every state of tr after the prefix tr0 links the nodes as `at` does. */
  ghost predicate Steady(tr0: Trace, tr: Trace, at: seq<set<Node>>) {
    tr0 <= tr && at != [] && forall j :: |tr0| <= j < |tr| ==> tr[j].at == at
  }

  /** The states of tr after the prefix tr0 link level 0 as `a` does before w, and as `b` does from w on. */
  ghost predicate Switch(tr0: Trace, tr: Trace, w: nat, a: seq<set<Node>>, b: seq<set<Node>>) {
    && tr0 <= tr && a != [] && b != [] && |tr0| <= w <= |tr|
    && (forall j :: |tr0| <= j < w ==> tr[j].at != [] && tr[j].at[0] == a[0])
    && (forall j :: w <= j < |tr| ==> tr[j].at != [] && tr[j].at[0] == b[0])
  }

  lemma SteadyNests(tr0: Trace, tr: Trace, at: seq<set<Node>>)
    requires Steady(tr0, tr, at) && KeysNested(at)
    ensures NestedSince(|tr0|, tr)
  {
    hide KeysNested;
  }

  lemma NothingSince(tr: Trace)
    ensures NestedSince(|tr|, tr)
  {
  }

  /** The predecessor of a linked node's key points at that very node. */
  lemma PredPointsAt(s: Links, l: nat, x: Node, p: Node)
    requires Inv(s) && l < MAX_HEIGHT && x in s.at[l] && IsPred(s, l, x.kv.key, p)
    ensures s.next[p][l] == To(x)
  {
    LessIsStrictTotalOrder();
    hide Less;
  }

  // ---- the replacement loop ----

  /** The list s while r has taken over from x on the levels below i, starting from the quiescent s0. */
  ghost predicate ReplaceReady(s0: Links, s: Links, x: Node, r: Node, i: nat) {
    && |s0.at| == |s.at| == MAX_HEIGHT && Quiescent(s0) && Inv(s)
    && s.head == s0.head && s.next.Keys == s0.next.Keys && s.maxHeight == s0.maxHeight
    && x in s0.at[0] && r in s0.next && r != s0.head && r !in s0.at[0] && s0.next[r] == Blank(r.height)
    && r.height == x.height && r.kv.key == x.kv.key && i <= x.height <= s0.maxHeight
    && (forall l :: 0 <= l < i ==> s.at[l] == s0.at[l] - {x} + {r})
    && (forall l :: i <= l < MAX_HEIGHT ==> s.at[l] == s0.at[l])
    && (forall n, l :: n in s0.next && i <= l < n.height ==> s.next[n][l] == s0.next[n][l])
  }

  lemma ReplaceNested(s0: Links, s: Links, x: Node, r: Node, i: nat)
    requires ReplaceReady(s0, s, x, r, i)
    ensures NestedFrom(s, i)
    ensures forall l :: i <= l < MAX_HEIGHT ==> r !in s.at[l]
  {
    hide Less, SlotOk;
    forall l, h | i <= l < h < MAX_HEIGHT
      ensures s.at[h] <= s.at[l]
    {
      assert s0.at[h] <= s0.at[l];
    }
  }

  lemma ReplaceKeysNested(s0: Links, s: Links, x: Node, r: Node, i: nat)
    requires ReplaceReady(s0, s, x, r, i)
    ensures KeysNested(s.at)
  {
    hide Less, SlotOk, Inv;
    forall l, h, k | 0 <= l <= h < |s.at| && k in KeysOf(s.at[h])
      ensures k in KeysOf(s.at[l])
    {
      var n :| n in s.at[h] && n.kv.key == k;
      assert s0.at[h] <= s0.at[l];
      var m := if n == r || n == x then if l < i then r else x else n;
      assert m in s.at[l] && m.kv.key == k;
    }
  }

  lemma ReplaceLevel(s0: Links, s: Links, x: Node, r: Node, i: nat, p: Node)
    requires ReplaceReady(s0, s, x, r, i) && i < x.height && IsPred(s0, i, x.kv.key, p)
    ensures SlotSet(s, x, i) && SlotSet(s, p, i)
    ensures var s1 := Stored(s, r, i, s.next[x][i].node, s.at);
            var s2 := Stored(s1, p, i, r, s1.at[i := s1.at[i] - {x} + {r}]);
            Inv(s1) && Step(s, s1) && Inv(s2) && Step(s1, s2) && ReplaceReady(s0, s2, x, r, i + 1)
  {
    hide Less, IsSucc;
    ReplaceNested(s0, s, x, r, i);
    assert x in s0.at[i];
    PredPointsAt(s0, i, x, p);
    StandsOnLevel(s, i, x);
    assert s.next[r][i] == s0.next[r][i] == Unset;
    assert s.next[p][i] == s0.next[p][i];
    PrepareKeeps(s, r, i, s.next[x][i].node);
    var s1 := Stored(s, r, i, s.next[x][i].node, s.at);
    assert p != r;
    assert NestedFrom(s1, i);
    ReplaceKeeps(s1, p, x, r, i);
    ReplaceAdvances(s0, s, x, r, i, p, s.next[x][i].node);
  }

  lemma ReplaceAdvances(s0: Links, s: Links, x: Node, r: Node, i: nat, p: Node, v: Node?)
    requires ReplaceReady(s0, s, x, r, i) && i < x.height && p in s.next && i < p.height && |s.next[r]| == r.height &&
             |s.next[p]| == p.height && p != r
    requires var s2 := Stored(Stored(s, r, i, v, s.at), p, i, r, s.at[i := s.at[i] - {x} + {r}]); Inv(s2)
    ensures var s2 := Stored(Stored(s, r, i, v, s.at), p, i, r, s.at[i := s.at[i] - {x} + {r}]);
            ReplaceReady(s0, s2, x, r, i + 1)
  {
    hide Less, Quiescent, Inv;
  }

  lemma ReplaceStarts(s: Links, s0: Links, x: Node, r: Node)
    requires Quiescent(s) && Inv(s0) && x in s.at[0] && r !in s.next && r.height == x.height && r.kv.key == x.kv.key
    requires s0 == s.(next := s.next[r := Blank(r.height)])
    ensures ReplaceReady(s0, s0, x, r, 0) && 0 < x.height
    ensures forall l, p :: 0 <= l < x.height && p in s.next && IsPred(s, l, x.kv.key, p) ==> IsPred(s0, l, x.kv.key, p)
  {
    hide Less;
    assert x in s.at[x.height - 1];
  }

  lemma ReplaceEnds(s0: Links, s: Links, x: Node, r: Node)
    requires ReplaceReady(s0, s, x, r, x.height) && x.height >= 1
    ensures Quiescent(s)
    ensures Bindings(s) == Bindings(s0)[r.kv.key := r.kv.value]
    ensures x in s0.at[0] && r in s.at[0] && r !in s0.at[0] && s.at[0] == s0.at[0] - {x} + {r}
    ensures r.height == x.height && r.kv.key == x.kv.key && s.maxHeight == s0.maxHeight
  {
    hide Less, SlotOk;
    var was := Bindings(s0)[r.kv.key := r.kv.value];
    forall k
      ensures k in Bindings(s) <==> k in was
      ensures k in was ==> Bindings(s)[k] == was[k]
    {
      assert forall n :: n in s.at[0] && n != r ==> n in s0.at[0] && n.kv.key != r.kv.key;
      if k in was && k != r.kv.key {
        var n :| n in s0.at[0] && n.kv.key == k;
        assert n in s.at[0];
      }
    }
  }

  // ---- the unlinking loop ----

  ghost predicate UnlinkReady(s0: Links, s: Links, x: Node, i: nat) {
    && |s0.at| == |s.at| == MAX_HEIGHT && Quiescent(s0) && Inv(s)
    && s.head == s0.head && s.next.Keys == s0.next.Keys && s.maxHeight == s0.maxHeight
    && x in s0.at[0] && i <= x.height <= s0.maxHeight
    && (forall l :: 0 <= l < i ==> s.at[l] == s0.at[l] - {x})
    && (forall l :: i <= l < MAX_HEIGHT ==> s.at[l] == s0.at[l])
    && (forall n, l :: n in s0.next && i <= l < n.height ==> s.next[n][l] == s0.next[n][l])
  }

  lemma UnlinkStarts(s: Links, x: Node)
    requires Quiescent(s) && x in s.at[0]
    ensures UnlinkReady(s, s, x, 0) && 0 < x.height
  {
    hide Less;
    assert x in s.at[x.height - 1];
  }

  lemma UnlinkLevel(s0: Links, s: Links, x: Node, i: nat, p: Node)
    requires UnlinkReady(s0, s, x, i) && i < x.height && IsPred(s0, i, x.kv.key, p)
    ensures SlotSet(s, x, i) && SlotSet(s, p, i)
    ensures var t := Stored(s, p, i, s.next[x][i].node, s.at[i := s.at[i] - {x}]);
            Inv(t) && Step(s, t) && UnlinkReady(s0, t, x, i + 1)
  {
    hide Less, IsSucc;
    forall l, h | i <= l < h < MAX_HEIGHT
      ensures s.at[h] <= s.at[l]
    {
      assert s0.at[h] <= s0.at[l];
    }
    assert x in s0.at[i];
    PredPointsAt(s0, i, x, p);
    UnlinkKeeps(s, p, x, i);
  }

  /** A remove, too, works from level 0 up, and so a key it has taken from level 0 stays linked above for a while. */
  lemma UnlinkKeysNestedExactlyWhen(s0: Links, s: Links, x: Node, i: nat)
    requires UnlinkReady(s0, s, x, i)
    ensures KeysNested(s.at) <==> i == 0 || i == x.height
  {
    hide Less, SlotOk, IsSucc;
    if 0 < i < x.height {
      assert x in s.at[i] && x.kv.key in KeysOf(s.at[i]);
      assert x.kv.key !in KeysOf(s.at[0]);
    } else {
      forall l, h | 0 <= l <= h < |s.at|
        ensures KeysOf(s.at[h]) <= KeysOf(s.at[l])
      {
        assert s0.at[h] <= s0.at[l];
        assert h >= x.height ==> x !in s0.at[h];
        assert s.at[h] <= s.at[l];
      }
    }
  }

  lemma UnlinkEnds(s0: Links, s: Links, x: Node)
    requires UnlinkReady(s0, s, x, x.height) && x.height >= 1
    ensures Quiescent(s)
    ensures Bindings(s) == Bindings(s0) - {x.kv.key}
  {
    hide Less, SlotOk;
    assert forall n :: n in s.at[0] <==> n in s0.at[0] && n.kv.key != x.kv.key;
  }

  /**
   A search that overlaps one put or remove finds the binding from before or the binding from after;
   once it starts after the level-0 store w it finds the new one.
   */
  lemma SearchDuringWrite(tr0: Trace, tr: Trace, w: nat, key: Bytes, times: seq<nat>, v: Node?)
    requires TraceOk(tr0) && TraceOk(tr) && Moments(tr, times) && Run(tr, key, times) == Done(v)
    requires Switch(tr0, tr, w, tr0[|tr0| - 1].at, tr[|tr| - 1].at) && |tr0| - 1 <= times[0]
    ensures var before, after := Bindings(tr0[|tr0| - 1]), Bindings(tr[|tr| - 1]);
            || Answers(after, key, v)
            || (times[0] < w && Answers(before, key, v))
  {
    var m := SearchLinearizes(tr, key, times);
    FirstAtLeastDecidesBinding(tr[m], key, v);
    var s := if m < w then tr0[|tr0| - 1] else tr[|tr| - 1];
    assert tr[m].at[0] == s.at[0] by {
      if m == |tr0| - 1 {
        assert tr[m] == tr0[m];
      }
    }
    assert Bindings(tr[m]) == Bindings(s);
  }

  /**
   v is what get(key) turns into a result: a node with that key and its value, or one that tells the key is
   absent.
   */
  ghost predicate Answers(bindings: map<Bytes, Bytes>, key: Bytes, v: Node?) {
    if v != null && v.kv.key == key then key in bindings && bindings[key] == v.kv.value else key !in bindings
  }
}
