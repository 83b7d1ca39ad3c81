/**
 Lock-free readers. A search reads one next pointer at a time while the single writer keeps storing;
 whatever it returns is the right answer for the list as it stood at some moment during the search.
 */
module SkipReaders {
  import opened Bytes
  import opened SkipLinks

  /** `v` is the node findGreaterOrEqual(key) must return: the first of level 0 that is not below key. */
  ghost predicate IsFirstAtLeast(s: Links, key: Bytes, v: Node?)
    requires |s.at| == MAX_HEIGHT
  {
    if v == null then
      forall m :: m in s.at[0] ==> Less(m.kv.key, key)
    else
      v in s.at[0] && !Less(v.kv.key, key) &&
      forall m :: m in s.at[0] && !Less(m.kv.key, key) ==> m == v || Less(v.kv.key, m.kv.key)
  }

  /** What the list binds each key to: level 0 alone decides. */
  ghost function Bindings(s: Links): map<Bytes, Bytes>
    requires |s.at| == MAX_HEIGHT
  {
    map key | key in KeysOf(s.at[0]) :: NodeWith(s.at[0], key).kv.value
  }

  ghost function KeysOf(level: set<Node>): set<Bytes> {
    set n | n in level :: n.kv.key
  }

  ghost function NodeWith(level: set<Node>, key: Bytes): (n: Node)
    requires key in KeysOf(level)
    ensures n in level && n.kv.key == key
  {
    var n :| n in level && n.kv.key == key;
    n
  }

  lemma SameBindings(s: Links, t: Links)
    requires |s.at| == MAX_HEIGHT && t.at == s.at
    ensures Bindings(t) == Bindings(s)
  {
  }

  lemma FirstAtLeastDecidesBinding(s: Links, key: Bytes, v: Node?)
    requires Inv(s) && IsFirstAtLeast(s, key, v)
    ensures key in Bindings(s) <==> v != null && v.kv.key == key
    ensures v != null && v.kv.key == key ==> Bindings(s)[key] == v.kv.value
  {
    LessIsStrictTotalOrder();
    hide Less;
  }

  // ---- histories of the list ----

  /** The states the writer has passed through, one per store, oldest first. */
  type Trace = seq<Links>

  ghost predicate TraceOk(tr: Trace) {
    && tr != []
    && (forall i :: 0 <= i < |tr| ==> Inv(tr[i]))
    && (forall i :: 0 <= i < |tr| - 1 ==> Step(tr[i], tr[i + 1]))
  }

  lemma InvAt(tr: Trace, m: nat)
    requires TraceOk(tr) && m < |tr|
    ensures Inv(tr[m]) && |tr[m].at| == MAX_HEIGHT
  {
  }

  lemma ExtendTrace(tr: Trace, t: Links)
    requires TraceOk(tr) && Inv(t) && Step(tr[|tr| - 1], t)
    ensures TraceOk(tr + [t])
  {
    hide Shape, Step;
    var u := tr + [t];
    forall i | 0 <= i < |u| - 1
      ensures Step(u[i], u[i + 1])
    {
      if i < |tr| - 1 {
        assert Step(tr[i], tr[i + 1]);
      }
    }
  }

  /**
   The slot read at time t by a reader that could stand on n at time b led, at some moment in between, to n's
   successor.
   */
  lemma {:induction false} SlotWasSuccessor(tr: Trace, b: nat, t: nat, l: nat, n: Node) returns (m: nat)
    requires TraceOk(tr) && b <= t < |tr| && l < MAX_HEIGHT
    requires n in tr[b].next && Up(tr[b], l, n)
    ensures b <= m <= t
    ensures SlotSet(tr[t], n, l) && IsSucc(tr[m], tr[m].at[l], n, tr[t].next[n][l].node)
    decreases t - b
  {
    hide Less, IsSucc;
    if b == t {
      m := b;
      assert SlotOk(tr[b], l, n);
    } else {
      m := SlotWasSuccessor(tr, b, t - 1, l, n);
      assert Step(tr[t - 1], tr[t]);
      if tr[t].next[n][l] != tr[t - 1].next[n][l] {
        assert Up(tr[t], l, n);
        assert SlotOk(tr[t], l, n);
        m := t;
      }
    }
  }

  // ---- one reader ----

  datatype Reader =
    | Searching(node: Node, level: nat)
    | Done(result: Node?)
    | ReadUnset

  /** One turn of the loop of findGreaterOrEqual, reading the list as it is now. */
  ghost function Turn(s: Links, key: Bytes, r: Reader): Reader {
    match r
    case Searching(x, level) =>
      if !SlotSet(s, x, level) then ReadUnset
      else
        var next := s.next[x][level].node;
        if next != null && Less(next.kv.key, key) then Searching(next, level)
        else if level == 0 then Done(next)
        else Searching(x, level - 1)
    case _ => r
  }

  /** The reader after turns taken at the moments `times`, the first of which also read maxHeight. */
  ghost function Run(tr: Trace, key: Bytes, times: seq<nat>): Reader
    requires TraceOk(tr) && times != [] && forall i :: 0 <= i < |times| ==> times[i] < |tr|
  {
    var last := |times| - 1;
    if last == 0 then Searching(tr[times[0]].head, tr[times[0]].maxHeight - 1)
    else Turn(tr[times[last]], key, Run(tr, key, times[..last]))
  }

  /** The search after n turns on a list that stays as it is. */
  ghost function Turns(s: Links, key: Bytes, n: nat): Reader
    requires 1 <= s.maxHeight
  {
    if n == 0 then Searching(s.head, s.maxHeight - 1) else Turn(s, key, Turns(s, key, n - 1))
  }

  ghost predicate Moments(tr: Trace, times: seq<nat>) {
    && times != []
    && (forall i :: 0 <= i < |times| ==> times[i] < |tr|)
    && (forall i, j :: 0 <= i <= j < |times| ==> times[i] <= times[j])
  }

  ghost predicate Standing(tr: Trace, b: nat, key: Bytes, x: Node, level: nat)
    requires TraceOk(tr) && b < |tr|
  {
    level < MAX_HEIGHT && x in tr[b].next && Up(tr[b], level, x) && (x == tr[b].head || Less(x.kv.key, key))
  }

  lemma {:induction false} HeadNeverMoves(tr: Trace, i: nat, j: nat)
    requires TraceOk(tr) && i <= j < |tr|
    ensures tr[i].head == tr[j].head
    decreases j - i
  {
    if i < j {
      HeadNeverMoves(tr, i, j - 1);
      assert Step(tr[j - 1], tr[j]);
    }
  }

  /**
   Linearizability of lock-free search: for every interleaving of stores and reads, the reader never meets an
   unset slot, and a result it returns was the right one at some moment between its first and its last read.
   */
  lemma {:induction false} SearchLinearizes(tr: Trace, key: Bytes, times: seq<nat>) returns (m: nat)
    requires TraceOk(tr) && Moments(tr, times)
    ensures times[0] <= m <= times[|times| - 1]
    ensures match Run(tr, key, times)
            case Searching(x, level) => Standing(tr, m, key, x, level)
            case Done(v) => IsFirstAtLeast(tr[m], key, v)
            case ReadUnset => false
    decreases |times|
  {
    var last := |times| - 1;
    if last == 0 {
      m := times[0];
    } else {
      var before := times[..last];
      m := SearchLinearizes(tr, key, before);
      var r := Run(tr, key, before);
      if r.Searching? {
        m := TurnLinearizes(tr, key, r, m, times[last]);
      }
    }
  }

  lemma TurnLinearizes(tr: Trace, key: Bytes, r: Reader, b: nat, t: nat) returns (m: nat)
    requires TraceOk(tr) && b <= t < |tr|
    requires r.Searching? && Standing(tr, b, key, r.node, r.level)
    ensures b <= m <= t
    ensures match Turn(tr[t], key, r)
            case Searching(x, level) => Standing(tr, m, key, x, level)
            case Done(v) => IsFirstAtLeast(tr[m], key, v)
            case ReadUnset => false
  {
    var x, level := r.node, r.level;
    m := SlotWasSuccessor(tr, b, t, level, x);
    var next := tr[t].next[x][level].node;
    HeadNeverMoves(tr, b, m);
    if next != null && Less(next.kv.key, key) {
      hide Less;
      assert next in tr[m].at[level];
      assert Up(tr[m], level, next);
    } else if level == 0 {
      LessIsStrictTotalOrder();
      hide Less;
    } else {
      hide Less;
      m := b;
      LowerIsUp(tr[b], level, x);
    }
  }

  lemma LowerIsUp(s: Links, level: nat, x: Node)
    requires |s.at| == MAX_HEIGHT && 0 < level < MAX_HEIGHT && Up(s, level, x)
    ensures Up(s, level - 1, x)
  {
  }

  // ---- every search ends once the writer pauses ----

  ghost function Still(t: nat, n: nat): (times: seq<nat>)
    ensures |times| == n && forall i :: 0 <= i < n ==> times[i] == t
  {
    seq(n, _ => t)
  }

  ghost function LevelsLeft(r: Reader): nat {
    if r.Searching? then r.level + 1 else 0
  }

  ghost function NodesAhead(s: Links, r: Reader): set<Node> {
    if r.Searching? then After(s, r.node) else {}
  }

  /** A turn that does not end the search goes on along the level or, else, comes down. */
  lemma TurnAdvances(tr: Trace, key: Bytes, r: Reader, b: nat, t: nat)
    requires TraceOk(tr) && b <= t < |tr| && r.Searching? && Standing(tr, b, key, r.node, r.level)
    ensures var next := Turn(tr[t], key, r);
            next.Searching? ==>
              next.level < r.level || (next.level == r.level && After(tr[t], next.node) < After(tr[t], r.node))
  {
    hide Less, IsSucc;
    var x, level := r.node, r.level;
    var m := SlotWasSuccessor(tr, b, t, level, x);
    var v := tr[t].next[x][level].node;
    if v != null && Less(v.kv.key, key) {
      HeadNeverMoves(tr, m, t);
      SuccessorIsAfter(tr[m], level, x, v);
      NodesStay(tr, m, t, v);
      AfterShrinks(tr[t], x, v);
    }
  }

  lemma SuccessorIsAfter(s: Links, level: nat, x: Node, v: Node)
    requires Inv(s) && level < MAX_HEIGHT && IsSucc(s, s.at[level], x, v)
    ensures v in s.next && Before(s, x, v)
  {
    hide Less;
    assert v in s.at[level];
  }

  lemma {:induction false} NodesStay(tr: Trace, m: nat, t: nat, n: Node)
    requires TraceOk(tr) && m <= t < |tr| && n in tr[m].next
    ensures n in tr[t].next
    decreases t - m
  {
    if m < t {
      NodesStay(tr, m, t - 1, n);
      assert Step(tr[t - 1], tr[t]);
    }
  }

  lemma OneTurnMore(tr: Trace, key: Bytes, times: seq<nat>, t: nat)
    requires TraceOk(tr) && Moments(tr, times) && times[|times| - 1] <= t < |tr|
    ensures Moments(tr, times + [t]) && Run(tr, key, times + [t]) == Turn(tr[t], key, Run(tr, key, times))
  {
    assert (times + [t])[..|times|] == times;
  }

  /**
   Wherever a search has got to by any interleaving with the writer, once the list stays as it is the search ends
   after some number of turns, with the right node of some moment since the search began.
   */
  lemma {:induction false} SearchFinishes(tr: Trace, key: Bytes, times: seq<nat>, t: nat)
    returns (n: nat, m: nat, v: Node?)
    requires TraceOk(tr) && Moments(tr, times) && times[|times| - 1] <= t < |tr|
    ensures Moments(tr, times + Still(t, n)) && Run(tr, key, times + Still(t, n)) == Done(v)
    ensures times[0] <= m <= t && IsFirstAtLeast(tr[m], key, v)
    decreases LevelsLeft(Run(tr, key, times)), NodesAhead(tr[t], Run(tr, key, times))
  {
    hide TraceOk, Turn, Run, Standing, IsFirstAtLeast, After;
    var r := Run(tr, key, times);
    m := SearchLinearizes(tr, key, times);
    if r.Searching? {
      OneTurnMore(tr, key, times, t);
      TurnAdvances(tr, key, r, m, t);
      n, m, v := SearchFinishes(tr, key, times + [t], t);
      assert times + [t] + Still(t, n) == times + Still(t, n + 1);
      n := n + 1;
    } else {
      n, v := 0, r.result;
      assert times + Still(t, 0) == times;
    }
  }

  /** The reader of the interleavings and the turns on one state are the same search. */
  lemma {:induction false} RunStandsStill(tr: Trace, key: Bytes, t: nat, n: nat)
    requires TraceOk(tr) && t < |tr|
    ensures 1 <= tr[t].maxHeight && Run(tr, key, Still(t, n + 1)) == Turns(tr[t], key, n)
    decreases n
  {
    assert Inv(tr[t]);
    if n > 0 {
      RunStandsStill(tr, key, t, n - 1);
      assert Still(t, n + 1)[..n] == Still(t, n);
    }
  }

  /** On a list that stays as it is every search finds the right node. */
  lemma IdleSearchEnds(s: Links, key: Bytes) returns (n: nat, v: Node?)
    requires Inv(s)
    ensures Turns(s, key, n) == Done(v) && IsFirstAtLeast(s, key, v)
  {
    var tr := [s];
    assert TraceOk(tr);
    hide TraceOk, Run, Turns, IsFirstAtLeast;
    var k, m;
    k, m, v := SearchFinishes(tr, key, [0], 0);
    assert [0] + Still(0, k) == Still(0, k + 1);
    RunStandsStill(tr, key, 0, k);
    n := k;
  }
}
