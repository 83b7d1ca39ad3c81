/**
 Iterators beside the writer. An iterator follows the level-0 slot of the node it stands on, at any moment it
 likes; the node may have been replaced or removed in the meantime, and then its slot is one that the writer
 no longer keeps up to date.
 */
module SkipCursors {
  import opened Bytes
  import opened KeyValues
  import opened SkipLinks
  import opened SkipReaders

  datatype Cursor =
    | On(node: Node)
    | End
    | Lost

  ghost function ToCursor(v: Node?): Cursor {
    if v == null then End else On(v)
  }

  /** next, reading the list as it is now. */
  ghost function Hop(s: Links, c: Cursor): Cursor {
    match c
    case On(n) => if SlotSet(s, n, 0) then ToCursor(s.next[n][0].node) else Lost
    case _ => c
  }

  /** Where the iterator stands before its i-th next, having stood on n before the first. */
  ghost function StandsOn(n: Node, cs: seq<Cursor>, i: nat): Cursor
    requires i <= |cs|
  {
    if i == 0 then On(n) else cs[i - 1]
  }

  /** Where an iterator that stands on n gets by calling next at the moments `times`. */
  ghost function Visits(tr: Trace, n: Node, times: seq<nat>): (cs: seq<Cursor>)
    requires forall i :: 0 <= i < |times| ==> times[i] < |tr|
    ensures |cs| == |times|
  {
    if times == [] then []
    else
      var last := |times| - 1;
      var cs := Visits(tr, n, times[..last]);
      cs + [Hop(tr[times[last]], StandsOn(n, cs, last))]
  }

  /** What follows n on level 0 of s. */
  ghost predicate Follows(s: Links, n: Node, c: Cursor) {
    |s.at| == MAX_HEIGHT &&
    match c
    case On(v) => IsSucc(s, s.at[0], n, v)
    case End => IsSucc(s, s.at[0], n, null)
    case Lost => false
  }

  ghost predicate CanStand(s: Links, n: Node) {
    |s.at| == MAX_HEIGHT && n in s.next && Up(s, 0, n)
  }

  /**
   One next at time t, from a node that was linked at time b: it gets to the node that followed at some moment in
   between.
   */
  lemma NextLinearizes(tr: Trace, b: nat, t: nat, n: Node) returns (m: nat)
    requires TraceOk(tr) && b <= t < |tr| && CanStand(tr[b], n)
    ensures b <= m <= t && Follows(tr[m], n, Hop(tr[t], On(n)))
    ensures Hop(tr[t], On(n)).On? ==> CanStand(tr[m], Hop(tr[t], On(n)).node)
  {
    hide Less;
    m := SlotWasSuccessor(tr, b, t, 0, n);
    var v := tr[t].next[n][0].node;
    if v != null {
      assert v in tr[m].at[0];
    }
  }

  /** Moments in order, from b on and up to e. */
  ghost predicate Rising(times: seq<nat>, b: nat, e: nat) {
    && (forall i :: 0 <= i < |times| ==> b <= times[i] <= e)
    && (forall i, j :: 0 <= i <= j < |times| ==> times[i] <= times[j])
  }

  /** One moment for each call, no later than the call. */
  ghost predicate Precede(ms: seq<nat>, times: seq<nat>) {
    |ms| == |times| && forall i :: 0 <= i < |ms| ==> ms[i] <= times[i]
  }

  /** The last of some moments, or the one they start from. */
  ghost function LastOf(ms: seq<nat>, b: nat): nat {
    if ms == [] then b else ms[|ms| - 1]
  }

  lemma RisingMore(ms: seq<nat>, b: nat, e: nat, times: seq<nat>, m: nat)
    requires times != [] && Rising(ms, b, e) && Precede(ms, times[..|times| - 1]) &&
             LastOf(ms, b) <= m <= times[|times| - 1] && m <= e && b <= e
    ensures Rising(ms + [m], b, e) && Precede(ms + [m], times) && LastOf(ms + [m], b) == m
  {
  }

  lemma RisingFront(times: seq<nat>, b: nat, e: nat)
    requires Rising(times, b, e) && times != []
    ensures Rising(times[..|times| - 1], b, e) && b <= times[|times| - 1] <= e
    ensures var front := times[..|times| - 1]; forall i :: 0 <= i < |front| ==> front[i] <= e
  {
  }

  lemma LastBefore(ms: seq<nat>, b: nat, times: seq<nat>, e: nat)
    requires times != [] && Precede(ms, times[..|times| - 1]) && Rising(times, b, e)
    ensures LastOf(ms, b) <= times[|times| - 1] <= e
  {
    if ms != [] {
      assert times[..|times| - 1][|ms| - 1] == times[|ms| - 1];
    }
  }

  /** next has gone from p to c, at a moment in which the list was s. */
  ghost predicate Went(s: Links, p: Cursor, c: Cursor) {
    match p
    case On(v) => Follows(s, v, c)
    case End => c == End
    case Lost => false
  }

  /** Each next went to what followed the node before at moment ms[i]. */
  ghost predicate Linearized(tr: Trace, n: Node, cs: seq<Cursor>, ms: seq<nat>) {
    |ms| == |cs| && forall i :: 0 <= i < |cs| ==> ms[i] < |tr| && Went(tr[ms[i]], StandsOn(n, cs, i), cs[i])
  }

  ghost predicate StandsSince(tr: Trace, b: nat, c: Cursor) {
    b < |tr| && c != Lost && (c.On? ==> CanStand(tr[b], c.node))
  }

  lemma OneNext(tr: Trace, b: nat, t: nat, c: Cursor) returns (m: nat)
    requires TraceOk(tr) && b <= t < |tr| && StandsSince(tr, b, c)
    ensures b <= m <= t && Went(tr[m], c, Hop(tr[t], c)) && StandsSince(tr, m, Hop(tr[t], c))
  {
    hide TraceOk, CanStand, Follows;
    if c.On? {
      m := NextLinearizes(tr, b, t, c.node);
      FollowsNotLost(tr[m], c.node, Hop(tr[t], c));
    } else {
      m := b;
    }
  }

  lemma FollowsNotLost(s: Links, n: Node, c: Cursor)
    requires Follows(s, n, c)
    ensures c != Lost
  {
  }

  /** For every interleaving of stores and calls of next there are such moments, in order and each before its call. */
  lemma {:induction false} IterationLinearizes(tr: Trace, b: nat, n: Node, times: seq<nat>) returns (ms: seq<nat>)
    requires TraceOk(tr) && StandsSince(tr, b, On(n)) && Rising(times, b, |tr| - 1)
    ensures Linearized(tr, n, Visits(tr, n, times), ms) && Rising(ms, b, |tr| - 1) && Precede(ms, times)
    ensures StandsSince(tr, LastOf(ms, b), StandsOn(n, Visits(tr, n, times), |times|))
    decreases |times|
  {
    hide TraceOk, StandsSince, Went, Hop, Rising, Precede, LastOf, Linearized;
    StandsBefore(tr, b, On(n));
    if times == [] {
      ms := [];
      NoNext(tr, n, b);
    } else {
      var last := |times| - 1;
      RisingFront(times, b, |tr| - 1);
      var front := IterationLinearizes(tr, b, n, times[..last]);
      LastBefore(front, b, times, |tr| - 1);
      var cs := Visits(tr, n, times[..last]);
      var p := StandsOn(n, cs, last);
      var m := OneNext(tr, LastOf(front, b), times[last], p);
      ms := front + [m];
      StandsBefore(tr, m, Hop(tr[times[last]], p));
      LinearizedMore(tr, n, cs, front, Hop(tr[times[last]], p), m);
      RisingMore(front, b, |tr| - 1, times, m);
    }
  }

  lemma NoNext(tr: Trace, n: Node, b: nat)
    requires b < |tr|
    ensures Linearized(tr, n, [], []) && Rising([], b, |tr| - 1) && Precede([], []) && LastOf([], b) == b
  {
  }

  lemma StandsBefore(tr: Trace, m: nat, c: Cursor)
    requires StandsSince(tr, m, c)
    ensures m < |tr|
  {
  }

  lemma LinearizedMore(tr: Trace, n: Node, cs: seq<Cursor>, ms: seq<nat>, c: Cursor, m: nat)
    requires Linearized(tr, n, cs, ms) && m < |tr| && Went(tr[m], StandsOn(n, cs, |cs|), c)
    ensures Linearized(tr, n, cs + [c], ms + [m])
  {
    hide Went;
    forall i | 0 <= i < |cs| + 1
      ensures Went(tr[(ms + [m])[i]], StandsOn(n, cs + [c], i), (cs + [c])[i])
    {
      assert StandsOn(n, cs + [c], i) == StandsOn(n, cs, i);
    }
  }

  // ---- what a client sees ----

  ghost predicate Bound(s: Links, kv: KeyValue) {
    |s.at| == MAX_HEIGHT && kv.key in Bindings(s) && Bindings(s)[kv.key] == kv.value
  }

  /** The key lies behind the node; everything lies behind the head. */
  ghost predicate Behind(s: Links, n: Node, k: Bytes) {
    n == s.head || Less(n.kv.key, k)
  }

  lemma FollowsMeans(s: Links, n: Node, c: Cursor)
    requires Inv(s) && Follows(s, n, c)
    ensures c.On? ==> Bound(s, c.node.kv) && c.node != s.head && Behind(s, n, c.node.kv.key)
    ensures forall k :: k in Bindings(s) && Behind(s, n, k) ==> c.On? && !Less(k, c.node.kv.key)
  {
    LessIsStrictTotalOrder();
    hide Less;
    if c.On? {
      assert c.node in s.at[0];
      assert NodeWith(s.at[0], c.node.kv.key) == c.node;
    }
    forall k | k in Bindings(s) && Behind(s, n, k)
      ensures c.On? && !Less(k, c.node.kv.key)
    {
      var v := NodeWith(s.at[0], k);
      assert v in s.at[0] && v.kv.key == k;
      assert Before(s, n, v);
    }
  }

  ghost predicate BoundThroughout(tr: Trace, b: nat, e: nat, k: Bytes) {
    e < |tr| && forall m :: b <= m <= e ==> |tr[m].at| == MAX_HEIGHT && k in Bindings(tr[m])
  }

  /** The iterator has come as far as k, or to the end. */
  ghost predicate Passed(c: Cursor, k: Bytes) {
    c.End? || (c.On? && !Less(c.node.kv.key, k))
  }

  ghost predicate NotBeyond(c: Cursor, k: Bytes) {
    c.On? && !Less(k, c.node.kv.key)
  }

  ghost predicate Delivered(cs: seq<Cursor>, k: Bytes) {
    exists i :: 0 <= i < |cs| && cs[i].On? && cs[i].node.kv.key == k
  }

  /** Strictly ascending, and nothing after the end. */
  ghost predicate AscendingFrom(s: Links, n: Node, cs: seq<Cursor>) {
    && (forall i :: 0 <= i < |cs| && cs[i].On? ==> Behind(s, n, cs[i].node.kv.key) && cs[i].node != s.head)
    && (forall i, j :: 0 <= i < j < |cs| && cs[j].On? ==> cs[i].On? && Less(cs[i].node.kv.key, cs[j].node.kv.key))
  }

  lemma {:induction false} VisitsAscend(tr: Trace, n: Node, cs: seq<Cursor>, ms: seq<nat>)
    requires TraceOk(tr) && Linearized(tr, n, cs, ms)
    ensures AscendingFrom(tr[0], n, cs)
    decreases |cs|
  {
    hide TraceOk, Linearized, Behind;
    TraceStarts(tr);
    if cs != [] {
      var last := |cs| - 1;
      LinearizedLength(tr, n, cs, ms);
      LinearizedFront(tr, n, cs, ms);
      VisitsAscend(tr, n, cs[..last], ms[..last]);
      assert cs[..last] + [cs[last]] == cs;
      if cs[last].On? {
        WentMeans(tr, n, cs, ms, last);
        AscendMore(tr[0], n, cs[..last], cs[last]);
      } else {
        AscendEnds(tr[0], n, cs[..last], cs[last]);
      }
    }
  }

  lemma TraceStarts(tr: Trace)
    requires TraceOk(tr)
    ensures tr != []
  {
  }

  lemma WentMeans(tr: Trace, n: Node, cs: seq<Cursor>, ms: seq<nat>, i: nat)
    requires TraceOk(tr) && Linearized(tr, n, cs, ms) && i < |cs|
    ensures cs[i] != Lost && StandsOn(n, cs, i) != Lost && (StandsOn(n, cs, i).End? ==> cs[i].End?)
    ensures cs[i].On? ==> Bound(tr[ms[i]], cs[i].node.kv) && cs[i].node != tr[0].head
    ensures cs[i].On? ==> StandsOn(n, cs, i).On? && Behind(tr[0], StandsOn(n, cs, i).node, cs[i].node.kv.key)
    ensures StandsOn(n, cs, i).On? ==>
              forall k :: Behind(tr[0], StandsOn(n, cs, i).node, k) && BoundThroughout(tr, ms[i], ms[i], k) ==>
                NotBeyond(cs[i], k)
  {
    hide Follows, Bound, Bindings, Inv, Step;
    assert Went(tr[ms[i]], StandsOn(n, cs, i), cs[i]);
    HeadNeverMoves(tr, 0, ms[i]);
    var p := StandsOn(n, cs, i);
    if p.On? {
      FollowsMeans(tr[ms[i]], p.node, cs[i]);
      FollowsNotLost(tr[ms[i]], p.node, cs[i]);
    }
  }

  lemma LinearizedFront(tr: Trace, n: Node, cs: seq<Cursor>, ms: seq<nat>)
    requires Linearized(tr, n, cs, ms) && cs != []
    ensures Linearized(tr, n, cs[..|cs| - 1], ms[..|cs| - 1])
  {
    hide Went;
    var last := |cs| - 1;
    forall i | 0 <= i < last
      ensures Went(tr[ms[..last][i]], StandsOn(n, cs[..last], i), cs[..last][i])
    {
      assert StandsOn(n, cs[..last], i) == StandsOn(n, cs, i);
    }
  }

  lemma AscendEnds(s: Links, n: Node, cs: seq<Cursor>, c: Cursor)
    requires AscendingFrom(s, n, cs) && !c.On?
    ensures AscendingFrom(s, n, cs + [c])
  {
    hide Less, Behind;
  }

  lemma AscendMore(s: Links, n: Node, cs: seq<Cursor>, c: Cursor)
    requires AscendingFrom(s, n, cs) && c.On? && c.node != s.head
    requires var p := StandsOn(n, cs, |cs|); p.On? && Behind(s, p.node, c.node.kv.key)
    ensures AscendingFrom(s, n, cs + [c])
  {
    LessIsStrictTotalOrder();
    hide Less;
  }

  /**
   What the pairs tell: each was bound at some moment since the iterator stood on n, and before it was fetched;
   keys ascend strictly; and a key that was bound all along is not skipped.
   */
  lemma IterationMissesNothing(tr: Trace, b: nat, n: Node, times: seq<nat>) returns (ms: seq<nat>)
    requires TraceOk(tr) && StandsSince(tr, b, On(n)) && Rising(times, b, |tr| - 1)
    ensures var cs := Visits(tr, n, times);
            && Rising(ms, b, |tr| - 1) && Precede(ms, times)
            && (forall i :: 0 <= i < |cs| ==> cs[i] != Lost && (cs[i].On? ==> Bound(tr[ms[i]], cs[i].node.kv)))
            && AscendingFrom(tr[0], n, cs)
            && forall i, k ::
                 0 <= i < |cs| && BoundThroughout(tr, b, times[i], k) && Behind(tr[0], n, k) && Passed(cs[i], k) ==>
                 Delivered(cs[..i + 1], k)
  {
    hide TraceOk, StandsSince, Linearized, Bound, AscendingFrom, Visits, Passed, Delivered, Behind, BoundThroughout;
    ms := IterationLinearizes(tr, b, n, times);
    var cs := Visits(tr, n, times);
    TraceStarts(tr);
    LinearizedLength(tr, n, cs, ms);
    VisitsAscend(tr, n, cs, ms);
    forall i | 0 <= i < |cs|
      ensures cs[i] != Lost && (cs[i].On? ==> Bound(tr[ms[i]], cs[i].node.kv))
    {
      WentMeans(tr, n, cs, ms, i);
    }
    forall i, k | 0 <= i < |cs| && BoundThroughout(tr, b, times[i], k) && Behind(tr[0], n, k) && Passed(cs[i], k)
      ensures Delivered(cs[..i + 1], k)
    {
      NotSkipped(tr, b, n, times, cs, ms, i, k);
    }
  }

  lemma LinearizedLength(tr: Trace, n: Node, cs: seq<Cursor>, ms: seq<nat>)
    requires Linearized(tr, n, cs, ms)
    ensures |ms| == |cs| && forall i :: 0 <= i < |ms| ==> ms[i] < |tr|
  {
  }

  lemma {:induction false} NotSkipped(tr: Trace, b: nat, n: Node, times: seq<nat>, cs: seq<Cursor>, ms: seq<nat>,
                                      i: nat, k: Bytes)
    requires TraceOk(tr) && Linearized(tr, n, cs, ms) && i < |cs| && Rising(ms, b, |tr| - 1) &&
             Rising(times, b, |tr| - 1) && Precede(ms, times)
    requires BoundThroughout(tr, b, times[i], k) && Behind(tr[0], n, k) && Passed(cs[i], k)
    ensures Delivered(cs[..i + 1], k)
    decreases i
  {
    hide TraceOk, Linearized, Bindings, Less, Bound;
    LinearizedLength(tr, n, cs, ms);
    if i > 0 && Passed(cs[i - 1], k) {
      NotSkipped(tr, b, n, times, cs, ms, i - 1, k);
      DeliveredMore(cs, i, k);
    } else {
      WentMeans(tr, n, cs, ms, i);
      assert BoundThroughout(tr, ms[i], ms[i], k);
      assert NotBeyond(cs[i], k);
      LastDelivered(cs, i, k);
    }
  }

  lemma DeliveredMore(cs: seq<Cursor>, i: nat, k: Bytes)
    requires 0 < i < |cs| && Delivered(cs[..i], k)
    ensures Delivered(cs[..i + 1], k)
  {
    var j :| 0 <= j < |cs[..i]| && cs[..i][j].On? && cs[..i][j].node.kv.key == k;
    assert cs[..i + 1][j] == cs[..i][j];
  }

  lemma LastDelivered(cs: seq<Cursor>, i: nat, k: Bytes)
    requires i < |cs| && Passed(cs[i], k) && NotBeyond(cs[i], k)
    ensures Delivered(cs[..i + 1], k)
  {
    LessIsStrictTotalOrder();
    hide Less;
    assert cs[..i + 1][i] == cs[i];
  }

  /**
   seek and then any number of next, every pointer read of them at a moment of its own. The node that seek
   returns starts at a moment m during it.
   */
  lemma ScanMissesNothing(tr: Trace, target: Bytes, search: seq<nat>, v: Node, times: seq<nat>)
    returns (m: nat, ms: seq<nat>)
    requires TraceOk(tr) && Moments(tr, search) && Run(tr, target, search) == Done(v)
    requires Rising(times, search[|search| - 1], |tr| - 1)
    ensures search[0] <= m <= search[|search| - 1] && Bound(tr[m], v.kv) && !Less(v.kv.key, target)
    ensures var cs := Visits(tr, v, times);
            && Rising(ms, m, |tr| - 1) && Precede(ms, times)
            && (forall i :: 0 <= i < |cs| ==> cs[i] != Lost && (cs[i].On? ==> Bound(tr[ms[i]], cs[i].node.kv)))
            && AscendingFrom(tr[0], v, cs)
            && forall i, k ::
                 0 <= i < |cs| && BoundThroughout(tr, search[0], times[i], k) && !Less(k, target) &&
                   Passed(cs[i], k) ==>
                 k == v.kv.key || Delivered(cs[..i + 1], k)
  {
    hide Bound, AscendingFrom, Visits, Run, CanStand, TraceOk, IsFirstAtLeast, Passed, Delivered;
    hide BoundThroughout, Behind, Less, Inv, StandsSince;
    m := SearchLinearizes(tr, target, search);
    InvAt(tr, m);
    FoundIsBound(tr[m], target, v);
    StandsFrom(tr, m, v);
    ms := IterationMissesNothing(tr, m, v, times);
    var cs := Visits(tr, v, times);
    forall i, k |
      0 <= i < |cs| && BoundThroughout(tr, search[0], times[i], k) && !Less(k, target) && Passed(cs[i], k)
      ensures k == v.kv.key || Delivered(cs[..i + 1], k)
    {
      LaterBound(tr, search[0], m, times[i], k);
      BehindFound(tr, m, target, v, k);
    }
  }

  lemma StandsFrom(tr: Trace, m: nat, n: Node)
    requires m < |tr| && CanStand(tr[m], n)
    ensures StandsSince(tr, m, On(n))
  {
  }

  lemma LaterBound(tr: Trace, b: nat, m: nat, e: nat, k: Bytes)
    requires BoundThroughout(tr, b, e, k) && b <= m <= e
    ensures BoundThroughout(tr, m, e, k) && m < |tr| && |tr[m].at| == MAX_HEIGHT && k in Bindings(tr[m])
  {
    hide Bindings;
  }

  lemma BehindFound(tr: Trace, m: nat, target: Bytes, v: Node, k: Bytes)
    requires m < |tr| && Inv(tr[m]) && IsFirstAtLeast(tr[m], target, v) && !Less(k, target)
    requires k in Bindings(tr[m])
    ensures k == v.kv.key || Behind(tr[0], v, k)
  {
    hide Less, IsFirstAtLeast;
    FoundIsBound(tr[m], target, v);
  }

  /** When seek finds nothing, no key from the target on was bound all along. */
  lemma NothingFound(tr: Trace, target: Bytes, search: seq<nat>, k: Bytes)
    requires TraceOk(tr) && Moments(tr, search) && Run(tr, target, search) == Done(null) && !Less(k, target)
    ensures !BoundThroughout(tr, search[0], search[|search| - 1], k)
  {
    var m := SearchLinearizes(tr, target, search);
    hide Run, Less;
    assert Inv(tr[m]);
    assert k !in Bindings(tr[m]);
  }

  lemma FoundIsBound(s: Links, target: Bytes, v: Node)
    requires Inv(s) && IsFirstAtLeast(s, target, v)
    ensures CanStand(s, v) && Bound(s, v.kv) && v != s.head && !Less(v.kv.key, target)
    ensures forall k :: k in Bindings(s) && !Less(k, target) ==> k == v.kv.key || Less(v.kv.key, k)
  {
    hide Less;
    assert NodeWith(s.at[0], v.kv.key) == v;
  }

  // ---- when next passes just the current key ----

  ghost function FirstAbove(m: Entries, k: Bytes): KeyValue {
    First(map j | j in m && Less(k, j) :: m[j])
  }

  ghost function PairAt(c: Cursor): KeyValue {
    if c.On? then c.node.kv else EMPTY
  }

  lemma {:induction false} SlotStays(tr: Trace, u: nat, t: nat, n: Node)
    requires TraceOk(tr) && u <= t < |tr| && SlotSet(tr[u], n, 0)
    requires forall i :: u < i <= t ==> !Up(tr[i], 0, n)
    ensures SlotSet(tr[t], n, 0) && tr[t].next[n][0] == tr[u].next[n][0]
    decreases t - u
  {
    if u < t {
      SlotStays(tr, u, t - 1, n);
      hide Up, Less;
      assert Step(tr[t - 1], tr[t]);
      assert !Up(tr[t], 0, n);
      assert Inv(tr[t]);
    }
  }

  /**
   u is the last moment at which the node was linked. What next finds at time t is what followed its key then;
   so it passes just the current key exactly when the same pair still follows it.
   */
  lemma NextIsExactExactlyWhen(tr: Trace, u: nat, t: nat, n: Node)
    requires TraceOk(tr) && u <= t < |tr| && CanStand(tr[u], n) && n != tr[0].head
    requires forall i :: u < i <= t ==> !Up(tr[i], 0, n)
    ensures PairAt(Hop(tr[t], On(n))) == FirstAbove(Bindings(tr[u]), n.kv.key)
    ensures PairAt(Hop(tr[t], On(n))) == FirstAbove(Bindings(tr[t]), n.kv.key) <==>
            FirstAbove(Bindings(tr[u]), n.kv.key) == FirstAbove(Bindings(tr[t]), n.kv.key)
  {
    HeadNeverMoves(tr, 0, u);
    assert SlotOk(tr[u], 0, n);
    SlotStays(tr, u, t, n);
    var c := Hop(tr[u], On(n));
    assert Hop(tr[t], On(n)) == c;
    assert Follows(tr[u], n, c);
    FollowerIsFirst(tr[u], n, c);
  }

  lemma FollowerIsFirst(s: Links, n: Node, c: Cursor)
    requires Inv(s) && Follows(s, n, c) && n != s.head
    ensures PairAt(c) == FirstAbove(Bindings(s), n.kv.key)
  {
    FollowsMeans(s, n, c);
    LessIsStrictTotalOrder();
    hide Less, Follows, Inv, Bindings;
    var m := map j | j in Bindings(s) && Less(n.kv.key, j) :: Bindings(s)[j];
    if c.On? {
      FirstIs(m, c.node.kv.key);
    } else {
      assert forall j :: j in Bindings(s) && Less(n.kv.key, j) ==> Behind(s, n, j);
      assert m == map[];
    }
  }
}
