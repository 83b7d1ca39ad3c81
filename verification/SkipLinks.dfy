/**
 The shape of a skip list at one instant, as values: which node every slot points to, and which
 nodes each level holds. Every pointer store of the writer is a step from one such state to the next.
 Nothing here touches the heap; SkipLists ties the objects to these states.
 */
module SkipLinks {
  import opened Bytes
  import opened KeyValues

  const MAX_HEIGHT := 12

  type Height = h: nat | h <= MAX_HEIGHT

  /** A next pointer: memory that was never written, or a pointer, possibly null. */
  datatype Slot = Unset | To(node: Node?)

  class Node {
    const kv: KeyValue
    const height: Height
    var next: seq<Slot>

    constructor (kv: KeyValue, height: Height)
      ensures this.kv == kv && this.height == height
      ensures next == Blank(height)
    {
      this.kv, this.height := kv, height;
      next := Blank(height);
    }

    /** Only a slot that has been written may be read. */
    function Next(n: nat): Node?
      requires n < |next| && next[n].To?
      reads this
    {
      next[n].node
    }

    method SetNext(n: nat, node: Node?)
      requires n < |next|
      modifies this
      ensures next == old(next)[n := To(node)]
    {
      next := next[n := To(node)];
    }
  }

  function Blank(height: nat): seq<Slot> {
    seq(height, _ => Unset)
  }

  /** `at[l]` is the set of nodes linked at level `l`; the invariant below says the pointers agree. */
  datatype Links = Links(head: Node, next: map<Node, seq<Slot>>, maxHeight: nat, at: seq<set<Node>>)

  ghost predicate Before(s: Links, a: Node, b: Node) {
    b != s.head && (a == s.head || Less(a.kv.key, b.kv.key))
  }

  /** A reader may stand on `n` while it searches level `l`: it came down from `l` or a level above. */
  ghost predicate Up(s: Links, l: nat, n: Node)
    requires |s.at| == MAX_HEIGHT
  {
    n == s.head || exists h :: l <= h < MAX_HEIGHT && n in s.at[h]
  }

  /** `v` is the first node of `level` after `n`, or null when there is none. */
  ghost predicate IsSucc(s: Links, level: set<Node>, n: Node, v: Node?) {
    if v == null then
      forall m :: m in level ==> !Before(s, n, m)
    else
      v in level && Before(s, n, v) && forall m :: m in level && Before(s, n, m) ==> m == v || Before(s, v, m)
  }

  ghost function After(s: Links, x: Node): set<Node> {
    set n | n in s.next && Before(s, x, n)
  }

  lemma AfterShrinks(s: Links, x: Node, y: Node)
    requires y in s.next && Before(s, x, y)
    ensures After(s, y) < After(s, x)
  {
    LessIsStrictTotalOrder();
    hide Less;
    assert y in After(s, x) && y !in After(s, y);
  }

  ghost predicate SlotOk(s: Links, l: nat, n: Node)
    requires |s.at| == MAX_HEIGHT
  {
    l < MAX_HEIGHT && n in s.next && l < |s.next[n]| && s.next[n][l].To? &&
    IsSucc(s, s.at[l], n, s.next[n][l].node)
  }

  ghost predicate Distinct(level: set<Node>) {
    forall a, b :: a in level && b in level && a.kv.key == b.kv.key ==> a == b
  }

  ghost predicate Shape(s: Links) {
    && |s.at| == MAX_HEIGHT
    && 1 <= s.maxHeight <= MAX_HEIGHT
    && s.head in s.next && s.head.height == MAX_HEIGHT
    && (forall n :: n in s.next ==> |s.next[n]| == n.height)
    && (forall l, n :: 0 <= l < MAX_HEIGHT && n in s.at[l] ==>
       n in s.next && n != s.head && l < n.height && l < s.maxHeight)
    && (forall l :: 0 <= l < MAX_HEIGHT ==> Distinct(s.at[l]))
  }

  /** Holds after every single store: whatever slot a reader can reach is set and skips nothing of its level. */
  ghost predicate Inv(s: Links) {
    Shape(s) && forall n, l: nat :: n in s.next && l < MAX_HEIGHT && Up(s, l, n) ==> SlotOk(s, l, n)
  }

  ghost predicate NestedFrom(s: Links, i: nat)
    requires |s.at| == MAX_HEIGHT
  {
    forall l, h :: i <= l < h < MAX_HEIGHT ==> s.at[h] <= s.at[l]
  }

  /** Between writes every level holds exactly the nodes tall enough for it. */
  ghost predicate Quiescent(s: Links) {
    Inv(s) && forall l :: 0 <= l < MAX_HEIGHT ==> s.at[l] == set n | n in s.at[0] && l < n.height
  }

  /** What a lock-free reader may count on from one store to the next. */
  ghost predicate Step(s: Links, t: Links)
    requires Shape(s) && Shape(t)
  {
    t.head == s.head && s.next.Keys <= t.next.Keys &&
    forall n, l :: n in s.next && 0 <= l < |s.next[n]| ==>
      t.next[n][l] == s.next[n][l] || s.next[n][l] == Unset || (l < MAX_HEIGHT && Up(t, l, n))
  }

  ghost function Stored(s: Links, n: Node, l: nat, v: Node?, at: seq<set<Node>>): Links
    requires n in s.next && l < |s.next[n]|
  {
    s.(next := s.next[n := s.next[n][l := To(v)]], at := at)
  }

  // ---- the stores of put and remove, one lemma each ----

  /** From s to t no level changes, and no slot that was set. */
  ghost predicate SameLevels(s: Links, t: Links)
    requires Shape(s)
  {
    && t.at == s.at && t.head == s.head && s.maxHeight <= t.maxHeight <= MAX_HEIGHT
    && s.next.Keys <= t.next.Keys && (forall n :: n in t.next ==> |t.next[n]| == n.height)
    && forall n, l :: n in s.next && 0 <= l < |s.next[n]| ==> t.next[n][l] == s.next[n][l] || s.next[n][l] == Unset
  }

  lemma SameShape(s: Links, t: Links)
    requires Shape(s) && SameLevels(s, t)
    ensures Shape(t) && Step(s, t)
  {
    hide Less, Distinct;
    assert t.at == s.at;
    forall l | 0 <= l < MAX_HEIGHT
      ensures Distinct(t.at[l])
    {
      assert Distinct(s.at[l]);
    }
    forall l, n | 0 <= l < MAX_HEIGHT && n in t.at[l]
      ensures n in t.next && n != t.head && l < n.height && l < t.maxHeight
    {
      assert n in s.at[l];
    }
    assert t.head.height == MAX_HEIGHT && t.head in t.next;
    assert forall l :: 0 <= l < MAX_HEIGHT ==> Distinct(t.at[l]);
  }

  lemma SameLevelsKeep(s: Links, t: Links)
    requires Inv(s) && SameLevels(s, t)
    ensures Inv(t) && Step(s, t)
  {
    SameShape(s, t);
    hide Less, Distinct, Step;
    forall n, l: nat | n in t.next && l < MAX_HEIGHT && Up(t, l, n)
      ensures SlotOk(t, l, n)
    {
      assert Up(s, l, n);
      assert n in s.next;
      assert SlotOk(s, l, n);
      assert IsSucc(t, t.at[l], n, s.next[n][l].node);
    }
  }

  lemma AllocateKeeps(s: Links, x: Node)
    requires Inv(s) && x !in s.next
    ensures var t := s.(next := s.next[x := Blank(x.height)]); Inv(t) && Step(s, t)
  {
    hide Less, Up, SlotOk, Distinct;
    SameLevelsKeep(s, s.(next := s.next[x := Blank(x.height)]));
  }

  lemma RaiseKeeps(s: Links, height: nat)
    requires Inv(s) && s.maxHeight <= height <= MAX_HEIGHT
    ensures var t := s.(maxHeight := height); Inv(t) && Step(s, t)
  {
    hide Less, Up, SlotOk, Distinct;
    SameLevelsKeep(s, s.(maxHeight := height));
  }

  /** x->setNext(i, ...) before x is linked at level i. */
  lemma PrepareKeeps(s: Links, x: Node, i: nat, v: Node?)
    requires Inv(s) && x in s.next && i < |s.next[x]| && s.next[x][i] == Unset
    ensures var t := Stored(s, x, i, v, s.at); Inv(t) && Step(s, t)
  {
    hide Less, Up, SlotOk, Distinct;
    SameLevelsKeep(s, Stored(s, x, i, v, s.at));
  }

  /** Splicing x in between p and its successor moves no other node's successor. */
  lemma SuccAfterInsert(s: Links, level: set<Node>, p: Node, x: Node, v: Node?, n: Node, w: Node?)
    requires s.head !in level && x != s.head && Distinct(level)
    requires (p == s.head || p in level) && IsSucc(s, level, p, v)
    requires Before(s, p, x) && (v != null ==> Before(s, x, v))
    requires (n == s.head || n in level) && IsSucc(s, level, n, w)
    ensures IsSucc(s, level + {x}, n, if n == p then x else w)
    ensures IsSucc(s, level + {x}, x, v)
  {
    LessIsStrictTotalOrder();
    hide Less;
  }

  ghost predicate SlotSet(s: Links, n: Node, l: nat) {
    n in s.next && l < |s.next[n]| && s.next[n][l].To?
  }

  lemma SplicedDistinct(s: Links, level: set<Node>, p: Node, x: Node, v: Node?)
    requires s.head !in level && x != s.head && Distinct(level)
    requires (p == s.head || p in level) && IsSucc(s, level, p, v)
    requires Before(s, p, x) && (v != null ==> Before(s, x, v))
    ensures Distinct(level + {x})
  {
    LessIsStrictTotalOrder();
    hide Less;
  }

  lemma LevelStoreShape(s: Links, p: Node, i: nat, v: Node?, level: set<Node>)
    requires Shape(s) && i < s.maxHeight && SlotSet(s, p, i) && (p == s.head || p in level)
    requires forall n :: n in level ==> n in s.next && n != s.head && i < n.height
    requires Distinct(level)
    ensures var t := Stored(s, p, i, v, s.at[i := level]); Shape(t) && Step(s, t)
  {
    hide Less;
    var t := Stored(s, p, i, v, s.at[i := level]);
    assert p == s.head || p in t.at[i];
    assert Up(t, i, p);
  }

  /** A store to slot (p, i) that turns level i into `level` is sound once it is right about level i itself. */
  lemma LevelStoreKeeps(s: Links, p: Node, i: nat, v: Node?, level: set<Node>)
    requires Inv(s) && i < s.maxHeight && SlotSet(s, p, i) && (p == s.head || p in level)
    requires forall n :: n in level ==> n in s.next && n != s.head && i < n.height
    requires forall l, n :: 0 <= l < i && n in level && n !in s.at[i] ==> n in s.at[l]
    requires Distinct(level)
    requires forall n :: n in s.next && (n == s.head || n in level || Up(s, i + 1, n)) ==>
               SlotSet(s, n, i) && IsSucc(s, level, n, if n == p then v else s.next[n][i].node)
    ensures var t := Stored(s, p, i, v, s.at[i := level]); Inv(t) && Step(s, t)
  {
    hide Less;
    var t := Stored(s, p, i, v, s.at[i := level]);
    LevelStoreShape(s, p, i, v, level);
    forall n, l: nat | n in t.next && l < MAX_HEIGHT && Up(t, l, n)
      ensures SlotOk(t, l, n)
    {
      if l == i {
        assert n == s.head || n in level || Up(s, i + 1, n) by {
          if n != s.head && n !in level {
            var h :| l <= h < MAX_HEIGHT && n in t.at[h];
            assert n in s.at[h];
          }
        }
        assert IsSucc(t, level, n, t.next[n][i].node);
      } else {
        assert Up(s, l, n) by {
          if n != s.head {
            var h :| l <= h < MAX_HEIGHT && n in t.at[h];
            assert n in s.at[h] || n in s.at[l];
          }
        }
        assert SlotOk(s, l, n);
        assert t.next[n][l] == s.next[n][l] && t.at[l] == s.at[l];
        assert IsSucc(t, t.at[l], n, t.next[n][l].node);
      }
    }
  }

  /** prev[i]->setNext(i, x): the level-i publication of an inserted node. */
  lemma InsertKeeps(s: Links, p: Node, x: Node, i: nat)
    requires Inv(s) && i < s.maxHeight && NestedFrom(s, i)
    requires x in s.next && x != s.head && i < x.height && SlotSet(s, p, i) && s.next[x][i] == s.next[p][i]
    requires p == s.head || p in s.at[i]
    requires Before(s, p, x) && (s.next[p][i].node != null ==> Before(s, x, s.next[p][i].node))
    requires forall l :: 0 <= l < i ==> x in s.at[l]
    ensures var t := Stored(s, p, i, x, s.at[i := s.at[i] + {x}]); Inv(t) && Step(s, t) && NestedFrom(t, i + 1)
  {
    hide Less;
    var v := s.next[p][i].node;
    var level := s.at[i] + {x};
    assert Up(s, i, p);
    assert SlotOk(s, i, p);
    SplicedDistinct(s, s.at[i], p, x, v);
    forall n | n in s.next && (n == s.head || n in level || Up(s, i + 1, n))
      ensures SlotSet(s, n, i) && IsSucc(s, level, n, if n == p then x else s.next[n][i].node)
    {
      if n == x {
        SuccAfterInsert(s, s.at[i], p, x, v, p, v);
      } else {
        StandsOnLevel(s, i, n);
        SuccAfterInsert(s, s.at[i], p, x, v, n, s.next[n][i].node);
      }
    }
    LevelStoreKeeps(s, p, i, x, level);
  }

  lemma StandsOnLevel(s: Links, i: nat, n: Node)
    requires Inv(s) && i < MAX_HEIGHT && NestedFrom(s, i) && n in s.next
    requires n == s.head || n in s.at[i] || Up(s, i + 1, n)
    ensures n == s.head || n in s.at[i]
    ensures SlotOk(s, i, n)
  {
    hide Less;
    assert Up(s, i, n);
  }

  /** prev[i]->setNext(i, r): r takes the place of x, which holds an equal key, at level i. */
  lemma ReplaceKeeps(s: Links, p: Node, x: Node, r: Node, i: nat)
    requires Inv(s) && i < s.maxHeight && NestedFrom(s, i)
    requires r in s.next && r != s.head && r.height == x.height && r.kv.key == x.kv.key && r !in s.at[i]
    requires SlotSet(s, p, i) && s.next[p][i] == To(x) && (p == s.head || p in s.at[i])
    requires x in s.at[i] && i < |s.next[r]| && s.next[r][i] == s.next[x][i]
    requires forall l :: 0 <= l < i ==> r in s.at[l]
    ensures var t := Stored(s, p, i, r, s.at[i := s.at[i] - {x} + {r}]); Inv(t) && Step(s, t) && NestedFrom(t, i + 1)
  {
    hide Less;
    var level := s.at[i] - {x} + {r};
    StandsOnLevel(s, i, p);
    StandsOnLevel(s, i, x);
    forall n | n in s.next && (n == s.head || n in level || Up(s, i + 1, n))
      ensures SlotSet(s, n, i) && IsSucc(s, level, n, if n == p then r else s.next[n][i].node)
    {
      if n == r {
        SuccAfterReplace(s, s.at[i], p, x, r, x, s.next[x][i].node);
      } else {
        StandsOnLevel(s, i, n);
        SuccAfterReplace(s, s.at[i], p, x, r, n, s.next[n][i].node);
      }
    }
    assert p != x by { LessIsStrictTotalOrder(); }
    ReplacedLevel(s, x, r, i);
    hide IsSucc;
    LevelStoreKeeps(s, p, i, r, level);
  }

  lemma ReplacedLevel(s: Links, x: Node, r: Node, i: nat)
    requires Shape(s) && i < s.maxHeight && x in s.at[i] && r in s.next && r != s.head && r.height == x.height &&
             r.kv.key == x.kv.key
    ensures var level := s.at[i] - {x} + {r};
            Distinct(level) && forall n :: n in level ==> n in s.next && n != s.head && i < n.height
  {
    assert Distinct(s.at[i]);
  }

  lemma SuccAfterReplace(s: Links, level: set<Node>, p: Node, x: Node, r: Node, n: Node, w: Node?)
    requires s.head !in level && r != s.head && r !in level && x in level && Distinct(level)
    requires r.kv.key == x.kv.key
    requires (p == s.head || p in level) && IsSucc(s, level, p, x)
    requires (n == s.head || n in level) && IsSucc(s, level, n, w)
    ensures IsSucc(s, level - {x} + {r}, n, if n == p then r else w)
    ensures n == x ==> IsSucc(s, level - {x} + {r}, r, w)
  {
    LessIsStrictTotalOrder();
    hide Less;
  }

  /** prev[i]->setNext(i, x->next(i)): x leaves level i. */
  lemma UnlinkKeeps(s: Links, p: Node, x: Node, i: nat)
    requires Inv(s) && i < s.maxHeight && NestedFrom(s, i)
    requires SlotSet(s, p, i) && s.next[p][i] == To(x) && (p == s.head || p in s.at[i])
    requires x in s.at[i]
    ensures SlotSet(s, x, i)
    ensures var t := Stored(s, p, i, s.next[x][i].node, s.at[i := s.at[i] - {x}]);
            Inv(t) && Step(s, t) && NestedFrom(t, i + 1)
  {
    hide Less;
    var level := s.at[i] - {x};
    StandsOnLevel(s, i, p);
    StandsOnLevel(s, i, x);
    forall n | n in s.next && (n == s.head || n in level || Up(s, i + 1, n))
      ensures SlotSet(s, n, i) && IsSucc(s, level, n, if n == p then s.next[x][i].node else s.next[n][i].node)
    {
      StandsOnLevel(s, i, n);
      SuccAfterUnlink(s, s.at[i], p, x, s.next[x][i].node, n, s.next[n][i].node);
    }
    assert p != x by { LessIsStrictTotalOrder(); }
    assert Distinct(s.at[i]);
    assert Distinct(level);
    hide IsSucc;
    LevelStoreKeeps(s, p, i, s.next[x][i].node, level);
  }

  lemma SuccAfterUnlink(s: Links, level: set<Node>, p: Node, x: Node, v: Node?, n: Node, w: Node?)
    requires s.head !in level && x in level && Distinct(level)
    requires (p == s.head || p in level) && IsSucc(s, level, p, x) && IsSucc(s, level, x, v)
    requires (n == s.head || n in level) && IsSucc(s, level, n, w)
    ensures IsSucc(s, level - {x}, n, if n == p then v else w)
  {
    LessIsStrictTotalOrder();
    hide Less;
  }
}
