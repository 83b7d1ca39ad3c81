/** The merged view of several segments: a k-way merge in which the newest segment wins. */
module MultiSegments {
  import opened Bytes
  import opened KeyValues
  import opened LookupIterators
  import opened Views

  /** No segment holds the empty key, which every iterator uses as its end marker. */
  ghost predicate NoEmptyKey(ms: seq<Entries>) {
    forall i :: 0 <= i < |ms| ==> [] !in ms[i]
  }

  /** No iterator writes to anything another one depends on. */
  ghost predicate Independent(iterators: seq<LookupIterator>) {
    forall i, j :: 0 <= i < |iterators| && 0 <= j < |iterators| && i != j ==> iterators[i].Own() !! iterators[j].Foot()
  }

  /** MultiSegment::Iterator; iterator i belongs to the i-th oldest segment. */
  class MultiIterator {
    const iterators: seq<LookupIterator>
    ghost const repr: set<object>
    ghost const own: set<object>

    /** What each of the iterators still has to deliver. */
    ghost var rems: seq<Entries>

    ghost predicate Valid()
      reads this, repr
    {
      && own <= repr && this !in repr && |rems| == |iterators| && Independent(iterators)
      && (forall i :: 0 <= i < |iterators| ==> iterators[i].Foot() <= repr && iterators[i].Own() <= own)
      && (forall i :: 0 <= i < |iterators| ==> iterators[i].Valid() && iterators[i].Rem() == rems[i])
    }

    constructor (iterators: seq<LookupIterator>, ghost rems: seq<Entries>, ghost own: set<object>,
                 ghost repr: set<object>)
      requires |rems| == |iterators| &&
               forall i :: 0 <= i < |iterators| ==> iterators[i].Valid() && iterators[i].Rem() == rems[i]
      requires Independent(iterators)
      requires forall i :: 0 <= i < |iterators| ==> iterators[i].Own() <= own && iterators[i].Foot() <= own + repr
      ensures this.iterators == iterators && this.own == own && this.repr == own + repr && Valid() && this.rems == rems
    {
      hide LookupIterator.Own, LookupIterator.Foot, LookupIterator.Valid, LookupIterator.Rem, Independent;
      this.iterators, this.own, this.repr, this.rems := iterators, own, own + repr, rems;
    }

    /** next on one of the iterators leaves the others as they are. */
    method NextOf(i: nat) returns (kv: KeyValue)
      requires Valid() && i < |iterators|
      modifies `rems, own
      ensures Valid()
      ensures rems == old(rems)[i := old(rems[i]) - {kv.key}]
      ensures kv.key == First(old(rems[i])).key && (old(rems[i]) != map[] ==> kv == First(old(rems[i])))
    {
      hide LookupIterator.Rem, LookupIterator.Valid;
      kv := iterators[i].Next();
      rems := rems[i := rems[i] - {kv.key}];
    }

    method PeekOf(i: nat) returns (key: Bytes)
      requires Valid() && i < |iterators|
      modifies own
      ensures Valid()
      ensures key == First(rems[i]).key
    {
      key := iterators[i].PeekKey();
    }

    /** The first loop of next: the newest of the iterators that stand on the smallest key. */
    method FindLowest() returns (currentIndex: int)
      requires Valid() && NoEmptyKey(rems)
      modifies own
      ensures Valid()
      ensures Lowest(rems, 0, currentIndex)
    {
      hide CompareTo, LookupIterator.Valid, LookupIterator.Rem, LookupIterator.Own, LookupIterator.Foot, Independent;
      hide Lowest, NoEmptyKey;
      ghost var was := rems;
      LowestOfNone(was);
      currentIndex := -1;
      var lowest: Bytes := [];
      var i := |iterators|;
      while i > 0
        invariant 0 <= i <= |iterators| && Valid() && rems == was
        invariant Lowest(was, i, currentIndex) && -1 <= currentIndex < |was|
        invariant lowest == if currentIndex == -1 then [] else First(was[currentIndex]).key
      {
        i := i - 1;
        var key := PeekOf(i);
        LowestStep(was, i, currentIndex);
        if key == [] {
          continue;
        }
        if lowest == [] || CompareTo(key, lowest) < 0 {
          lowest, currentIndex := key, i;
        }
      }
    }

    /** The inner loop of next: one iterator is moved past the key that has been delivered. */
    method AdvancePast(i: nat, lowest: Bytes)
      requires Valid() && i < |iterators| && [] !in rems[i]
      requires forall k :: k in rems[i] ==> !Less(k, lowest)
      modifies `rems, own
      ensures Valid() && rems == old(rems)[i := old(rems[i]) - {lowest}]
    {
      hide Less, CompareTo, LookupIterator.Valid, LookupIterator.Rem, LookupIterator.Own, LookupIterator.Foot;
      hide Independent;
      ghost var was := rems;
      while true
        invariant Valid() && (rems == was || rems == was[i := was[i] - {lowest}])
        decreases |rems[i]|
      {
        ghost var rem := rems[i];
        var key := PeekOf(i);
        AtLowest(rem, lowest, key);
        if key != [] && CompareTo(lowest, key) >= 0 {
          var _ := NextOf(i);
        } else {
          break;
        }
      }
    }

    method Next() returns (kv: KeyValue)
      requires Valid() && NoEmptyKey(rems)
      modifies `rems, own
      ensures Valid() && NoEmptyKey(rems)
      ensures kv == First(Merged(old(rems))) && Merged(rems) == Merged(old(rems)) - {kv.key}
    {
      hide Lowest, Less, Merged, LookupIterator.Valid, LookupIterator.Rem, LookupIterator.Own, LookupIterator.Foot;
      hide Independent;
      ghost var was := rems;
      var currentIndex := FindLowest();
      LowestIsFirst(was, currentIndex);
      if currentIndex == -1 {
        return EMPTY;
      }
      kv := NextOf(currentIndex);
      var lowest := kv.key;
      var i := |iterators|;
      while i > 0
        invariant 0 <= i <= |iterators| && Valid()
        invariant forall j :: 0 <= j < |was| ==>
                    rems[j] == if j >= i || j == currentIndex then was[j] - {lowest} else was[j]
      {
        i := i - 1;
        if i == currentIndex {
          continue;
        }
        AdvancePast(i, lowest);
      }
      MergedMinus(was, rems, lowest);
    }
  }

  /** Among the maps from i on, `index` is the newest whose first key is the smallest; -1 when all are empty. */
  ghost predicate Lowest(ms: seq<Entries>, i: nat, index: int) {
    if index == -1 then forall j :: i <= j < |ms| ==> ms[j] == map[]
    else
      && i <= index < |ms| && ms[index] != map[]
      && (forall j :: i <= j < |ms| && ms[j] != map[] ==> !Less(First(ms[j]).key, First(ms[index]).key))
      && (forall j :: index < j < |ms| && ms[j] != map[] ==> Less(First(ms[index]).key, First(ms[j]).key))
  }

  lemma LowestStep(ms: seq<Entries>, i: nat, index: int)
    requires i < |ms| && Lowest(ms, i + 1, index) && NoEmptyKey(ms)
    ensures First(ms[i]).key == [] <==> ms[i] == map[]
    ensures index != -1 ==> First(ms[index]).key != []
    ensures ms[i] == map[] ==> Lowest(ms, i, index)
    ensures ms[i] != map[] && (index == -1 || Less(First(ms[i]).key, First(ms[index]).key)) ==> Lowest(ms, i, i)
    ensures ms[i] != map[] && index != -1 && !Less(First(ms[i]).key, First(ms[index]).key) ==> Lowest(ms, i, index)
  {
    LessIsStrictTotalOrder();
    hide Less;
  }

  lemma LowestOfNone(ms: seq<Entries>)
    ensures Lowest(ms, |ms|, -1)
  {
  }

  lemma AtLowest(rem: Entries, lowest: Bytes, key: Bytes)
    requires [] !in rem && key == First(rem).key
    requires forall k :: k in rem ==> !Less(k, lowest)
    ensures key != [] && CompareTo(lowest, key) >= 0 ==> key == lowest && key in rem && |rem - {lowest}| < |rem|
    ensures !(key != [] && CompareTo(lowest, key) >= 0) ==> lowest !in rem && rem - {lowest} == rem
  {
    LessIsStrictTotalOrder();
    assert Less(lowest, key) <==> CompareTo(lowest, key) < 0;
    hide Less, CompareTo;
    if rem != map[] && key == lowest {
      assert (rem - {lowest}).Keys == rem.Keys - {lowest};
    }
    if rem != map[] && key != lowest {
      assert Less(lowest, key);
      assert lowest !in rem;
    }
  }

  lemma LowestIsFirst(ms: seq<Entries>, index: int)
    requires Lowest(ms, 0, index) && NoEmptyKey(ms)
    ensures index == -1 ==> Merged(ms) == map[]
    ensures index != -1 ==> 0 <= index < |ms| && ms[index] != map[] && First(Merged(ms)) == First(ms[index])
    ensures index != -1 ==> forall j, k :: 0 <= j < |ms| && k in ms[j] ==> !Less(k, First(ms[index]).key)
  {
    hide Less, Merged;
    if index == -1 {
      AllEmpty(ms);
    } else {
      var low := First(ms[index]).key;
      forall j, k | 0 <= j < |ms| && k in ms[j]
        ensures !Less(k, low)
      {
        FirstIsLow(ms[j], k, low);
      }
      assert NewestAt(ms, low, index) by { NotInNewer(ms, index); }
      MergedIsNewest(ms, low, index);
      forall k | k in Merged(ms)
        ensures !Less(k, low)
      {
        var j := MergedHasNewest(ms, k);
      }
      FirstIs(Merged(ms), low);
    }
  }

  lemma AllEmpty(ms: seq<Entries>)
    requires forall j :: 0 <= j < |ms| ==> ms[j] == map[]
    ensures Merged(ms) == map[]
  {
    if k :| k in Merged(ms) {
      var j := MergedHasNewest(ms, k);
      assert false;
    }
  }

  lemma FirstIsLow(m: Entries, k: Bytes, low: Bytes)
    requires k in m && !Less(First(m).key, low)
    ensures !Less(k, low)
  {
    LessIsStrictTotalOrder();
    hide Less;
  }

  lemma NotInNewer(ms: seq<Entries>, index: nat)
    requires Lowest(ms, 0, index)
    ensures forall j :: index < j < |ms| ==> First(ms[index]).key !in ms[j]
  {
    forall j | index < j < |ms|
      ensures First(ms[index]).key !in ms[j]
    {
      if ms[j] != map[] {
        LessIsStrictTotalOrder();
        hide Less;
        assert forall k :: k in ms[j] ==> !Less(k, First(ms[j]).key);
      }
    }
  }
}
