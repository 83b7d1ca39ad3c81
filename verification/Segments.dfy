/** Segments of both kinds, and the multi-segment that presents a list of them as one. */
module Segments {
  import opened Bytes
  import opened KeyValues
  import opened KeyFile
  import opened DiskSegments
  import opened DiskIterators
  import opened LookupIterators
  import opened MemorySegments
  import opened Listings
  import opened MultiSegments
  import opened Views

  /** A segment on disk, compared by identity like every segment reference. */
  class DiskSegment {
    const files: DiskFiles
    ghost const L: Layout

    ghost predicate Valid() {
      Holds(files, L) && IsPacked(L)
    }

    ghost function Contents(): Entries {
      MapOf(L.entries)
    }

    constructor (files: DiskFiles, ghost L: Layout)
      requires Holds(files, L) && IsPacked(L)
      ensures this.files == files && this.L == L && Valid()
    {
      this.files, this.L := files, L;
    }

    /** lookup: an empty key file has an iterator of its own. */
    method Lookup(lower: Bytes, upper: Bytes) returns (itr: LookupIterator)
      requires Valid()
      ensures itr.Valid() && fresh(itr.Own()) && itr.Foot() <= itr.Own()
      ensures itr.Rem() == Emitted(Contents(), lower, upper)
    {
      hide Holds, Ahead, Emitted;
      DiskSegments.EmptyFile(files, L);
      HoldsAscending(files, L);
      AllAhead(L.entries, lower, upper);
      AheadOfNothing(L.entries, lower, upper);
      if |files.keyFile| == 0 {
        return Empty;
      }
      var garbage: Bytes := *;
      var d := new DiskIterator(files, lower, upper, garbage, L);
      return Disk(d);
    }
  }

  lemma AheadOfNothing(es: seq<KeyValue>, lower: Bytes, upper: Bytes)
    ensures es == [] ==> Ahead(es, 0, lower, upper) == map[]
  {
  }

  lemma NothingStored(files: DiskFiles, L: Layout)
    requires Holds(files, L)
    ensures L.entries == [] <==> MapOf(L.entries) == map[]
  {
    hide IsKeyFile, IndexOf, DataBytes, DataOff, Less;
    if L.entries != [] {
      MapHas(L.entries, 0);
    }
  }

  datatype Segment = InMemory(m: MemorySegment) | OnDisk(d: DiskSegment) {
    ghost function Repr(): set<object>
      reads if InMemory? then {m} else {}
    {
      if InMemory? then m.Repr + {m} else {}
    }

    ghost predicate Valid()
      reads Repr()
    {
      match this
      case InMemory(m) => m.Valid()
      case OnDisk(d) => d.Valid()
    }

    ghost function Contents(): Entries
      requires Valid()
      reads Repr()
    {
      match this
      case InMemory(m) => m.Contents()
      case OnDisk(d) => d.Contents()
    }

    function LowerID(): nat {
      match this
      case InMemory(m) => m.id
      case OnDisk(d) => d.files.lowerID
    }

    function UpperID(): nat {
      match this
      case InMemory(m) => m.id
      case OnDisk(d) => d.files.upperID
    }

    /** size: bytes held in memory, or the lengths of the two files. */
    function Size(): nat
      reads Repr()
    {
      match this
      case InMemory(m) => m.bytes
      case OnDisk(d) => |d.files.keyFile| + |d.files.dataFile|
    }

    method Get(key: Bytes) returns (r: Fetched)
      requires Valid()
      ensures r == if OnDisk? && Contents() == map[] then UnmappedRead else Value(ValueIn(Contents(), key))
    {
      match this
      case InMemory(m) =>
        var value := m.Get(key);
        r := Value(value);
      case OnDisk(d) =>
        NothingStored(d.files, d.L);
        r := DiskSegments.Get(d.files, key, d.L);
    }

    method Lookup(lower: Bytes, upper: Bytes) returns (itr: LookupIterator)
      requires Valid()
      ensures itr.Valid() && fresh(itr.Own()) && itr.Foot() <= itr.Own() + Repr()
      ensures itr.Rem() == Delivered(Contents(), OnDisk?, lower, upper)
    {
      match this
      case InMemory(m) =>
        itr := m.Lookup(lower, upper);
      case OnDisk(d) =>
        itr := d.Lookup(lower, upper);
    }
  }

  /** What a segment's iterator delivers in all; one on disk does not mind the upper bound at the lower one. */
  ghost function Delivered(m: Entries, onDisk: bool, lower: Bytes, upper: Bytes): Entries {
    if onDisk then Emitted(m, lower, upper) else Range(m, lower, upper)
  }

  /** The segments and what they hold, as values. */
  ghost function Items(segments: seq<Segment>, ms: seq<Entries>): (items: seq<Item>)
    requires |ms| == |segments|
    ensures |items| == |segments|
  {
    if segments == [] then []
    else
      var n := |segments| - 1;
      Items(segments[..n], ms[..n]) + [ItemOf(segments[n], ms[n])]
  }

  ghost function ItemOf(s: Segment, m: Entries): Item {
    Item(s.LowerID(), s.UpperID(), m, s.OnDisk?)
  }

  lemma ItemsAppend(segments: seq<Segment>, ms: seq<Entries>, s: Segment, m: Entries)
    requires |ms| == |segments|
    ensures Items(segments + [s], ms + [m]) == Items(segments, ms) + [ItemOf(s, m)]
  {
    assert (segments + [s])[..|segments|] == segments && (ms + [m])[..|ms|] == ms;
  }

  lemma {:induction false} EntriesOfItems(segments: seq<Segment>, ms: seq<Entries>)
    requires |ms| == |segments|
    ensures EntriesOf(Items(segments, ms)) == ms
    decreases |ms|
  {
    if ms != [] {
      var n := |ms| - 1;
      EntriesOfItems(segments[..n], ms[..n]);
      var items := Items(segments, ms);
      assert items[..n] == Items(segments[..n], ms[..n]);
    }
  }

  lemma {:induction false} ItemsConcat(a: seq<Segment>, am: seq<Entries>, b: seq<Segment>, bm: seq<Entries>)
    requires |am| == |a| && |bm| == |b|
    ensures Items(a + b, am + bm) == Items(a, am) + Items(b, bm)
    decreases |b|
  {
    if b == [] {
      assert a + b == a && am + bm == am;
    } else {
      var n := |b| - 1;
      ItemsConcat(a, am, b[..n], bm[..n]);
      ItemsAppend(a + b[..n], am + bm[..n], b[n], bm[n]);
      assert a + b[..n] + [b[n]] == a + b && am + bm[..n] + [bm[n]] == am + bm;
    }
  }

  lemma {:induction false} ItemsAt(segments: seq<Segment>, ms: seq<Entries>, i: nat)
    requires |ms| == |segments| && i < |ms|
    ensures Items(segments, ms)[i] == ItemOf(segments[i], ms[i])
    decreases |ms|
  {
    var n := |ms| - 1;
    if i < n {
      ItemsAt(segments[..n], ms[..n], i);
    }
  }

  // ---- the multi-segment ----

  /** The segments, oldest first, hold the maps ms, and everything they consist of is in repr. */
  ghost predicate Hold(segments: seq<Segment>, ms: seq<Entries>, repr: set<object>)
    reads repr
  {
    && |ms| == |segments|
    && (forall i :: 0 <= i < |segments| && segments[i].InMemory? ==> segments[i].m in repr)
    && (forall i :: 0 <= i < |segments| ==> segments[i].Repr() <= repr)
    && (forall i :: 0 <= i < |segments| ==> segments[i].Valid() && segments[i].Contents() == ms[i])
  }

  lemma HoldsAt(segments: seq<Segment>, ms: seq<Entries>, repr: set<object>, i: nat)
    requires Hold(segments, ms, repr) && i < |segments|
    ensures |ms| == |segments| && segments[i].Valid() && segments[i].Contents() == ms[i] && segments[i].Repr() <= repr
  {
  }

  /** MultiSegment::get */
  method MultiGet(segments: seq<Segment>, key: Bytes, ghost ms: seq<Entries>, ghost repr: set<object>)
    returns (r: Fetched)
    requires |ms| == |segments| && Hold(segments, ms, repr)
    ensures r == FetchedFrom(Items(segments, ms), key)
  {
    hide Hold, Segment.Valid, Segment.Contents, Segment.Repr, MemorySegment.Valid, ValueIn;
    assert ms[..|ms|] == ms && segments[..|segments|] == segments;
    var i := |segments|;
    while i > 0
      invariant 0 <= i <= |segments|
      invariant FetchedFrom(Items(segments, ms), key) == FetchedFrom(Items(segments[..i], ms[..i]), key)
    {
      i := i - 1;
      assert ms[..i + 1][..i] == ms[..i] && segments[..i + 1][..i] == segments[..i];
      HoldsAt(segments, ms, repr, i);
      FetchedStep(segments[..i + 1], ms[..i + 1], key);
      r := segments[i].Get(key);
      if r == UnmappedRead || r.value != [] {
        return;
      }
    }
    return Value([]);
  }

  lemma FetchedStep(segments: seq<Segment>, ms: seq<Entries>, key: Bytes)
    requires |ms| == |segments| && segments != []
    ensures var n := |segments| - 1;
            FetchedFrom(Items(segments, ms), key) ==
            if segments[n].OnDisk? && ms[n] == map[] then UnmappedRead
            else if ValueIn(ms[n], key) != [] then Value(ValueIn(ms[n], key))
            else FetchedFrom(Items(segments[..n], ms[..n]), key)
  {
    var items := Items(segments, ms);
    assert items[..|items| - 1] == Items(segments[..|segments| - 1], ms[..|segments| - 1]);
  }

  /** Iterators over the first of the segments, each with objects of its own in own and otherwise depending on repr. */
  ghost predicate Ready(iterators: seq<LookupIterator>, rems: seq<Entries>, own: set<object>, repr: set<object>)
    reads own, repr
  {
    && |iterators| == |rems|
    && (forall i :: 0 <= i < |iterators| ==>
       iterators[i].Own() <= own && iterators[i].Foot() <= iterators[i].Own() + repr)
    && (forall i, j :: 0 <= i < |iterators| && 0 <= j < |iterators| && i != j ==>
       iterators[i].Own() !! iterators[j].Own())
    && (forall i :: 0 <= i < |iterators| ==> iterators[i].Valid() && iterators[i].Rem() == rems[i])
  }

  lemma NoneReady(repr: set<object>)
    ensures Ready([], [], {}, repr)
  {
  }

  lemma ReadyGrows(iterators: seq<LookupIterator>, rems: seq<Entries>, own: set<object>, repr: set<object>,
                   it: LookupIterator)
    requires Ready(iterators, rems, own, repr) && it.Valid() && it.Own() !! own && it.Foot() <= it.Own() + repr
    ensures Ready(iterators + [it], rems + [it.Rem()], own + it.Own(), repr)
  {
    hide LookupIterator.Own, LookupIterator.Foot, LookupIterator.Valid, LookupIterator.Rem;
  }

  lemma ReadyIsIndependent(iterators: seq<LookupIterator>, rems: seq<Entries>, own: set<object>, repr: set<object>)
    requires Ready(iterators, rems, own, repr) && own !! repr
    ensures |rems| == |iterators| &&
            forall i :: 0 <= i < |iterators| ==> iterators[i].Valid() && iterators[i].Rem() == rems[i]
    ensures Independent(iterators)
    ensures forall i :: 0 <= i < |iterators| ==> iterators[i].Own() <= own && iterators[i].Foot() <= own + repr
  {
    hide LookupIterator.Own, LookupIterator.Foot, LookupIterator.Valid, LookupIterator.Rem;
  }

  ghost function DeliveredAll(segments: seq<Segment>, ms: seq<Entries>, lower: Bytes, upper: Bytes): (rs: seq<Entries>)
    requires |ms| == |segments|
    ensures |rs| == |ms| && forall i :: 0 <= i < |rs| ==> rs[i] == Delivered(ms[i], segments[i].OnDisk?, lower, upper)
  {
    seq(|ms|, i requires 0 <= i < |ms| => Delivered(ms[i], segments[i].OnDisk?, lower, upper))
  }

  /** MultiSegment::lookup: one iterator per segment. */
  method MultiLookup(segments: seq<Segment>, lower: Bytes, upper: Bytes, ghost ms: seq<Entries>,
                     ghost repr: set<object>)
    returns (itr: MultiIterator)
    requires |ms| == |segments| && Hold(segments, ms, repr)
    ensures itr.Valid() && fresh(itr) && fresh(itr.own) && itr.repr == itr.own + repr
    ensures itr.rems == DeliveredAll(segments, ms, lower, upper)
  {
    hide Independent, Delivered, Ready, Hold, Segment.Valid, Segment.Contents, Segment.Repr;
    hide LookupIterator.Valid, LookupIterator.Rem, LookupIterator.Own, LookupIterator.Foot;
    var iterators: seq<LookupIterator> := [];
    ghost var own: set<object> := {};
    ghost var rems: seq<Entries> := [];
    NoneReady(repr);
    for n := 0 to |segments|
      invariant fresh(own) && own !! repr && Ready(iterators, rems, own, repr)
      invariant |rems| == n && forall i :: 0 <= i < n ==> rems[i] == Delivered(ms[i], segments[i].OnDisk?, lower, upper)
    {
      HoldsAt(segments, ms, repr, n);
      var it := segments[n].Lookup(lower, upper);
      ReadyGrows(iterators, rems, own, repr, it);
      iterators, rems, own := iterators + [it], rems + [it.Rem()], own + it.Own();
    }
    ReadyIsIndependent(iterators, rems, own, repr);
    itr := new MultiIterator(iterators, rems, own, repr);
    assert itr.rems == DeliveredAll(segments, ms, lower, upper);
  }

  lemma NoEmptyKeyDelivered(segments: seq<Segment>, ms: seq<Entries>, lower: Bytes, upper: Bytes)
    requires |ms| == |segments| && NoEmptyKey(ms)
    ensures NoEmptyKey(DeliveredAll(segments, ms, lower, upper))
  {
  }

  /** A segment on disk holds the lower bound itself, and the upper one lies below it. */
  ghost predicate DeliversTooMuch(segments: seq<Segment>, ms: seq<Entries>, lower: Bytes, upper: Bytes)
    requires |ms| == |segments|
  {
    Crossed(lower, upper) && exists i :: 0 <= i < |ms| && segments[i].OnDisk? && lower in ms[i]
  }

  /** The merge of what the segments deliver is the range of their merge exactly outside that case. */
  lemma LookupIsRangeExactlyWhen(segments: seq<Segment>, ms: seq<Entries>, lower: Bytes, upper: Bytes)
    requires |ms| == |segments|
    ensures Merged(DeliveredAll(segments, ms, lower, upper)) == Range(Merged(ms), lower, upper) <==>
            !DeliversTooMuch(segments, ms, lower, upper)
  {
    hide Less, Merged, Emitted, Range;
    var rs := DeliveredAll(segments, ms, lower, upper);
    if DeliversTooMuch(segments, ms, lower, upper) {
      var i :| 0 <= i < |ms| && segments[i].OnDisk? && lower in ms[i];
      LowerDelivered(ms[i], lower, upper);
      if lower !in Merged(rs) {
        NotMergedNotIn(rs, lower, i);
      }
      OutOfRange(Merged(ms), lower, upper);
    } else {
      forall i | 0 <= i < |ms|
        ensures rs[i] == Range(ms[i], lower, upper)
      {
        EmittedIsRangeExactlyWhen(ms[i], lower, upper);
      }
      MergedRange(ms, rs, lower, upper);
    }
  }

  lemma LowerDelivered(m: Entries, lower: Bytes, upper: Bytes)
    requires Crossed(lower, upper) && lower in m
    ensures lower in Emitted(m, lower, upper)
  {
    LessIrreflexive(lower);
    hide Less;
  }

  lemma OutOfRange(m: Entries, lower: Bytes, upper: Bytes)
    requires Crossed(lower, upper)
    ensures lower !in Range(m, lower, upper)
  {
  }
}
