/** Every run of the machine: the view is the clients' operations folded in order, and what was frozen stays frozen. */
module MachineRuns {
  import opened Bytes
  import opened KeyValues
  import opened KeyFormat
  import opened Views
  import opened Listings
  import opened Machine

  /** Keys that the disk format was built for: checkKey lets longer ones pass, and write checks none. */
  ghost predicate FormatKeys(es: seq<KeyValue>) {
    forall i :: 0 <= i < |es| ==> 1 <= |es[i].key| <= MAX_KEY_SIZE
  }

  ghost predicate Sound(step: Step) {
    match step
    case Put(key, value, _) => CheckKey(key) ==> |key| <= MAX_KEY_SIZE
    case Write(batch, _) => FormatKeys(batch)
    case _ => true
  }

  ghost predicate AllSound(steps: seq<Step>) {
    forall i :: 0 <= i < |steps| ==> Sound(steps[i])
  }

  // ---- the invariant ----

  ghost predicate Clean(x: Item) {
    forall k :: k in x.entries ==> 1 <= |k| <= MAX_KEY_SIZE
  }

  ghost predicate AllClean(items: seq<Item>) {
    forall i :: 0 <= i < |items| ==> Clean(items[i])
  }

  ghost predicate Ranges(items: seq<Item>) {
    && (forall i :: 0 <= i < |items| ==> items[i].lower <= items[i].upper)
    && (forall i, j :: 0 <= i < j < |items| ==> items[i].upper < items[j].lower)
  }

  ghost predicate MergeInv(s: Db) {
    s.merge.Merging? ==>
      && s.merge.read <= s.segments
      && forall i :: i in s.merge.loaded ==>
           i < s.merge.count && s.merge.start + i < |s.merge.read| && s.merge.read[s.merge.start + i] in s.heap &&
           s.merge.loaded[i] == s.heap[s.merge.read[s.merge.start + i]].entries
  }

  ghost predicate HeapBelow(heap: map<Ref, Item>, nextRef: Ref) {
    forall r :: r in heap ==> r < nextRef
  }

  ghost predicate HeapOk(heap: map<Ref, Item>, nextRef: Ref) {
    HeapBelow(heap, nextRef) && forall r :: r in heap ==> Clean(heap[r])
  }

  ghost predicate DistinctRefs(refs: seq<Ref>) {
    forall i, j :: 0 <= i < j < |refs| ==> refs[i] != refs[j]
  }

  /** References are used once: every listed one is allocated and distinct from the others. */
  ghost predicate RefsOk(s: Db) {
    InHeap(s) && HeapOk(s.heap, s.nextRef) && DistinctRefs(s.segments) && s.memory !in s.segments &&
      !s.heap[s.memory].onDisk
  }

  /** ID ranges ascend without overlap and end at the last ID given out. */
  ghost predicate IDsOk(s: Db)
    requires InHeap(s)
  {
    Ranges(Listing(s)) && s.heap[s.memory].upper == s.nextSegID
  }

  ghost predicate Inv(s: Db) {
    RefsOk(s) && IDsOk(s) && Able(s) && MergeInv(s) && s.fault != UnexpectedChange
  }

  /** openImpl on an empty directory. */
  ghost function Fresh(): Db {
    Db(map[0 := NewMemory(1)], 1, [], 0, 1, Idle, NoFault)
  }

  lemma FreshIsSound()
    ensures Inv(Fresh()) && View(Fresh()) == Some(map[])
  {
    var s := Fresh();
    CleanView(Listing(s));
    var one := [NewMemory(1)];
    assert Listing(s) == one;
    EntriesOfOne(NewMemory(1));
    SingleMerged(map[]);
  }

  /** In clean lists iterators see everything. */
  lemma CleanView(items: seq<Item>)
    requires AllClean(items)
    ensures ViewOfAll(items) == Some(ViewOf(items)) && Seen(items) == items
  {
    hide ViewOf;
    assert Seen(items) == items;
    assert forall i :: 0 <= i < |items| ==> Clean(items[i]) && Decodable(items[i]);
  }

  lemma InvMeans(s: Db)
    requires RefsOk(s)
    ensures InHeap(s) && Listing(s) != [] && AllClean(Listing(s)) && View(s) == Some(ViewOf(Listing(s))) &&
            s.nextRef !in s.heap
  {
    hide ViewOf, Clean;
    CleanView(Listing(s));
  }

  lemma RefsInHeap(s: Db)
    requires InHeap(s)
    ensures forall r :: r in s.segments + [s.memory] ==> r in s.heap
  {
  }

  // ---- steps on the references are steps on the listing ----

  lemma LookFrame(heap: map<Ref, Item>, heap': map<Ref, Item>, refs: seq<Ref>)
    requires forall i :: 0 <= i < |refs| ==> refs[i] in heap && refs[i] in heap' && heap'[refs[i]] == heap[refs[i]]
    ensures Look(heap', refs) == Look(heap, refs)
  {
  }

  /**
   No object but the current memory segment is ever written to, and one that is frozen never becomes current
   again.
   */
  ghost predicate OnlyMemoryChanges(s: Db, t: Db) {
    && (forall r :: r in s.heap && r != s.memory ==> r in t.heap && t.heap[r] == s.heap[r])
    && (t.memory == s.memory || t.memory !in s.heap)
    && s.nextRef <= t.nextRef
    && (forall r :: r in s.heap ==> r in t.heap)
  }

  lemma SwapKeeps(s: Db)
    requires Inv(s)
    ensures Inv(Swap(s)) && OnlyMemoryChanges(s, Swap(s)) && Listing(Swap(s)) == AfterSwap(Listing(s)) &&
            Swap(s).fault == s.fault
  {
    hide Ranges, Clean, AfterSwap;
    InvMeans(s);
    SwapListing(s);
    SwapRefs(s);
    SwapMerge(s);
    RangesGrow(Listing(s));
  }

  lemma SwapListing(s: Db)
    requires RefsOk(s) && s.heap[s.memory].upper == s.nextSegID
    ensures InHeap(Swap(s)) && Listing(s) != [] && Listing(Swap(s)) == AfterSwap(Listing(s))
  {
    hide Clean, DistinctRefs;
    var t, refs := Swap(s), s.segments + [s.memory];
    assert s.nextRef !in s.heap;
    assert t.segments + [t.memory] == refs + [s.nextRef];
  }

  lemma SwapRefs(s: Db)
    requires RefsOk(s)
    ensures RefsOk(Swap(s)) && OnlyMemoryChanges(s, Swap(s))
  {
    var t := Swap(s);
    assert s.nextRef !in s.heap;
    assert DistinctRefs(t.segments);
  }

  lemma SwapMerge(s: Db)
    requires Inv(s)
    ensures MergeInv(Swap(s)) && Able(Swap(s))
  {
    hide IDsOk, DistinctRefs;
    assert s.nextRef !in s.heap;
  }

  lemma RangesGrow(items: seq<Item>)
    requires items != [] && Ranges(items)
    ensures Ranges(AfterSwap(items))
  {
    var n := |items| - 1;
    forall i, j | 0 <= i < j < n + 2
      ensures AfterSwap(items)[i].upper < AfterSwap(items)[j].lower
    {
      if j == n + 1 && i < n {
        assert items[i].upper < items[n].lower;
      }
    }
  }

  lemma PutAllKeeps(s: Db, es: seq<KeyValue>)
    requires Inv(s) && FormatKeys(es)
    ensures Inv(PutAll(s, es)) && OnlyMemoryChanges(s, PutAll(s, es)) &&
            Listing(PutAll(s, es)) == AfterWrite(Listing(s), es)
    ensures PutAll(s, es).fault == s.fault
  {
    hide MapOf, Ranges, AfterWrite;
    InvMeans(s);
    MapOfFormatKeys(es);
    RangesWritten(Listing(s), es);
    PutAllListing(s, es);
    PutAllRefs(s, es);
    PutAllMerge(s, es);
  }

  lemma PutAllRefs(s: Db, es: seq<KeyValue>)
    requires RefsOk(s) && forall k :: k in MapOf(es) ==> 1 <= |k| <= MAX_KEY_SIZE
    ensures RefsOk(PutAll(s, es)) && OnlyMemoryChanges(s, PutAll(s, es))
  {
    hide MapOf, DistinctRefs;
  }

  lemma PutAllMerge(s: Db, es: seq<KeyValue>)
    requires Inv(s)
    ensures MergeInv(PutAll(s, es)) && Able(PutAll(s, es))
  {
    hide MapOf, DistinctRefs, HeapOk, IDsOk;
  }

  lemma PutAllListing(s: Db, es: seq<KeyValue>)
    requires RefsOk(s)
    ensures InHeap(PutAll(s, es)) && Listing(s) != [] && Listing(PutAll(s, es)) == AfterWrite(Listing(s), es)
  {
    hide MapOf, Clean;
  }

  lemma RangesWritten(items: seq<Item>, es: seq<KeyValue>)
    requires items != [] && Ranges(items)
    ensures Ranges(AfterWrite(items, es))
  {
    hide MapOf;
    assert forall i :: 0 <= i < |items| ==>
           AfterWrite(items, es)[i].lower == items[i].lower && AfterWrite(items, es)[i].upper == items[i].upper;
  }

  lemma {:induction false} MapOfFormatKeys(es: seq<KeyValue>)
    requires FormatKeys(es)
    ensures forall k :: k in MapOf(es) ==> 1 <= |k| <= MAX_KEY_SIZE
    decreases |es|
  {
    if es != [] {
      MapOfFormatKeys(es[..|es| - 1]);
    }
  }

  lemma SwapThenPut(s: Db, swap: bool, es: seq<KeyValue>)
    requires Inv(s) && FormatKeys(es)
    ensures var t := MaybeSwap(s, swap); var u := PutAll(t, es);
            && InHeap(t) && Inv(u) && OnlyMemoryChanges(s, u) && u.fault == s.fault
            && Listing(u) == AfterWrite(if swap then AfterSwap(Listing(s)) else Listing(s), es)
            && ViewOf(Listing(u)) == PutsLive(ViewOf(Listing(s)), es)
  {
    hide RefsOk, IDsOk, MergeInv, Able, PutAll, PutsLive, Swap, ViewOf, AfterSwap, AfterWrite;
    InvMeans(s);
    if swap {
      SwapKeeps(s);
      SwapView(Listing(s));
    }
    var t := MaybeSwap(s, swap);
    InvMeans(t);
    PutAllKeeps(t, es);
    WriteView(Listing(t), es);
  }

  // ---- the merger's steps ----

  lemma MergeStepsKeep(s: Db, step: Step)
    requires Inv(s) && (step.MergeRead? || step.MergeLoad?)
    ensures Inv(Next(s, step)) && Listing(Next(s, step)) == Listing(s) && OnlyMemoryChanges(s, Next(s, step))
  {
    hide Ranges, Clean, Commit, Reopened, PutAll, Swap, Fetch;
    var t := Next(s, step);
    assert t.heap == s.heap && t.segments == s.segments && t.memory == s.memory;
  }

  /** What the merger has loaded, whenever it did, is what its window holds now. */
  lemma LoadedIsCurrent(s: Db)
    requires Inv(s) && AllLoaded(s)
    ensures var Merging(read, start, count, loaded) := s.merge;
            && start + count <= |s.segments| && read <= s.segments && WindowUnchanged(s)
            && Loaded(loaded, count) == EntriesOf(Listing(s)[start..start + count])
  {
    hide Inv, EntriesOf, AllClean, Loaded, Look;
    var Merging(read, start, count, loaded) := s.merge;
    InvListing(s);
    ReadIsPrefix(s);
    forall i | 0 <= i < count
      ensures i in loaded && loaded[i] == Listing(s)[start + i].entries
    {
      assert i in loaded;
      LoadedAt(s, i);
    }
    LoadedAre(loaded, Listing(s), start, count);
  }

  lemma InvListing(s: Db)
    requires Inv(s)
    ensures InHeap(s) && AllClean(Listing(s)) && |Listing(s)| == |s.segments| + 1
  {
    InvMeans(s);
  }

  lemma ReadIsPrefix(s: Db)
    requires Inv(s) && s.merge.Merging?
    ensures s.merge.start + s.merge.count <= |s.merge.read| <= |s.segments| && s.merge.read <= s.segments
    ensures s.merge.start + s.merge.count <= |s.segments| && WindowUnchanged(s)
  {
    hide RefsOk, IDsOk;
  }

  lemma LoadedAt(s: Db, i: nat)
    requires Inv(s) && s.merge.Merging? && i < s.merge.count && i in s.merge.loaded && s.merge.start + i < |s.segments|
    ensures InHeap(s) && s.merge.start + i < |Listing(s)|
    ensures s.merge.loaded[i] == Listing(s)[s.merge.start + i].entries
  {
    hide RefsOk, IDsOk;
    InvInHeap(s);
    ListedAt(s, s.merge.start + i);
  }

  lemma InvInHeap(s: Db)
    requires Inv(s)
    ensures InHeap(s)
  {
  }

  lemma LoadedAre(loaded: map<nat, Entries>, items: seq<Item>, start: nat, count: nat)
    requires start + count <= |items| && AllClean(items)
    requires forall i :: 0 <= i < count ==> i in loaded && loaded[i] == items[start + i].entries
    ensures Loaded(loaded, count) == EntriesOf(items[start..start + count])
  {
    hide EntriesOf, Clean, AllClean;
    var w := items[start..start + count];
    forall i | 0 <= i < count
      ensures Loaded(loaded, count)[i] == EntriesOf(w)[i]
    {
      assert i in loaded;
      EntriesAt(w, i);
      CleanAt(items, start + i);
      CleanIsVisible(w[i]);
    }
  }

  lemma CleanAt(items: seq<Item>, i: nat)
    requires AllClean(items) && i < |items|
    ensures Clean(items[i])
  {
  }

  lemma CleanIsVisible(x: Item)
    requires Clean(x)
    ensures Visible(x.entries) == x.entries
  {
  }

  lemma CommitKeeps(s: Db)
    requires Inv(s) && AllLoaded(s)
    ensures var t := Commit(s);
            && Inv(t) && OnlyMemoryChanges(s, t) && t.fault == s.fault
            && s.merge.start + s.merge.count < |Listing(s)| &&
               Listing(t) == AfterMerge(Listing(s), s.merge.start, s.merge.count)
            && |t.segments| == |s.segments| - s.merge.count + 1
  {
    hide Ranges, AfterMerge, Clean, EntriesOf, MergedEntries, Loaded, MergeOf, RefsOk, MergeInv;
    hide Able, WindowUnchanged, Commit, OnlyMemoryChanges, AllClean;
    InvMeans(s);
    LoadedIsCurrent(s);
    AbleMeans(s);
    CleanPart(Listing(s), s.merge.start, s.merge.count);
    var items, start, count := Listing(s), s.merge.start, s.merge.count;
    var x := MergeOf(items[start..start + count], start == 0);
    MergeOfClean(items[start..start + count], start == 0);
    CommitIs(s);
    CommittedKeeps(s, start, count, x);
    RangesMerged(items, start, count);
  }

  lemma AbleMeans(s: Db)
    requires Able(s) && s.merge.Merging?
    ensures s.merge.count >= 2
  {
  }

  lemma CleanPart(items: seq<Item>, start: nat, count: nat)
    requires AllClean(items) && start + count <= |items|
    ensures AllClean(items[start..start + count])
  {
    hide Clean;
  }

  ghost function Committed(s: Db, start: nat, count: nat, x: Item): Db
    requires start + count <= |s.segments|
  {
    s.(heap := s.heap[s.nextRef := x], nextRef := s.nextRef + 1,
       segments := s.segments[..start] + [s.nextRef] + s.segments[start + count..], merge := Idle)
  }

  lemma CommitIs(s: Db)
    requires Inv(s) && AllLoaded(s) && WindowUnchanged(s) && s.merge.start + s.merge.count <= |s.segments|
    requires Loaded(s.merge.loaded, s.merge.count) ==
             EntriesOf(Listing(s)[s.merge.start..s.merge.start + s.merge.count])
    ensures var start, count := s.merge.start, s.merge.count;
            Commit(s) == Committed(s, start, count, MergeOf(Listing(s)[start..start + count], start == 0))
  {
    hide MergedEntries, EntriesOf, Inv, Look, Loaded;
    InvHeap(s);
    var start, count := s.merge.start, s.merge.count;
    ListedAt(s, start);
    ListedAt(s, start + count - 1);
    WindowEnds(Listing(s), start, count);
    assert s.segments[start] == s.merge.read[start] && s.segments[start + count - 1] == s.merge.read[start + count - 1];
  }

  lemma InvHeap(s: Db)
    requires Inv(s)
    ensures Able(s)
  {
  }

  lemma ListedAt(s: Db, i: nat)
    requires InHeap(s) && i < |s.segments|
    ensures |Listing(s)| == |s.segments| + 1 && Listing(s)[i] == s.heap[s.segments[i]]
  {
  }

  lemma WindowEnds(items: seq<Item>, start: nat, count: nat)
    requires 1 <= count && start + count <= |items|
    ensures var w := items[start..start + count]; w[0] == items[start] && w[count - 1] == items[start + count - 1]
  {
  }

  lemma LookReplaced(heap: map<Ref, Item>, a: seq<Ref>, w: seq<Ref>, b: seq<Ref>, r: Ref, x: Item)
    requires (forall y :: y in a + w + b ==> y in heap) && r !in heap
    ensures (forall y :: y in a + [r] + b ==> y in heap[r := x])
    ensures var items := Look(heap, a + w + b);
            Look(heap[r := x], a + [r] + b) == items[..|a|] + [x] + items[|a| + |w|..]
  {
    assert forall y :: y in a || y in b ==> y in a + w + b;
  }

  lemma CommittedKeeps(s: Db, start: nat, count: nat, x: Item)
    requires Inv(s) && 1 <= count && start + count <= |s.segments| && Clean(x)
    requires x == MergeOf(Listing(s)[start..start + count], start == 0)
    ensures var t := Committed(s, start, count, x);
            && RefsOk(t) && OnlyMemoryChanges(s, t) && Able(t) && MergeInv(t)
            && Listing(t) == AfterMerge(Listing(s), start, count) && t.heap[t.memory] == s.heap[s.memory]
  {
    hide Ranges, Clean, MergeOf, Look, DistinctRefs, HeapOk;
    InvMeans(s);
    RefsInHeap(s);
    var t := Committed(s, start, count, x);
    CommitRefs(s.segments, start, count, s.nextRef);
    CommittedHeap(s.heap, s.nextRef, x);
    CommittedListing(s, start, count, x);
    IdleIsFine(t);
  }

  lemma CommittedHeap(heap: map<Ref, Item>, nextRef: Ref, x: Item)
    requires HeapOk(heap, nextRef) && Clean(x)
    ensures HeapOk(heap[nextRef := x], nextRef + 1) && nextRef !in heap
  {
    hide Clean;
  }

  lemma CommittedListing(s: Db, start: nat, count: nat, x: Item)
    requires InHeap(s) && 1 <= count && start + count <= |s.segments| && s.nextRef !in s.heap
    requires x == MergeOf(Listing(s)[start..start + count], start == 0)
    ensures var t := Committed(s, start, count, x); InHeap(t) && Listing(t) == AfterMerge(Listing(s), start, count)
  {
    hide MergeOf, Look;
    RefsInHeap(s);
    var t := Committed(s, start, count, x);
    var a, w, b := s.segments[..start], s.segments[start..start + count], s.segments[start + count..] + [s.memory];
    assert a + w + b == s.segments + [s.memory] && t.segments + [t.memory] == a + [s.nextRef] + b;
    LookReplaced(s.heap, a, w, b, s.nextRef, x);
  }

  lemma IdleIsFine(t: Db)
    requires InHeap(t) && t.merge.Idle?
    ensures MergeInv(t) && Able(t)
  {
  }

  lemma MergeOfClean(w: seq<Item>, purge: bool)
    requires w != [] && AllClean(w)
    ensures Clean(MergeOf(w, purge))
  {
    forall k | k in Merged(EntriesOf(w))
      ensures 1 <= |k| <= MAX_KEY_SIZE
    {
      var i := MergedHasNewest(EntriesOf(w), k);
      EntriesAt(w, i);
      assert Clean(w[i]);
    }
  }

  lemma CommitRefs(refs: seq<Ref>, start: nat, count: nat, r: Ref)
    requires start + count <= |refs| && r !in refs && count > 0
    requires DistinctRefs(refs)
    ensures var t := refs[..start] + [r] + refs[start + count..];
            DistinctRefs(t) && forall x :: x in t ==> x in refs || x == r
  {
  }

  lemma RangesMerged(items: seq<Item>, start: nat, count: nat)
    requires Ranges(items) && 1 <= count && start + count <= |items|
    ensures Ranges(AfterMerge(items, start, count))
  {
    hide MergedEntries, EntriesOf;
    var t, m := AfterMerge(items, start, count), MergeOf(items[start..start + count], start == 0);
    assert m.lower == items[start].lower && m.upper == items[start + count - 1].upper;
    assert count > 1 ==> items[start].upper < items[start + count - 1].lower;
    forall i | 0 <= i < |t|
      ensures t[i] == if i < start then items[i] else if i == start then m else items[i + count - 1]
    {
    }
    forall i, j | 0 <= i < j < |t|
      ensures t[i].upper < t[j].lower
    {
      assert items[if i < start then i else i + count - 1].upper < items[if j <= start then j else j + count - 1].lower;
    }
  }

  // ---- closing and opening ----

  lemma ReopenKeeps(s: Db)
    requires Inv(s) && s.merge.Idle?
    ensures var t := Reopened(s);
            && Inv(t) && OnlyMemoryChanges(s, t) && t.fault == s.fault && Listing(t) == AfterReopen(Listing(s))
  {
    hide Ranges, Clean, AfterReopen, RefsOk, MergeInv, Able, OnlyMemoryChanges, AllClean, Seen;
    InvMeans(s);
    CleanView(Listing(s));
    var t, items := Reopened(s), AfterReopen(Listing(s));
    LastIsMemory(Listing(s));
    FlushedClean(Listing(s));
    RangesFlushed(Listing(s));
    PlacedAfter(s, t, items);
    IdleIsFine(t);
  }

  lemma LastIsMemory(items: seq<Item>)
    ensures var t := AfterReopen(items); t != [] && !t[|t| - 1].onDisk
  {
  }

  /** New references for a new listing. */
  lemma PlacedAfter(s: Db, t: Db, items: seq<Item>)
    requires RefsOk(s) && items != [] && AllClean(items) && !items[|items| - 1].onDisk
    requires var n := |items|;
             t.heap == s.heap + Placed(items, s.nextRef) && t.nextRef == s.nextRef + n &&
               t.segments == Refs(s.nextRef, n - 1) && t.memory == s.nextRef + n - 1
    ensures RefsOk(t) && OnlyMemoryChanges(s, t) && Listing(t) == items
  {
    hide HeapBelow, DistinctRefs, Placed, Look, Refs, AllClean, Clean;
    var first, n := s.nextRef, |items|;
    NewRefs(first, n);
    PlacedListing(s.heap, t.heap, t.segments, t.memory, items, first);
    AddedClean(s.heap, items, first);
    AddedOnly(s.heap, items, first);
    NotYet(s.heap, first, first + n - 1);
  }

  lemma PlacedListing(heap: map<Ref, Item>, heap': map<Ref, Item>, segments: seq<Ref>, memory: Ref, items: seq<Item>,
                      first: Ref)
    requires HeapBelow(heap, first) && items != [] && heap' == heap + Placed(items, first)
    requires segments + [memory] == Refs(first, |items|)
    ensures memory in heap' && (forall i :: 0 <= i < |segments| ==> segments[i] in heap')
    ensures (forall i :: 0 <= i < |segments + [memory]| ==> (segments + [memory])[i] in heap') &&
            Look(heap', segments + [memory]) == items
    ensures heap'[memory] == items[|items| - 1]
  {
    hide HeapBelow, Placed, Look, Refs;
    AddedHeap(heap, items, first);
    LookLast(heap', Refs(first, |items|), items);
    AllListed(heap', segments, memory, Refs(first, |items|));
  }

  lemma AddedOnly(heap: map<Ref, Item>, items: seq<Item>, first: Ref)
    requires HeapOk(heap, first)
    ensures forall r :: r in heap ==> r in heap + Placed(items, first) && (heap + Placed(items, first))[r] == heap[r]
  {
    hide Placed, Clean;
  }

  lemma AllListed(heap: map<Ref, Item>, segments: seq<Ref>, memory: Ref, refs: seq<Ref>)
    requires refs == segments + [memory] && forall i :: 0 <= i < |refs| ==> refs[i] in heap
    ensures memory in heap && forall i :: 0 <= i < |segments| ==> segments[i] in heap
  {
    assert refs[|segments|] == memory;
    assert forall i :: 0 <= i < |segments| ==> segments[i] == refs[i];
  }

  lemma NotYet(heap: map<Ref, Item>, nextRef: Ref, r: Ref)
    requires HeapOk(heap, nextRef) && nextRef <= r
    ensures r !in heap
  {
  }

  lemma LookLast(heap: map<Ref, Item>, refs: seq<Ref>, items: seq<Item>)
    requires (forall i :: 0 <= i < |refs| ==> refs[i] in heap) && Look(heap, refs) == items && refs != []
    ensures refs[|refs| - 1] in heap && heap[refs[|refs| - 1]] == items[|items| - 1]
  {
  }

  lemma AddedHeap(heap: map<Ref, Item>, items: seq<Item>, first: Ref)
    requires HeapBelow(heap, first)
    ensures var h, refs := heap + Placed(items, first), Refs(first, |items|);
            && (forall i :: 0 <= i < |refs| ==> refs[i] in h) && Look(h, refs) == items
  {
    hide Placed, Look, Refs, HeapBelow;
    var h, refs := heap + Placed(items, first), Refs(first, |items|);
    RefsLength(first, |items|);
    forall i | 0 <= i < |refs|
      ensures refs[i] in h && h[refs[i]] == items[i]
    {
      PlacedAt(items, first, i);
    }
    LookIs(h, refs, items);
  }

  lemma RefsLength(first: Ref, n: nat)
    ensures |Refs(first, n)| == n
  {
  }

  lemma PlacedAt(items: seq<Item>, first: Ref, i: nat)
    requires i < |items|
    ensures var r := Refs(first, |items|)[i]; r in Placed(items, first) && Placed(items, first)[r] == items[i]
  {
    hide Placed;
    assert first + i in Placed(items, first);
  }

  lemma LookIs(heap: map<Ref, Item>, refs: seq<Ref>, items: seq<Item>)
    requires |refs| == |items| && forall i :: 0 <= i < |refs| ==> refs[i] in heap && heap[refs[i]] == items[i]
    ensures Look(heap, refs) == items
  {
  }

  lemma AddedClean(heap: map<Ref, Item>, items: seq<Item>, first: Ref)
    requires HeapOk(heap, first) && AllClean(items)
    ensures HeapOk(heap + Placed(items, first), first + |items|)
  {
    hide Placed, Clean;
  }

  lemma NewRefs(first: Ref, n: nat)
    requires n >= 1
    ensures Refs(first, n) == Refs(first, n - 1) + [first + n - 1]
    ensures DistinctRefs(Refs(first, n - 1)) && first + n - 1 !in Refs(first, n - 1)
  {
  }

  lemma {:induction false} FlushedClean(items: seq<Item>)
    requires AllClean(items)
    ensures AllClean(Flushed(items)) && AllClean(AfterReopen(items))
    decreases |items|
  {
    if items != [] {
      FlushedClean(items[..|items| - 1]);
    }
  }

  lemma {:induction false} RangesFlushed(items: seq<Item>)
    requires Ranges(items)
    ensures Ranges(Flushed(items)) && Ranges(AfterReopen(items))
    ensures forall i :: 0 <= i < |Flushed(items)| ==> items != [] && Flushed(items)[i].upper <= items[|items| - 1].upper
    decreases |items|
  {
    var f := Flushed(items);
    if items != [] {
      var n := |items| - 1;
      RangesFlushed(items[..n]);
      var g := Flushed(items[..n]);
      assert forall i :: 0 <= i < |g| ==> n > 0 && g[i].upper <= items[n - 1].upper < items[n].lower;
    }
    OpenedRanges(f);
  }

  lemma OpenedRanges(f: seq<Item>)
    requires Ranges(f)
    ensures Ranges(Opened(f))
  {
    var n := |f| - 1;
    forall i | 0 <= i < |f|
      ensures f[i].upper < LastID(f) + 1
    {
      if i < n {
        assert f[i].upper < f[n].lower;
      }
    }
  }

  // ---- every step, every run ----

  /** What a step does to the listing. */
  ghost function ListingAfter(s: Db, step: Step): seq<Item>
    requires InHeap(s) && Listing(s) != []
  {
    var items := Listing(s);
    match step
    case Put(key, value, swap) =>
      if CheckKey(key) then AfterWrite(if swap then AfterSwap(items) else items, [KeyValue(key, value)]) else items
    case Remove(key, swap) =>
      if CheckKey(key) && FetchedFrom(items, key) != UnmappedRead && FetchedFrom(items, key) != Value([])
      then AfterWrite(if swap then AfterSwap(items) else items, [KeyValue(key, [])]) else items
    case Write(batch, swap) => AfterWrite(if swap then AfterSwap(items) else items, batch)
    case Snapshot => AfterSwap(items)
    case MergeCommit => if AllLoaded(s) && InList(Pass(s.merge.start, s.merge.count), items)
      then AfterMerge(items, s.merge.start, s.merge.count) else items
    case Reopen => if s.merge.Idle? then AfterReopen(items) else items
    case _ => items
  }

  /** The step is a remove whose get comes upon an empty file. */
  ghost predicate Faults(s: Db, step: Step)
    requires InHeap(s)
  {
    step.Remove? && CheckKey(step.key) && FetchedFrom(Listing(s), step.key) == UnmappedRead
  }

  lemma StepIsSound(s: Db, step: Step)
    requires Inv(s) && Sound(step) && s.fault == NoFault
    ensures var t := Next(s, step);
            && Inv(t) && OnlyMemoryChanges(s, t) && (t.fault == NoFault <==> !Faults(s, step))
            && Listing(s) != [] && Listing(t) == ListingAfter(s, step)
            && (t.fault == NoFault ==> ViewOf(Listing(t)) == Effect(ViewOf(Listing(s)), step))
  {
    hide MapOf, PutAll, Swap, ViewOf, RefsOk, IDsOk, MergeInv, Commit, Reopened, PutsLive, Listing;
    hide AfterWrite, AfterSwap, AfterMerge, AfterReopen, Fetch, FetchedFrom;
    InvMeans(s);
    match step
    case Put(key, value, swap) =>
      if CheckKey(key) {
        SwapThenPut(s, swap, [KeyValue(key, value)]);
        PutsLiveOne(ViewOf(Listing(s)), key, value);
      }
    case Remove(key, swap) =>
      if CheckKey(key) {
        RemoveIsSound(s, key, swap);
      }
    case Write(batch, swap) =>
      SwapThenPut(s, swap, batch);
    case Snapshot =>
      SwapKeeps(s);
      SwapView(Listing(s));
    case MergeRead(start, count) =>
      MergeStepsKeep(s, step);
    case MergeLoad(i) =>
      MergeStepsKeep(s, step);
    case MergeCommit =>
      if AllLoaded(s) {
        CommitKeeps(s);
        MergeView(Listing(s), s.merge.start, s.merge.count);
      }
    case Reopen =>
      if s.merge.Idle? {
        ReopenKeeps(s);
        ReopenView(Listing(s));
      }
  }

  lemma RemoveIsSound(s: Db, key: Bytes, swap: bool)
    requires Inv(s) && s.fault == NoFault && CheckKey(key)
    ensures var t := Next(s, Remove(key, swap));
            && Inv(t) && OnlyMemoryChanges(s, t) && (t.fault == NoFault <==> !Faults(s, Remove(key, swap)))
            && Listing(s) != [] && Listing(t) == ListingAfter(s, Remove(key, swap))
            && (t.fault == NoFault ==> ViewOf(Listing(t)) == ViewOf(Listing(s)) - {key})
  {
    hide MapOf, PutAll, Swap, ViewOf, RefsOk, IDsOk, MergeInv, Commit, Reopened, PutsLive, AfterWrite, AfterSwap, Fetch;
    hide FetchedFrom, Clean;
    InvMeans(s);
    var items := Listing(s);
    CleanFetch(items, key);
    match FetchedFrom(items, key)
    case UnmappedRead =>
      FaultKeeps(s);
    case Value(v) =>
      if v == [] {
        NothingToRemove(items, key);
      } else {
        RemovableKey(items, key);
        SwapThenPut(s, swap, [KeyValue(key, [])]);
        PutsLiveOne(ViewOf(items), key, []);
      }
  }

  lemma FaultKeeps(s: Db)
    requires Inv(s)
    ensures var t := s.(fault := BadRead); Inv(t) && OnlyMemoryChanges(s, t) && Listing(t) == Listing(s)
  {
    hide Clean, Ranges;
    var t := s.(fault := BadRead);
    assert RefsOk(t) && MergeInv(t) && Able(t);
  }

  lemma {:induction false} CleanFetch(items: seq<Item>, key: Bytes)
    requires AllClean(items)
    ensures Fetch(items, key) == FetchedFrom(items, key)
    decreases |items|
  {
    if items != [] {
      assert Clean(items[|items| - 1]);
      CleanFetch(items[..|items| - 1], key);
    }
  }

  /** What get finds is a key of the list, and those are short enough. */
  lemma {:induction false} RemovableKey(items: seq<Item>, key: Bytes)
    requires AllClean(items) && FetchedFrom(items, key) != UnmappedRead && FetchedFrom(items, key) != Value([])
    ensures 1 <= |key| <= MAX_KEY_SIZE
    decreases |items|
  {
    var last := items[|items| - 1];
    assert Clean(last);
    if ValueIn(last.entries, key) == [] {
      RemovableKey(items[..|items| - 1], key);
    }
  }

  lemma PutsLiveOne(v: Entries, key: Bytes, value: Bytes)
    ensures PutsLive(v, [KeyValue(key, value)]) == PutLive(v, key, value)
  {
    assert [KeyValue(key, value)][..0] == [];
  }

  /** remove looks the key up first and does nothing when get finds nothing; then the key is not in the view. */
  lemma NothingToRemove(items: seq<Item>, key: Bytes)
    requires FetchedFrom(items, key) == Value([])
    ensures ViewOf(items) - {key} == ViewOf(items)
  {
    hide LiveView, NewestNonEmpty, EntriesOf;
    FetchedExactly(items, key);
    NothingFoundNothingLive(EntriesOf(items), key);
  }

  /** A remove that finds nothing does nothing at all: no memory segment is set aside, and no removal written. */
  lemma RemoveOfNothing(s: Db, key: Bytes, swap: bool)
    requires Inv(s) && InHeap(s) && FetchedFrom(Listing(s), key) == Value([])
    ensures Next(s, Remove(key, swap)) == s
  {
    InvMeans(s);
    CleanFetch(Listing(s), key);
    hide Fetch, FetchedFrom, PutAll, Swap;
  }

  /** No remove of the run comes upon an empty file. */
  ghost predicate NoBadRead(s: Db, steps: seq<Step>) {
    forall i :: 0 <= i < |steps| ==> InHeap(Run(s, steps[..i])) && !Faults(Run(s, steps[..i]), steps[i])
  }

  /**
   In every interleaving of clients and merger, across closing and opening, the database means what its
   clients did, in order; the merger never finds its window changed; and what can go wrong is exactly that
   the get of some remove comes upon an empty file.
   */
  lemma {:induction false} RunIsFold(s: Db, steps: seq<Step>)
    requires Inv(s) && s.fault == NoFault && AllSound(steps)
    ensures var t := Run(s, steps);
            && Inv(t) && (t.fault == NoFault <==> NoBadRead(s, steps))
            && (t.fault == NoFault ==> View(t) == Some(Effects(ViewOf(Listing(s)), steps)))
    decreases |steps|
  {
    hide ViewOf, RefsOk, IDsOk, MergeInv, Able, Effect, Next, Sound, Faults, Listing, ViewOfAll;
    InvMeans(s);
    if steps != [] {
      var front, last := steps[..|steps| - 1], steps[|steps| - 1];
      RunIsFold(s, front);
      NoBadReadSplit(s, steps);
      var u := Run(s, front);
      InvMeans(u);
      if u.fault == NoFault {
        StepIsSound(u, last);
        InvMeans(Next(u, last));
      } else {
        FaultStays(u, last);
      }
    }
  }

  lemma FaultStays(s: Db, step: Step)
    requires s.fault != NoFault
    ensures Next(s, step) == s
  {
  }

  lemma NoBadReadSplit(s: Db, steps: seq<Step>)
    requires steps != []
    ensures var n := |steps| - 1;
            NoBadRead(s, steps) <==>
              NoBadRead(s, steps[..n]) && InHeap(Run(s, steps[..n])) && !Faults(Run(s, steps[..n]), steps[n])
  {
    hide Faults, InHeap, Run;
    var n := |steps| - 1;
    assert forall i :: 0 <= i < n ==> steps[..n][..i] == steps[..i];
    if NoBadRead(s, steps) {
      forall i | 0 <= i < n
        ensures InHeap(Run(s, steps[..n][..i])) && !Faults(Run(s, steps[..n][..i]), steps[..n][i])
      {
        assert steps[..n][..i] == steps[..i];
      }
    }
    if NoBadRead(s, steps[..n]) {
      forall i | 0 <= i < n
        ensures InHeap(Run(s, steps[..i])) && !Faults(Run(s, steps[..i]), steps[i])
      {
        assert steps[..n][..i] == steps[..i];
      }
    }
  }
}
