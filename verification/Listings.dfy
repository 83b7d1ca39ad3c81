/**
 The database's segments as values: what is in the list, oldest first and the current memory segment last,
 and what writing, swapping memory, merging and reopening make of it. The objects of Databases and the
 references of Machine are both held to this.
 */
module Listings {
  import opened Bytes
  import opened KeyValues
  import opened Views

  datatype Item = Item(lower: nat, upper: nat, entries: Entries, onDisk: bool)

  ghost function EntriesOf(items: seq<Item>): (ms: seq<Entries>)
    ensures |ms| == |items|
  {
    if items == [] then [] else EntriesOf(items[..|items| - 1]) + [items[|items| - 1].entries]
  }

  lemma {:induction false} EntriesAt(items: seq<Item>, i: nat)
    requires i < |items|
    ensures EntriesOf(items)[i] == items[i].entries
    decreases |items|
  {
    if i < |items| - 1 {
      EntriesAt(items[..|items| - 1], i);
    }
  }

  lemma {:induction false} EntriesConcat(a: seq<Item>, b: seq<Item>)
    ensures EntriesOf(a + b) == EntriesOf(a) + EntriesOf(b)
    decreases |b|
  {
    if b == [] {
      assert a + b == a;
    } else {
      assert (a + b)[..|a + b| - 1] == a + b[..|b| - 1];
      EntriesConcat(a, b[..|b| - 1]);
    }
  }

  lemma EntriesOfOne(x: Item)
    ensures EntriesOf([x]) == [x.entries]
  {
    var one := [x];
    assert one[..0] == [];
  }

  /** What an iterator over all the segments delivers, removals left out. */
  ghost function ViewOf(items: seq<Item>): Entries {
    LiveView(EntriesOf(items))
  }

  // ---- what happens to the list ----

  /** Puts go to the newest segment. */
  ghost function AfterWrite(items: seq<Item>, es: seq<KeyValue>): seq<Item>
    requires items != []
  {
    var n := |items| - 1;
    items[..n] + [items[n].(entries := items[n].entries + MapOf(es))]
  }

  ghost function NewMemory(id: nat): Item {
    Item(id, id, map[], false)
  }

  /** A new, empty memory segment with the next ID. */
  ghost function AfterSwap(items: seq<Item>): seq<Item>
    requires items != []
  {
    items + [NewMemory(items[|items| - 1].upper + 1)]
  }

  ghost function MergeOf(w: seq<Item>, purge: bool): Item
    requires w != []
  {
    Item(w[0].lower, w[|w| - 1].upper, MergedEntries(EntriesOf(w), purge), true)
  }

  /** A window of segments has been merged, without its removals when nothing older was there. */
  ghost function AfterMerge(items: seq<Item>, start: nat, count: nat): seq<Item>
    requires 1 <= count && start + count <= |items|
  {
    items[..start] + [MergeOf(items[start..start + count], start == 0)] + items[start + count..]
  }

  /** Everything has been written out, empty memory segments excepted. */
  ghost function Flushed(items: seq<Item>): seq<Item> {
    if items == [] then []
    else
      var n := |items| - 1;
      Flushed(items[..n]) + if items[n].onDisk || items[n].entries != map[] then [items[n].(onDisk := true)] else []
  }

  ghost function LastID(items: seq<Item>): nat {
    if items == [] then 0 else items[|items| - 1].upper
  }

  /** A database has been opened whose files hold these segments. */
  ghost function Opened(files: seq<Item>): seq<Item> {
    files + [NewMemory(LastID(files) + 1)]
  }

  /** The database has been closed and opened again. */
  ghost function AfterReopen(items: seq<Item>): seq<Item> {
    Opened(Flushed(items))
  }

  /** What is left when the process dies. */
  ghost function Surviving(items: seq<Item>): seq<Item> {
    if items == [] then []
    else
      var n := |items| - 1;
      Surviving(items[..n]) + if items[n].onDisk then [items[n]] else []
  }

  // ---- what it means for the view ----

  lemma WriteView(items: seq<Item>, es: seq<KeyValue>)
    requires items != []
    ensures ViewOf(AfterWrite(items, es)) == PutsLive(ViewOf(items), es)
  {
    hide LiveView, PutsLive, MapOf;
    var n := |items| - 1;
    var last := items[n].(entries := items[n].entries + MapOf(es));
    EntriesConcat(items[..n], [last]);
    EntriesOfOne(last);
    PutsOnTop(EntriesOf(items[..n]), items[n].entries, es);
  }

  lemma SwapView(items: seq<Item>)
    requires items != []
    ensures ViewOf(AfterSwap(items)) == ViewOf(items)
  {
    EmptyOnTopView(items, items[|items| - 1].upper + 1);
  }

  lemma EmptyOnTopView(items: seq<Item>, id: nat)
    ensures ViewOf(items + [NewMemory(id)]) == ViewOf(items)
  {
    hide LiveView;
    EntriesConcat(items, [NewMemory(id)]);
    EntriesOfOne(NewMemory(id));
    EmptyOnTop(EntriesOf(items));
  }

  /**
   The merged segment has the newest entry of each key in the window, and its removals only above the oldest
   segment.
   */
  lemma MergedItemIs(items: seq<Item>, start: nat, count: nat, k: Bytes, i: nat)
    requires 1 <= count && start <= i < start + count <= |items|
    requires k in items[i].entries && forall j :: i < j < start + count ==> k !in items[j].entries
    ensures var t := AfterMerge(items, start, count); var x := t[start];
            && |t| == |items| - count + 1 && x.onDisk
            && x.lower == items[start].lower && x.upper == items[start + count - 1].upper
            && (k in x.entries <==> start > 0 || items[i].entries[k] != [])
            && (k in x.entries ==> x.entries[k] == items[i].entries[k])
  {
    var w := items[start..start + count];
    EntriesAt(w, i - start);
    forall j | i - start < j < count
      ensures k !in EntriesOf(w)[j]
    {
      EntriesAt(w, j);
    }
    hide EntriesOf, Merged;
    MergedIsNewest(EntriesOf(w), k, i - start);
  }

  lemma EntriesAround(a: seq<Item>, m: Item, b: seq<Item>)
    ensures EntriesOf(a + [m] + b) == EntriesOf(a) + [m.entries] + EntriesOf(b)
  {
    EntriesConcat(a + [m], b);
    EntriesConcat(a, [m]);
    EntriesOfOne(m);
  }

  lemma MergeView(items: seq<Item>, start: nat, count: nat)
    requires 1 <= count && start + count <= |items|
    ensures ViewOf(AfterMerge(items, start, count)) == ViewOf(items)
  {
    hide LiveView, MergedEntries, EntriesOf;
    var a, w, b := items[..start], items[start..start + count], items[start + count..];
    assert items == a + w + b;
    EntriesConcat(a + w, b);
    EntriesConcat(a, w);
    EntriesAround(a, MergeOf(w, start == 0), b);
    NoEntries();
    MergeWindowKeepsView(EntriesOf(a), EntriesOf(w), EntriesOf(b), start == 0);
  }

  lemma NoEntries()
    ensures EntriesOf([]) == []
  {
  }

  lemma {:induction false} FlushedView(items: seq<Item>)
    ensures ViewOf(Flushed(items)) == ViewOf(items)
    decreases |items|
  {
    hide LiveView;
    if items != [] {
      var n := |items| - 1;
      var front, last := items[..n], items[n];
      FlushedView(front);
      var out := last.(onDisk := true);
      EntriesConcat(Flushed(front), [out]);
      EntriesOfOne(out);
      assert Flushed(front) + [] == Flushed(front);
      SameViewThenSameView(EntriesOf(front), EntriesOf(Flushed(front)), last.entries);
      EmptyOnTop(EntriesOf(front));
    }
  }

  lemma OpenedView(files: seq<Item>)
    ensures ViewOf(Opened(files)) == ViewOf(files)
  {
    EmptyOnTopView(files, LastID(files) + 1);
  }

  lemma ReopenView(items: seq<Item>)
    ensures ViewOf(AfterReopen(items)) == ViewOf(items)
  {
    hide LiveView;
    FlushedView(items);
    EmptyOnTopView(Flushed(items), LastID(Flushed(items)) + 1);
  }

  // ---- what is lost with the process ----

  /** Segment i has the newest entry of k. */
  ghost predicate NewestIn(items: seq<Item>, k: Bytes, i: nat)
    requires i < |items|
  {
    k in items[i].entries && forall j :: i < j < |items| ==> k !in items[j].entries
  }

  /**
   The newest entry of a key, where it is in memory, says what the segments on disk say; nothing and a removal
   are the same.
   */
  ghost predicate MemoryAddsNothing(items: seq<Item>) {
    forall i, k ::
      0 <= i < |items| && !items[i].onDisk && NewestIn(items, k, i) ==>
      items[i].entries[k] == ValueIn(Merged(EntriesOf(Surviving(items))), k)
  }

  lemma {:induction false} FindNewest(items: seq<Item>, k: Bytes) returns (i: nat)
    requires exists j :: 0 <= j < |items| && k in items[j].entries
    ensures i < |items| && NewestIn(items, k, i)
    decreases |items|
  {
    i := |items| - 1;
    if k !in items[i].entries {
      var j :| 0 <= j < |items| && k in items[j].entries;
      assert items[..i][j] == items[j];
      i := FindNewest(items[..i], k);
    }
  }

  lemma {:induction false} NoneHasIt(items: seq<Item>, k: Bytes)
    requires forall i :: 0 <= i < |items| ==> k !in items[i].entries
    ensures k !in Merged(EntriesOf(items)) && k !in Merged(EntriesOf(Surviving(items)))
    decreases |items|
  {
    hide EntriesOf, Merged;
    if items == [] {
      NothingMergedYet();
    } else {
      var n := |items| - 1;
      NoneHasIt(items[..n], k);
      MergedOfMore(items[..n], items[n]);
      MergedOfMore(Surviving(items[..n]), items[n]);
      assert items == items[..n] + [items[n]] && Surviving(items[..n]) + [] == Surviving(items[..n]);
    }
  }

  lemma NothingMergedYet()
    ensures Merged(EntriesOf([])) == map[]
  {
  }

  lemma MergedOfMore(items: seq<Item>, x: Item)
    ensures Merged(EntriesOf(items + [x])) == Merged(EntriesOf(items)) + x.entries
  {
    EntriesConcat(items, [x]);
    EntriesOfOne(x);
    hide EntriesOf;
    assert (EntriesOf(items) + [x.entries])[..|items|] == EntriesOf(items);
  }

  lemma {:induction false} NewestValue(items: seq<Item>, k: Bytes, i: nat)
    requires i < |items| && NewestIn(items, k, i)
    ensures k in Merged(EntriesOf(items)) && Merged(EntriesOf(items))[k] == items[i].entries[k]
    ensures items[i].onDisk ==>
              k in Merged(EntriesOf(Surviving(items))) && Merged(EntriesOf(Surviving(items)))[k] == items[i].entries[k]
    decreases |items|
  {
    hide EntriesOf, Merged;
    var n := |items| - 1;
    MergedOfMore(items[..n], items[n]);
    MergedOfMore(Surviving(items[..n]), items[n]);
    assert items == items[..n] + [items[n]] && Surviving(items[..n]) + [] == Surviving(items[..n]);
    if i < n {
      NewestValue(items[..n], k, i);
    }
  }

  /** The segments on disk have the view of all exactly when those in memory add nothing. */
  lemma SurvivingViewExactlyWhen(items: seq<Item>)
    ensures ViewOf(Surviving(items)) == ViewOf(items) <==> MemoryAddsNothing(items)
  {
    hide EntriesOf, Merged, Surviving;
    if ViewOf(Surviving(items)) == ViewOf(items) {
      forall i, k | 0 <= i < |items| && !items[i].onDisk && NewestIn(items, k, i)
        ensures items[i].entries[k] == ValueIn(Merged(EntriesOf(Surviving(items))), k)
      {
        NewestValue(items, k, i);
        SameLiveValue(Merged(EntriesOf(Surviving(items))), Merged(EntriesOf(items)), k);
      }
    }
    if MemoryAddsNothing(items) {
      forall k
        ensures ValueIn(Merged(EntriesOf(Surviving(items))), k) == ValueIn(Merged(EntriesOf(items)), k)
      {
        SurvivingValue(items, k);
      }
      SameLive(Merged(EntriesOf(Surviving(items))), Merged(EntriesOf(items)));
    }
  }

  lemma SurvivingValue(items: seq<Item>, k: Bytes)
    requires MemoryAddsNothing(items)
    ensures ValueIn(Merged(EntriesOf(Surviving(items))), k) == ValueIn(Merged(EntriesOf(items)), k)
  {
    hide EntriesOf, Merged, Surviving;
    if exists i :: 0 <= i < |items| && k in items[i].entries {
      var i := FindNewest(items, k);
      NewestValue(items, k, i);
    } else {
      NoneHasIt(items, k);
    }
  }

  lemma SameLiveValue(a: Entries, b: Entries, k: Bytes)
    requires Live(a) == Live(b)
    ensures ValueIn(a, k) == ValueIn(b, k)
  {
    assert k in Live(a) <==> k in Live(b);
  }

  lemma SameLive(a: Entries, b: Entries)
    requires forall k :: ValueIn(a, k) == ValueIn(b, k)
    ensures Live(a) == Live(b)
  {
    forall k
      ensures k in Live(a) <==> k in Live(b)
      ensures k in Live(a) ==> Live(a)[k] == Live(b)[k]
    {
      assert ValueIn(a, k) == ValueIn(b, k);
    }
  }

  // ---- compaction ----

  datatype Pass = Pass(start: nat, count: nat)

  ghost predicate InList(p: Pass, items: seq<Item>) {
    2 <= p.count && p.start + p.count <= |items|
  }

  ghost function AfterPasses(items: seq<Item>, passes: seq<Pass>): seq<Item> {
    if passes == [] then items
    else
      var t, p := AfterPasses(items, passes[..|passes| - 1]), passes[|passes| - 1];
      if InList(p, t) then AfterMerge(t, p.start, p.count) else t
  }

  ghost predicate PassesOk(items: seq<Item>, passes: seq<Pass>) {
    passes == [] ||
    (PassesOk(items, passes[..|passes| - 1]) &&
      InList(passes[|passes| - 1], AfterPasses(items, passes[..|passes| - 1])))
  }

  lemma OnePassMore(items: seq<Item>, passes: seq<Pass>, p: Pass)
    requires PassesOk(items, passes) && InList(p, AfterPasses(items, passes))
    ensures PassesOk(items, passes + [p]) &&
            AfterPasses(items, passes + [p]) == AfterMerge(AfterPasses(items, passes), p.start, p.count)
  {
    assert (passes + [p])[..|passes|] == passes;
  }

  lemma {:induction false} PassesView(items: seq<Item>, passes: seq<Pass>)
    ensures ViewOf(AfterPasses(items, passes)) == ViewOf(items)
    decreases |passes|
  {
    hide ViewOf, AfterMerge;
    if passes != [] {
      var t, p := AfterPasses(items, passes[..|passes| - 1]), passes[|passes| - 1];
      PassesView(items, passes[..|passes| - 1]);
      if InList(p, t) {
        MergeView(t, p.start, p.count);
      }
    }
  }

  /** Segments on top of the list take no part. */
  lemma {:induction false} PassesBelow(items: seq<Item>, top: seq<Item>, passes: seq<Pass>)
    requires PassesOk(items, passes)
    ensures PassesOk(items + top, passes) && AfterPasses(items + top, passes) == AfterPasses(items, passes) + top
    decreases |passes|
  {
    hide AfterMerge;
    if passes != [] {
      var front, p := passes[..|passes| - 1], passes[|passes| - 1];
      PassesBelow(items, top, front);
      MergeBelow(AfterPasses(items, front), top, p.start, p.count);
    }
  }

  lemma MergeBelow(items: seq<Item>, top: seq<Item>, start: nat, count: nat)
    requires 1 <= count && start + count <= |items|
    ensures AfterMerge(items + top, start, count) == AfterMerge(items, start, count) + top
  {
    hide MergeOf;
    var t := items + top;
    assert t[..start] == items[..start] && t[start..start + count] == items[start..start + count];
    assert t[start + count..] == items[start + count..] + top;
  }

  // ---- point lookup ----

  /** What get returns, or that it read through the mapping of an empty key file, which is a null pointer. */
  datatype Fetched = Value(value: Bytes) | UnmappedRead

  /** MultiSegment::get: from the newest segment back, to the first value that is not empty. */
  ghost function FetchedFrom(items: seq<Item>, k: Bytes): Fetched {
    if items == [] then Value([])
    else
      var last := items[|items| - 1];
      if last.onDisk && last.entries == map[] then UnmappedRead
      else
        var v := ValueIn(last.entries, k);
        if v != [] then Value(v) else FetchedFrom(items[..|items| - 1], k)
  }

  /** No segment on disk is empty. */
  ghost predicate Searchable(items: seq<Item>) {
    forall i :: 0 <= i < |items| && items[i].onDisk ==> items[i].entries != map[]
  }

  /** Segment i is an empty file, and no newer segment has a value for k. */
  ghost predicate Reaches(items: seq<Item>, k: Bytes, i: nat)
    requires i < |items|
  {
    items[i].onDisk && items[i].entries == map[] && NewestNonEmpty(EntriesOf(items[i + 1..]), k) == []
  }

  /** get goes wrong exactly when it reaches an empty file, and otherwise finds the newest value. */
  lemma {:induction false} FetchedExactly(items: seq<Item>, k: Bytes)
    ensures FetchedFrom(items, k) == UnmappedRead <==> exists i :: 0 <= i < |items| && Reaches(items, k, i)
    ensures FetchedFrom(items, k) == UnmappedRead || FetchedFrom(items, k) == Value(NewestNonEmpty(EntriesOf(items), k))
    decreases |items|
  {
    hide Reaches, EntriesOf;
    if items == [] {
      NoEntries();
    } else {
      var n := |items| - 1;
      var front, last := items[..n], items[n];
      FetchedExactly(front, k);
      forall i | 0 <= i < n
        ensures Reaches(items, k, i) <==> ValueIn(last.entries, k) == [] && Reaches(front, k, i)
      {
        ReachesWithout(items, k, i);
      }
      ReachesLast(items, k);
      NewestStep(items, k);
    }
  }

  lemma ReachesLast(items: seq<Item>, k: Bytes)
    requires items != []
    ensures var n := |items| - 1; Reaches(items, k, n) <==> items[n].onDisk && items[n].entries == map[]
  {
    assert items[|items|..] == [];
  }

  lemma NewestStep(items: seq<Item>, k: Bytes)
    requires items != []
    ensures var n := |items| - 1; var v := ValueIn(items[n].entries, k);
            NewestNonEmpty(EntriesOf(items), k) == if v != [] then v else NewestNonEmpty(EntriesOf(items[..n]), k)
  {
    var n := |items| - 1;
    assert EntriesOf(items)[..n] == EntriesOf(items[..n]);
  }

  lemma ReachesWithout(items: seq<Item>, k: Bytes, i: nat)
    requires i < |items| - 1
    ensures var n := |items| - 1;
            Reaches(items, k, i) <==> ValueIn(items[n].entries, k) == [] && Reaches(items[..n], k, i)
  {
    var n := |items| - 1;
    var tail := items[i + 1..];
    assert tail[..|tail| - 1] == items[..n][i + 1..] && tail[|tail| - 1] == items[n];
  }

  lemma SearchableFetches(items: seq<Item>, k: Bytes)
    requires Searchable(items)
    ensures FetchedFrom(items, k) == Value(NewestNonEmpty(EntriesOf(items), k))
  {
    FetchedExactly(items, k);
    hide FetchedFrom, EntriesOf, NewestNonEmpty;
    assert forall i :: 0 <= i < |items| ==> !Reaches(items, k, i);
  }

  /** A key that no segment has is not found. */
  lemma AbsentIsNotFetched(items: seq<Item>, k: Bytes)
    requires Searchable(items) && forall i :: 0 <= i < |items| ==> k !in items[i].entries
    ensures FetchedFrom(items, k) == Value([])
  {
    SearchableFetches(items, k);
    hide FetchedFrom, Searchable;
    forall i | 0 <= i < |items|
      ensures k !in EntriesOf(items)[i]
    {
      EntriesAt(items, i);
    }
    hide EntriesOf;
    NewestNonEmptyIsSomewhere(EntriesOf(items), k);
  }

  /** Nothing outside the window is an empty file, and the merge of the window is not empty. */
  ghost predicate StaysSearchable(items: seq<Item>, start: nat, count: nat)
    requires start + count <= |items|
  {
    && Searchable(items[..start]) && Searchable(items[start + count..])
    && MergedEntries(EntriesOf(items[start..start + count]), start == 0) != map[]
  }

  /** When a merge leaves no empty segment on disk behind. */
  lemma SearchableAfterMergeExactlyWhen(items: seq<Item>, start: nat, count: nat)
    requires 1 <= count && start + count <= |items|
    ensures Searchable(AfterMerge(items, start, count)) <==> StaysSearchable(items, start, count)
  {
    hide MergedEntries, EntriesOf;
    var m := MergeOf(items[start..start + count], start == 0);
    SearchableConcat(items[..start] + [m], items[start + count..]);
    SearchableConcat(items[..start], [m]);
    assert Searchable([m]) <==> [m][0].entries != map[];
  }

  lemma SearchableConcat(a: seq<Item>, b: seq<Item>)
    ensures Searchable(a + b) <==> Searchable(a) && Searchable(b)
  {
    if Searchable(a + b) {
      forall i | 0 <= i < |a| + |b|
        ensures i < |a| && a[i].onDisk ==> a[i].entries != map[]
        ensures i < |b| && b[i].onDisk ==> b[i].entries != map[]
      {
        assert i < |a| ==> (a + b)[i] == a[i];
        assert i < |b| ==> (a + b)[|a| + i] == b[i];
      }
    }
  }

  /** The newest segment is the one in memory, so writing and swapping add no empty file. */
  lemma SearchableAfterWrite(items: seq<Item>, es: seq<KeyValue>)
    requires items != [] && !items[|items| - 1].onDisk
    ensures Searchable(AfterWrite(items, es)) <==> Searchable(items)
    ensures Searchable(AfterSwap(items)) <==> Searchable(items)
  {
    hide MapOf;
    var n := |items| - 1;
    assert items == items[..n] + [items[n]];
    SearchableConcat(items[..n], [items[n]]);
    SearchableConcat(items[..n], AfterWrite(items, es)[n..]);
    SearchableConcat(items, AfterSwap(items)[n + 1..]);
  }

  /** Nor do closing and opening. */
  lemma {:induction false} SearchableFlushed(items: seq<Item>)
    ensures Searchable(Flushed(items)) <==> Searchable(items)
    decreases |items|
  {
    if items != [] {
      var n := |items| - 1;
      SearchableFlushed(items[..n]);
      assert items == items[..n] + [items[n]];
      SearchableConcat(items[..n], [items[n]]);
      var out := Flushed(items)[|Flushed(items[..n])|..];
      assert Flushed(items) == Flushed(items[..n]) + out;
      SearchableConcat(Flushed(items[..n]), out);
    }
  }

  lemma SearchableAfterReopen(items: seq<Item>)
    ensures Searchable(AfterReopen(items)) <==> Searchable(items)
  {
    SearchableFlushed(items);
    SearchableConcat(Flushed(items), [NewMemory(LastID(Flushed(items)) + 1)]);
  }

  /**
   No file is empty, of two neighbours above the oldest segment at most one is, and from the oldest up to any
   but itself something is live.
   */
  ghost predicate Lively(items: seq<Item>) {
    && Searchable(items)
    && (forall i :: 1 <= i < |items| - 1 ==> items[i].entries != map[] || items[i + 1].entries != map[])
    && (forall n {:trigger items[..n]} :: 2 <= n <= |items| ==> ViewOf(items[..n]) != map[])
  }

  /** Whatever is merged in whatever order, no file is empty. */
  ghost predicate AlwaysSearchable(items: seq<Item>) {
    forall passes {:trigger AfterPasses(items, passes)} :: PassesOk(items, passes) ==>
      Searchable(AfterPasses(items, passes))
  }

  lemma AlwaysSearchableExactlyWhen(items: seq<Item>)
    ensures AlwaysSearchable(items) <==> Lively(items)
  {
    hide Searchable, AfterPasses, PassesOk, Lively;
    if Lively(items) {
      forall passes
        ensures Searchable(AfterPasses(items, passes))
      {
        LivelyStaysSearchable(items, passes);
      }
    }
    if AlwaysSearchable(items) {
      AlwaysSearchableIsLively(items);
    }
  }

  lemma AlwaysSearchableIsLively(items: seq<Item>)
    requires AlwaysSearchable(items)
    ensures Lively(items)
  {
    hide Searchable, ViewOf, AlwaysSearchable;
    assert Searchable(items) by { NoPassSearchable(items); }
    forall i | 1 <= i < |items| - 1
      ensures items[i].entries != map[] || items[i + 1].entries != map[]
    {
      OnePassSearchable(items, i, 2);
      if items[i].entries == map[] && items[i + 1].entries == map[] {
        TwoEmptyMerge(items, i);
      }
    }
    forall n | 2 <= n <= |items|
      ensures ViewOf(items[..n]) != map[]
    {
      OnePassSearchable(items, 0, n);
      BottomMerge(items, n);
    }
  }

  lemma NoPassSearchable(items: seq<Item>)
    requires AlwaysSearchable(items)
    ensures Searchable(items)
  {
    assert PassesOk(items, []) && AfterPasses(items, []) == items;
  }

  lemma OnePassSearchable(items: seq<Item>, start: nat, count: nat)
    requires AlwaysSearchable(items) && 2 <= count && start + count <= |items|
    ensures MergedEntries(EntriesOf(items[start..start + count]), start == 0) != map[]
  {
    hide MergedEntries, EntriesOf, AfterMerge, Searchable;
    var none: seq<Pass> := [];
    OnePassMore(items, none, Pass(start, count));
    assert PassesOk(items, none + [Pass(start, count)]);
    SearchableAfterMergeExactlyWhen(items, start, count);
  }

  lemma TwoEmptyMerge(items: seq<Item>, i: nat)
    requires 1 <= i < |items| - 1 && items[i].entries == map[] && items[i + 1].entries == map[]
    ensures MergedEntries(EntriesOf(items[i..i + 2]), false) == map[]
  {
    var w := items[i..i + 2];
    assert w == [items[i]] + [items[i + 1]];
    EntriesConcat([items[i]], [items[i + 1]]);
    EntriesOfOne(items[i]);
    EntriesOfOne(items[i + 1]);
    MergedConcat([map[]], [map[]]);
    SingleMerged(map[]);
  }

  lemma BottomMerge(items: seq<Item>, n: nat)
    requires n <= |items|
    ensures MergedEntries(EntriesOf(items[0..n]), true) == ViewOf(items[..n])
  {
    assert items[0..n] == items[..n];
  }

  lemma {:induction false} LivelyStaysSearchable(items: seq<Item>, passes: seq<Pass>)
    requires Lively(items)
    ensures Lively(AfterPasses(items, passes)) && Searchable(AfterPasses(items, passes))
    decreases |passes|
  {
    hide ViewOf, AfterMerge, Searchable;
    if passes != [] {
      var front, p := passes[..|passes| - 1], passes[|passes| - 1];
      LivelyStaysSearchable(items, front);
      var t := AfterPasses(items, front);
      if InList(p, t) {
        LivelyAfterMerge(t, p.start, p.count);
      }
    }
  }

  lemma LivelyAfterMerge(items: seq<Item>, start: nat, count: nat)
    requires Lively(items) && 2 <= count && start + count <= |items|
    ensures Lively(AfterMerge(items, start, count))
  {
    hide ViewOf, MergeOf, Searchable;
    var t, m := AfterMerge(items, start, count), MergeOf(items[start..start + count], start == 0);
    MergeIsLive(items, start, count);
    assert Searchable(t) by { SearchableAfterLivelyMerge(items, start, count); }
    forall i | 1 <= i < |t| - 1
      ensures t[i].entries != map[] || t[i + 1].entries != map[]
    {
      if i + 1 < start {
        assert t[i] == items[i] && t[i + 1] == items[i + 1];
      } else if i > start {
        var k := i + count - 1;
        assert t[i] == items[k] && t[i + 1] == items[k + 1];
      }
    }
    forall n | 2 <= n <= |t|
      ensures ViewOf(t[..n]) != map[]
    {
      if n <= start {
        assert t[..n] == items[..n];
      } else {
        var k := n + count - 1;
        MergeView(items[..k], start, count);
        assert items[..k][start..start + count] == items[start..start + count];
        assert t[..n] == AfterMerge(items[..k], start, count);
      }
    }
  }

  lemma SearchableAfterLivelyMerge(items: seq<Item>, start: nat, count: nat)
    requires Searchable(items) && 1 <= count && start + count <= |items|
    requires MergeOf(items[start..start + count], start == 0).entries != map[]
    ensures Searchable(AfterMerge(items, start, count))
  {
    hide Searchable, AfterMerge;
    SearchableAfterMergeExactlyWhen(items, start, count);
    SearchableConcat(items[..start], items[start..]);
    SearchableConcat(items[..start + count], items[start + count..]);
    assert items == items[..start] + items[start..] && items == items[..start + count] + items[start + count..];
  }

  lemma MergeIsLive(items: seq<Item>, start: nat, count: nat)
    requires Lively(items) && 2 <= count && start + count <= |items|
    ensures MergeOf(items[start..start + count], start == 0).entries != map[]
  {
    hide Searchable, Merged;
    var w := items[start..start + count];
    if start == 0 {
      assert w == items[..count];
    } else {
      var j := if items[start].entries != map[] then 0 else 1;
      assert w[j].entries != map[];
      EntriesAt(w, j);
      var k :| k in w[j].entries;
      if k !in Merged(EntriesOf(w)) {
        NotMergedNotIn(EntriesOf(w), k, j);
      }
    }
  }

  /** Two empty memory segments, as two snapshots in a row leave them, become an empty file. */
  lemma EmptyMergeIsUnsearchable(k: Bytes)
    ensures var items := AfterMerge([NewMemory(1), NewMemory(2), NewMemory(3)], 0, 2);
            Searchable([NewMemory(1), NewMemory(2), NewMemory(3)]) && FetchedFrom(items, k) == UnmappedRead
  {
    var before := [NewMemory(1), NewMemory(2), NewMemory(3)];
    NothingMerged();
    hide EntriesOf, MergedEntries;
    assert before[0..2] == [NewMemory(1), NewMemory(2)];
    var items := AfterMerge(before, 0, 2);
    assert items == [Item(1, 2, map[], true), NewMemory(3)];
    EmptyFileReached(k);
  }

  lemma NothingMerged()
    ensures MergedEntries(EntriesOf([NewMemory(1), NewMemory(2)]), true) == map[]
  {
    EntriesConcat([NewMemory(1)], [NewMemory(2)]);
    EntriesOfOne(NewMemory(1));
    EntriesOfOne(NewMemory(2));
    assert [NewMemory(1)] + [NewMemory(2)] == [NewMemory(1), NewMemory(2)];
    MergedConcat([map[]], [map[]]);
    SingleMerged(map[]);
  }

  lemma EmptyFileReached(k: Bytes)
    ensures FetchedFrom([Item(1, 2, map[], true), NewMemory(3)], k) == UnmappedRead
  {
    var items := [Item(1, 2, map[], true), NewMemory(3)];
    assert items[..1] == [Item(1, 2, map[], true)];
  }

  /** A value and, in a newer segment, its removal leave an empty file as well when they are the oldest. */
  lemma RemovalsMergeToNothing(k: Bytes, v: Bytes)
    requires v != []
    ensures MergedEntries([map[k := v], map[k := []]], true) == map[]
  {
    var ms: seq<Entries> := [map[k := v]] + [map[k := []]];
    MergedConcat([map[k := v]], [map[k := []]]);
    SingleMerged(map[k := v]);
    SingleMerged(map[k := []]);
    assert ms == [map[k := v], map[k := []]];
    hide Merged;
    assert Merged(ms) == map[k := []];
  }
}
