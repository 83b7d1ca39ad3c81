/** The database's list of segments in detail: appending to it, committing a merge, writing it out, finding it again. */
module SegmentLists {
  import opened Bytes
  import opened KeyValues
  import opened KeyFile
  import opened MemorySegments
  import opened MultiSegments
  import opened Segments
  import opened Listings
  import opened Views
  import opened Directory
  import opened Merger
  import opened Compaction
  import opened StoredFiles

  ghost predicate Below(segments: seq<Segment>, id: nat) {
    forall i :: 0 <= i < |segments| ==> segments[i].UpperID() < id
  }

  lemma AfterDeletion(dir: map<Name, FilePair>, layouts: map<Name, Layout>, active: seq<Name>, scheduled: set<Name>)
    requires FilesOk(dir, layouts) && DirOk(dir.Keys, active) && scheduled !! Elements(active)
    ensures FilesOk(dir - scheduled, layouts) && DirOk((dir - scheduled).Keys, active)
  {
    DeletedOk(dir.Keys, active, scheduled);
    assert (dir - scheduled).Keys == dir.Keys - scheduled;
    hide DirOk, FileOk;
  }

  method MaxUpperID(segments: seq<Segment>) returns (maxSegID: nat)
    ensures Below(segments, maxSegID + 1) && IsMaxUpper(segments, maxSegID)
  {
    maxSegID := 0;
    for i := 0 to |segments|
      invariant forall j :: 0 <= j < i ==> segments[j].UpperID() <= maxSegID
      invariant if i == 0 then maxSegID == 0 else exists j :: 0 <= j < i && segments[j].UpperID() == maxSegID
    {
      maxSegID := if maxSegID < segments[i].UpperID() then segments[i].UpperID() else maxSegID;
    }
  }

  lemma AppendKeepsOrder(segments: seq<Segment>, dir: map<Name, FilePair>, scheduled: set<Name>,
                         layouts: map<Name, Layout>, m: MemorySegment)
    requires InOrder(segments, dir, scheduled, layouts) && Below(segments, m.id)
    ensures InOrder(segments + [InMemory(m)], dir, scheduled, layouts) && Below(segments + [InMemory(m)], m.id + 1)
  {
    hide RangesAscend, AllCovered, FilesOk, NameOf, OnFile;
    var t := segments + [InMemory(m)];
    AppendKeepsRanges(segments, m);
    AppendKeepsCover(segments, m, dir.Keys + scheduled);
    AppendKeepsFiles(segments, m, dir, scheduled, layouts);
  }

  lemma AppendKeepsFiles(segments: seq<Segment>, m: MemorySegment, dir: map<Name, FilePair>, scheduled: set<Name>,
                         layouts: map<Name, Layout>)
    requires AllOnFile(segments, dir, layouts) && Unscheduled(segments, scheduled)
    ensures AllOnFile(segments + [InMemory(m)], dir, layouts) && Unscheduled(segments + [InMemory(m)], scheduled)
  {
    hide NameOf;
    assert OnFile(InMemory(m), dir, layouts);
    hide OnFile;
  }

  lemma AppendKeepsRanges(segments: seq<Segment>, m: MemorySegment)
    requires RangesAscend(Names(segments)) && Below(segments, m.id)
    ensures RangesAscend(Names(segments + [InMemory(m)]))
  {
    var ns, ts := Names(segments), Names(segments + [InMemory(m)]);
    assert ts == ns + [Name(m.id, m.id)];
    assert forall i :: 0 <= i < |ns| ==> ns[i].upper == segments[i].UpperID();
  }

  lemma AppendKeepsCover(segments: seq<Segment>, m: MemorySegment, files: set<Name>)
    requires AllCovered(files, segments)
    ensures AllCovered(files, segments + [InMemory(m)])
  {
    var t := segments + [InMemory(m)];
    forall f | f in files
      ensures f.lower <= f.upper && CoveredOnDisk(f, t)
    {
      var i := Coverer(files, segments, f);
      assert t[i] == segments[i];
    }
  }

  lemma AppendKeepsHold(segments: seq<Segment>, ms: seq<Entries>, repr: set<object>, m: MemorySegment)
    requires |ms| == |segments| && Hold(segments, ms, repr) && m.Valid()
    ensures Hold(segments + [InMemory(m)], ms + [m.Contents()], repr + m.Repr)
  {
    HoldMore(segments, ms, repr, repr + m.Repr);
    HoldMemory(m);
    HoldMore([InMemory(m)], [m.Contents()], m.Repr, repr + m.Repr);
    HoldConcat(segments, ms, [InMemory(m)], [m.Contents()], repr + m.Repr);
  }

  lemma LiveOfRange(m: Entries, lower: Bytes, upper: Bytes)
    ensures Live(Range(m, lower, upper)) == Range(Live(m), lower, upper)
  {
    hide InRange;
  }

  lemma WindowFits(ms: seq<Entries>, start: nat, count: nat)
    requires FitsDisk(ms) && NoEmptyKey(ms) && start + count <= |ms|
    ensures var w := ms[start..start + count];
            var after := ms[..start] + [MergedEntries(w, start == 0)] + ms[start + count..];
            DiskSized(Merged(w)) && NoEmptyKey(w) && FitsDisk(after) && NoEmptyKey(after)
  {
    hide FitsDisk, Merged, MergedEntries;
    var w := ms[start..start + count];
    assert ms == ms[..start] + w + ms[start + count..];
    FitsAfterMerge(ms[..start], w, ms[start + count..], start == 0);
    MergedHasNoEmptyKey(w);
    assert [] !in MergedEntries(w, start == 0) by { EntriesOfMerge(w, start == 0); }
  }

  lemma EntriesOfMerge(w: seq<Entries>, purge: bool)
    ensures forall k :: k in MergedEntries(w, purge) ==> k in Merged(w)
  {
    hide Merged;
  }

  lemma NameIsNew(segments: seq<Segment>, dir: map<Name, FilePair>, scheduled: set<Name>, layouts: map<Name, Layout>,
                  start: nat, count: nat)
    requires InOrder(segments, dir, scheduled, layouts) && 2 <= count && start + count <= |segments|
    ensures MergeName(Names(segments), start, count) !in dir.Keys + scheduled
  {
    hide RangesAscend, AllCovered, FilesOk, OnFile;
    MergedNameIsNew(segments, dir.Keys + scheduled, start, count);
  }

  lemma BelowAfterCommit(segments: seq<Segment>, start: nat, count: nat, d: DiskSegment, bound: nat)
    requires Below(segments, bound) && 1 <= count && start + count <= |segments|
    requires d.files.upperID == segments[start + count - 1].UpperID()
    ensures Below(WithMerged(segments, start, count, d), bound)
  {
    WithMergedAt(segments, start, count, d);
    hide WithMerged;
  }

  /** What a commit does to list and directory. */
  lemma CommitKeepsOrderInAll(segments: seq<Segment>, dir: map<Name, FilePair>, scheduled: set<Name>,
                              layouts: map<Name, Layout>,
                              start: nat, count: nat, d: DiskSegment, bound: nat)
    requires InOrder(segments, dir, scheduled, layouts) && Below(segments, bound) && 2 <= count &&
             start + count <= |segments| && d.Valid()
    requires d.files.lowerID == segments[start].LowerID() && d.files.upperID == segments[start + count - 1].UpperID()
    ensures var f := NameOf(OnDisk(d)); var t := WithMerged(segments, start, count, d);
            var inputs := InputFiles(segments[start..start + count]);
            && InOrder(t, dir[f := FilePair(d.files.keyFile, d.files.dataFile)], scheduled + inputs, layouts[f := d.L])
            && Below(t, bound) && InputFiles(segments) <= InputFiles(t) + (scheduled + inputs)
  {
    hide InOrder, Below, DiskSegment.Valid, InputFiles, WithMerged;
    NameIsNew(segments, dir, scheduled, layouts, start, count);
    CommitKeepsOrder(segments, dir, scheduled, layouts, start, count, d);
    BelowAfterCommit(segments, start, count, d, bound);
    InputsAreScheduled(segments, start, count, d);
  }

  /** And to what the list holds. */
  lemma CommitKeepsContents(segments: seq<Segment>, ms: seq<Entries>, repr: set<object>, start: nat, count: nat,
                            d: DiskSegment)
    requires |ms| == |segments| && Hold(segments, ms, repr) && 2 <= count && start + count <= |segments| && d.Valid()
    requires d.files.lowerID == segments[start].LowerID() && d.files.upperID == segments[start + count - 1].UpperID()
    requires d.Contents() == MergedEntries(ms[start..start + count], start == 0)
    ensures var t, items := WithMerged(segments, start, count, d), Items(segments, ms);
            var tm := ms[..start] + [d.Contents()] + ms[start + count..];
            && |t| == |tm| == |segments| - count + 1 && Hold(t, tm, repr) && LiveView(tm) == LiveView(ms)
            && Items(t, tm) == AfterMerge(items, start, count) &&
               (Searchable(Items(t, tm)) <==> StaysSearchable(items, start, count))
  {
    hide Hold, DiskSegment.Valid, DiskSegment.Contents, WithMerged, LiveView, Items, AfterMerge, Searchable;
    hide StaysSearchable, MergedEntries;
    HoldAfterCommit(segments, ms, repr, start, count, d);
    WindowMergeKeepsView(ms, start, count);
    ItemsAfterCommit(segments, ms, start, count, d);
    SearchableAfterMergeExactlyWhen(Items(segments, ms), start, count);
  }

  /**
   The commit: the state's list with the merged segment in place of the window. When the window is no
   longer where the merger found it, that is an "unexpected segment change".
   */
  method Commit(segments: seq<Segment>, startAt: nat, mergable: seq<Segment>, newseg: DiskSegment)
    returns (r: Option<seq<Segment>>)
    requires startAt + |mergable| <= |segments|
    ensures r.Some? <==> segments[startAt..startAt + |mergable|] == mergable
    ensures r.Some? ==> r.value == WithMerged(segments, startAt, |mergable|, newseg)
  {
    var same := WindowUnchanged(segments, startAt, mergable);
    if !same {
      return None;
    }
    var end := startAt + |mergable|;
    var newsegments := [];
    for i := 0 to startAt
      invariant newsegments == segments[..i]
    {
      assert segments[..i + 1] == segments[..i] + [segments[i]];
      newsegments := newsegments + [segments[i]];
    }
    newsegments := newsegments + [OnDisk(newseg)];
    ghost var before := newsegments;
    for i := end to |segments|
      invariant newsegments == before + segments[end..i]
    {
      assert segments[end..i + 1] == segments[end..i] + [segments[i]];
      newsegments := newsegments + [segments[i]];
    }
    return Some(newsegments);
  }

  method WindowUnchanged(segments: seq<Segment>, startAt: nat, mergable: seq<Segment>) returns (same: bool)
    requires startAt + |mergable| <= |segments|
    ensures same <==> segments[startAt..startAt + |mergable|] == mergable
  {
    ghost var window := segments[startAt..startAt + |mergable|];
    for i := 0 to |mergable|
      invariant forall j :: 0 <= j < i ==> window[j] == mergable[j]
    {
      if mergable[i] != segments[startAt + i] {
        assert window[i] == segments[startAt + i];
        return false;
      }
    }
    return true;
  }

  // ---- writing out what is in memory ----

  /** The segments kept: the first n are on disk, and all is in order. */
  ghost predicate FlushOk(kept: seq<Segment>, kms: seq<Entries>, n: nat, repr: set<object>,
                          dir: map<Name, FilePair>, scheduled: set<Name>, layouts: map<Name, Layout>)
    reads repr
  {
    && |kms| == |kept| && Hold(kept, kms, repr) && NoEmptyKey(kms) && FitsDisk(kms)
    && InOrder(kept, dir, scheduled, layouts)
    && n <= |kept| && forall i :: 0 <= i < n ==> kept[i].OnDisk?
  }

  /**
   The first n of the segments kept are what writing out the first i of the list gives; the others are the rest
   of the list.
   */
  ghost predicate WrittenOut(segments: seq<Segment>, ms: seq<Entries>, i: nat, kept: seq<Segment>, kms: seq<Entries>,
                             n: nat) {
    && |ms| == |segments| && i <= |segments| && |kms| == |kept| && n <= |kept|
    && kept[n..] == segments[i..] && kms[n..] == ms[i..]
    && Items(kept[..n], kms[..n]) == Flushed(Items(segments[..i], ms[..i]))
    && InputFiles(segments) <= InputFiles(kept)
  }

  ghost predicate Flushing(segments: seq<Segment>, ms: seq<Entries>, i: nat, kept: seq<Segment>, kms: seq<Entries>,
                           n: nat, repr: set<object>,
                           dir: map<Name, FilePair>, scheduled: set<Name>, layouts: map<Name, Layout>)
    reads repr
  {
    FlushOk(kept, kms, n, repr, dir, scheduled, layouts) && WrittenOut(segments, ms, i, kept, kms, n)
  }

  lemma FlushStarts(segments: seq<Segment>, ms: seq<Entries>, repr: set<object>,
                    dir: map<Name, FilePair>, scheduled: set<Name>, layouts: map<Name, Layout>)
    requires |ms| == |segments| && Hold(segments, ms, repr) && NoEmptyKey(ms) && FitsDisk(ms) &&
             InOrder(segments, dir, scheduled, layouts)
    ensures Flushing(segments, ms, 0, segments, ms, 0, repr, dir, scheduled, layouts)
  {
    hide Hold, InOrder, FitsDisk, NoEmptyKey, InputFiles;
  }

  lemma FlushFacts(segments: seq<Segment>, ms: seq<Entries>, i: nat, kept: seq<Segment>, kms: seq<Entries>, n: nat,
                   repr: set<object>,
                   dir: map<Name, FilePair>, scheduled: set<Name>, layouts: map<Name, Layout>)
    requires Flushing(segments, ms, i, kept, kms, n, repr, dir, scheduled, layouts) && i < |segments|
    ensures |ms| == |segments| && |kms| == |kept| && n < |kept| && kept[n] == segments[i] && kms[n] == ms[i]
    ensures Hold([segments[i]], [ms[i]], repr) && [] !in ms[i] && DiskSized(ms[i])
    ensures segments[i].InMemory? ==> NameOf(segments[i]) !in dir.Keys + scheduled
  {
    hide Hold, RangesAscend, FilesOk, AllOnFile, Unscheduled, CoveredOnDisk, FitsDisk, DiskSized, Items, Flushed;
    hide InputFiles;
    assert kept[n] == kept[n..][0] == segments[i] && kms[n] == kms[n..][0] == ms[i];
    HoldPart(kept, kms, repr, n, n + 1);
    assert kept[n..n + 1] == [kept[n]] && kms[n..n + 1] == [kms[n]];
    if segments[i].InMemory? {
      MemoryNameIsNew(kept, dir.Keys + scheduled, n);
    }
    WindowFits(kms, n, 1);
    SingleMerged(kms[n]);
  }

  lemma FlushPasses(segments: seq<Segment>, ms: seq<Entries>, i: nat, kept: seq<Segment>, kms: seq<Entries>, n: nat,
                    repr: set<object>,
                    dir: map<Name, FilePair>, scheduled: set<Name>, layouts: map<Name, Layout>)
    requires Flushing(segments, ms, i, kept, kms, n, repr, dir, scheduled, layouts) && i < |segments| &&
             segments[i].OnDisk?
    ensures Flushing(segments, ms, i + 1, kept, kms, n + 1, repr, dir, scheduled, layouts)
  {
    hide Hold, InOrder, FitsDisk, NoEmptyKey, InputFiles, Items, Flushed;
    assert kept[n] == kept[n..][0] == segments[i] && kms[n] == kms[n..][0] == ms[i];
    ItemsSplit(segments, ms, i);
    ItemsSplit(kept, kms, n);
    FlushedAppend(Items(segments[..i], ms[..i]), ItemOf(segments[i], ms[i]));
  }

  lemma FlushDrops(segments: seq<Segment>, ms: seq<Entries>, i: nat, kept: seq<Segment>, kms: seq<Entries>, n: nat,
                   repr: set<object>,
                   dir: map<Name, FilePair>, scheduled: set<Name>, layouts: map<Name, Layout>)
    requires Flushing(segments, ms, i, kept, kms, n, repr, dir, scheduled, layouts) && i < |segments|
    requires segments[i].InMemory? && |ms| == |segments| && ms[i] == map[]
    ensures n < |kept| && |kms| == |kept|
    ensures Flushing(segments, ms, i + 1, Without(kept, n), kms[..n] + kms[n + 1..], n, repr, dir, scheduled, layouts)
  {
    hide Hold, InOrder, FitsDisk, NoEmptyKey, InputFiles, Items, Flushed, Without;
    assert kept[n] == kept[n..][0] == segments[i] && kms[n] == kms[n..][0] == ms[i];
    DroppedIsOk(kept, kms, n, repr, dir, scheduled, layouts);
    InputsWithout(kept, n);
    OneDropped(segments, ms, i, kept, kms, n);
  }

  lemma DroppedIsOk(kept: seq<Segment>, kms: seq<Entries>, n: nat, repr: set<object>,
                    dir: map<Name, FilePair>, scheduled: set<Name>, layouts: map<Name, Layout>)
    requires FlushOk(kept, kms, n, repr, dir, scheduled, layouts) && n < |kept| && kept[n].InMemory? &&
             |kms| == |kept| && kms[n] == map[]
    ensures FlushOk(Without(kept, n), kms[..n] + kms[n + 1..], n, repr, dir, scheduled, layouts)
  {
    hide Hold, InOrder, FitsDisk;
    DropKeepsOrder(kept, dir, scheduled, layouts, n);
    var a, b := kms[..n], kms[n + 1..];
    assert kms == a + [map[]] + b;
    FitsWithout(a, b);
    HoldPart(kept, kms, repr, 0, n);
    HoldPart(kept, kms, repr, n + 1, |kept|);
    assert kept[0..n] == kept[..n] && kms[0..n] == a && kept[n + 1..|kept|] == kept[n + 1..] && kms[n + 1..|kept|] == b;
    HoldConcat(kept[..n], a, kept[n + 1..], b, repr);
  }

  lemma OneDropped(segments: seq<Segment>, ms: seq<Entries>, i: nat, kept: seq<Segment>, kms: seq<Entries>, n: nat)
    requires WrittenOut(segments, ms, i, kept, kms, n) && i < |segments| && n < |kept| && segments[i].InMemory? &&
             ms[i] == map[]
    requires InputFiles(segments) <= InputFiles(Without(kept, n))
    ensures WrittenOut(segments, ms, i + 1, Without(kept, n), kms[..n] + kms[n + 1..], n)
  {
    hide Items, Flushed, InputFiles;
    var t, tm := Without(kept, n), kms[..n] + kms[n + 1..];
    ItemsSplit(segments, ms, i);
    FlushedAppend(Items(segments[..i], ms[..i]), ItemOf(segments[i], ms[i]));
    assert t[..n] == kept[..n] && tm[..n] == kms[..n];
    assert t[n..] == kept[n..][1..] && tm[n..] == kms[n..][1..];
    assert segments[i..][1..] == segments[i + 1..] && ms[i..][1..] == ms[i + 1..];
  }

  lemma FlushWrites(segments: seq<Segment>, ms: seq<Entries>, i: nat, kept: seq<Segment>, kms: seq<Entries>, n: nat,
                    repr: set<object>,
                    dir: map<Name, FilePair>, scheduled: set<Name>, layouts: map<Name, Layout>, d: DiskSegment)
    requires Flushing(segments, ms, i, kept, kms, n, repr, dir, scheduled, layouts) && i < |segments|
    requires segments[i].InMemory? && |ms| == |segments| && ms[i] != map[]
    requires d.Valid() && d.Contents() == ms[i] && NameOf(OnDisk(d)) == NameOf(segments[i]) &&
             NameOf(OnDisk(d)) !in dir.Keys + scheduled
    ensures n < |kept|
    ensures var f := NameOf(OnDisk(d));
            Flushing(segments, ms, i + 1, WithMerged(kept, n, 1, d), kms, n + 1, repr,
                     dir[f := FilePair(d.files.keyFile, d.files.dataFile)], scheduled, layouts[f := d.L])
  {
    hide Hold, InOrder, FitsDisk, NoEmptyKey, InputFiles, Items, Flushed, WithMerged, DiskSegment.Valid;
    hide DiskSegment.Contents;
    assert kept[n] == kept[n..][0] == segments[i] && kms[n] == kms[n..][0] == ms[i];
    WrittenIsOk(kept, kms, n, repr, dir, scheduled, layouts, d);
    InputsWritten(kept, n, d);
    OneReplaced(segments, ms, i, kept, kms, n, d);
  }

  lemma WrittenIsOk(kept: seq<Segment>, kms: seq<Entries>, n: nat, repr: set<object>,
                    dir: map<Name, FilePair>, scheduled: set<Name>, layouts: map<Name, Layout>, d: DiskSegment)
    requires FlushOk(kept, kms, n, repr, dir, scheduled, layouts) && n < |kept| && kept[n].InMemory? && |kms| == |kept|
    requires d.Valid() && d.Contents() == kms[n] && NameOf(OnDisk(d)) == NameOf(kept[n]) &&
             NameOf(OnDisk(d)) !in dir.Keys + scheduled
    ensures var f := NameOf(OnDisk(d));
            FlushOk(WithMerged(kept, n, 1, d), kms, n + 1, repr, dir[f := FilePair(d.files.keyFile, d.files.dataFile)],
              scheduled, layouts[f := d.L])
  {
    hide Hold, InOrder, FitsDisk, NoEmptyKey, DiskSegment.Valid, DiskSegment.Contents;
    assert NameOf(OnDisk(d)) == MergeName(Names(kept), n, 1);
    CommitKeepsOrder(kept, dir, scheduled, layouts, n, 1, d);
    HoldAfterCommit(kept, kms, repr, n, 1, d);
    assert kms == kms[..n] + [d.Contents()] + kms[n + 1..];
    assert scheduled + InputFiles(kept[n..n + 1]) == scheduled;
  }

  lemma OneReplaced(segments: seq<Segment>, ms: seq<Entries>, i: nat, kept: seq<Segment>, kms: seq<Entries>, n: nat,
                    d: DiskSegment)
    requires WrittenOut(segments, ms, i, kept, kms, n) && i < |segments| && n < |kept| && kept[n] == segments[i] &&
             kms[n] == ms[i]
    requires ms[i] != map[] && NameOf(OnDisk(d)) == NameOf(segments[i])
    requires InputFiles(segments) <= InputFiles(WithMerged(kept, n, 1, d))
    ensures WrittenOut(segments, ms, i + 1, WithMerged(kept, n, 1, d), kms, n + 1)
  {
    hide Items, Flushed, InputFiles;
    var t := WithMerged(kept, n, 1, d);
    WithMergedAt(kept, n, 1, d);
    ItemsSplit(segments, ms, i);
    ItemsSplit(t, kms, n);
    FlushedAppend(Items(segments[..i], ms[..i]), ItemOf(segments[i], ms[i]));
    assert t[..n] == kept[..n] && t[n + 1..] == kept[n..][1..] && kms[n + 1..] == kms[n..][1..];
    assert segments[i..][1..] == segments[i + 1..] && ms[i..][1..] == ms[i + 1..];
  }

  lemma FlushEnds(segments: seq<Segment>, ms: seq<Entries>, kept: seq<Segment>, kms: seq<Entries>, n: nat,
                  repr: set<object>,
                  dir: map<Name, FilePair>, scheduled: set<Name>, layouts: map<Name, Layout>)
    requires Flushing(segments, ms, |segments|, kept, kms, n, repr, dir, scheduled, layouts)
    ensures var active := Names(kept);
            && FilesOk(dir, layouts) && DirOk(dir.Keys, active) && Elements(active) <= layouts.Keys &&
               scheduled !! Elements(active)
            && |ms| == |segments| && FileItems(layouts, active) == Flushed(Items(segments, ms)) &&
               InputFiles(segments) <= Elements(active)
  {
    hide Hold, FitsDisk, NoEmptyKey, RangesAscend, FilesOk, AllOnFile, AllCovered, Unscheduled, DirOk, Elements;
    hide FileItems, Items, Flushed, InputFiles;
    assert segments[|segments|..] == [] && |kept[n..]| == 0;
    assert kept[..n] == kept && kms[..n] == kms && segments[..|segments|] == segments && ms[..|ms|] == ms;
    OnDiskIsOpenable(kept, dir, scheduled, layouts);
    FilesAreHeld(kept, kms, repr, dir, layouts);
    InputsAreNames(kept);
  }

  lemma FlushedAppend(items: seq<Item>, x: Item)
    ensures Flushed(items + [x]) == Flushed(items) + if x.onDisk || x.entries != map[] then [x.(onDisk := true)] else []
  {
    assert (items + [x])[..|items|] == items;
  }

  lemma ItemsSplit(segments: seq<Segment>, ms: seq<Entries>, i: nat)
    requires |ms| == |segments| && i < |ms|
    ensures Items(segments[..i + 1], ms[..i + 1]) == Items(segments[..i], ms[..i]) + [ItemOf(segments[i], ms[i])]
  {
    assert segments[..i + 1][..i] == segments[..i] && ms[..i + 1][..i] == ms[..i];
  }

  lemma FitsWithout(a: seq<Entries>, b: seq<Entries>)
    requires FitsDisk(a + [map[]] + b)
    ensures FitsDisk(a + b)
  {
    FitsParts(a + [map[]], b);
    FitsParts(a, [map[]]);
    WeightConcat(a + [map[]], b);
    WeightConcat(a, [map[]]);
    WeightConcat(a, b);
    hide KeysFit, Weight;
    forall i | 0 <= i < |a + b|
      ensures KeysFit((a + b)[i])
    {
    }
  }

  lemma NoPasses(items: seq<Item>)
    ensures PassesOk(items, []) && AfterPasses(items, []) == items
  {
  }

  lemma {:induction false} FlushedIsShorter(items: seq<Item>)
    ensures |Flushed(items)| <= |items|
    decreases |items|
  {
    if items != [] {
      FlushedIsShorter(items[..|items| - 1]);
    }
  }

  lemma SurvivingAppend(items: seq<Item>, x: Item)
    ensures Surviving(items + [x]) == Surviving(items) + if x.onDisk then [x] else []
  {
    assert (items + [x])[..|items|] == items;
  }

  /** The files of the segments on disk hold what those segments do. */
  lemma {:induction false} SurvivingFiles(segments: seq<Segment>, ms: seq<Entries>, repr: set<object>,
                                          dir: map<Name, FilePair>, layouts: map<Name, Layout>)
    requires |ms| == |segments| && Hold(segments, ms, repr) && AllOnFile(segments, dir, layouts)
    ensures FilesSurvive(segments, ms, layouts)
    decreases |segments|
  {
    hide Hold, NameOf, OnFile, FilesSurvive;
    if segments == [] {
      NothingSurvives(layouts);
    } else {
      var n := |segments| - 1;
      HoldsAt(segments, ms, repr, n);
      HoldPart(segments, ms, repr, 0, n);
      assert segments[0..n] == segments[..n] && ms[0..n] == ms[..n];
      assert segments == segments[..n] + [segments[n]] && ms == ms[..n] + [ms[n]];
      SurvivingFiles(segments[..n], ms[..n], repr, dir, layouts);
      assert OnFile(segments[n], dir, layouts);
      OneMoreSurvives(segments[..n], ms[..n], segments[n], ms[n], dir, layouts);
    }
  }

  ghost predicate FilesSurvive(segments: seq<Segment>, ms: seq<Entries>, layouts: map<Name, Layout>) {
    && |ms| == |segments|
    && Elements(Names(OnDiskOnly(segments))) <= layouts.Keys
    && FileItems(layouts, Names(OnDiskOnly(segments))) == Surviving(Items(segments, ms))
  }

  lemma NothingSurvives(layouts: map<Name, Layout>)
    ensures FilesSurvive([], [], layouts)
  {
  }

  lemma OneMoreSurvives(front: seq<Segment>, fm: seq<Entries>, last: Segment, m: Entries, dir: map<Name, FilePair>,
                        layouts: map<Name, Layout>)
    requires FilesSurvive(front, fm, layouts) && OnFile(last, dir, layouts)
    requires last.OnDisk? ==> last.d.Contents() == m
    ensures FilesSurvive(front + [last], fm + [m], layouts)
  {
    hide NameOf, OnFile, OnDiskOnly, FileItems, Elements, Surviving, Items;
    OnDiskOnlyAppend(front, last);
    SurvivingAppend(Items(front, fm), ItemOf(last, m));
    ItemsAppend(front, fm, last, m);
    if last.OnDisk? {
      OnFileMeans(last, dir, layouts);
      NamedByIDs(last);
      FileItemsAppend(layouts, Names(OnDiskOnly(front)), NameOf(last));
      assert Names(OnDiskOnly(front) + [last]) == Names(OnDiskOnly(front)) + [NameOf(last)];
    } else {
      assert OnDiskOnly(front) + [] == OnDiskOnly(front);
    }
  }

  lemma FileItemsAppend(layouts: map<Name, Layout>, names: seq<Name>, f: Name)
    requires Elements(names) <= layouts.Keys && f in layouts
    ensures Elements(names + [f]) <= layouts.Keys
    ensures FileItems(layouts, names + [f]) ==
            FileItems(layouts, names) + [Item(f.lower, f.upper, MapOf(layouts[f].entries), true)]
  {
    assert (names + [f])[..|names|] == names;
    assert Elements(names + [f]) == Elements(names) + {f};
  }

  lemma {:induction false} OnDiskOnlyAppend(a: seq<Segment>, s: Segment)
    ensures OnDiskOnly(a + [s]) == OnDiskOnly(a) + if s.OnDisk? then [s] else []
    decreases |a|
  {
    if a == [] {
      assert [s][1..] == [];
    } else {
      assert (a + [s])[1..] == a[1..] + [s];
      OnDiskOnlyAppend(a[1..], s);
    }
  }

  /** IDs continue after the last one in use. */
  lemma LastIDOfFiles(layouts: map<Name, Layout>, active: seq<Name>)
    requires Elements(active) <= layouts.Keys
    ensures LastID(FileItems(layouts, active)) == if active == [] then 0 else active[|active| - 1].upper
  {
    if active != [] {
      FileItemsAt(layouts, active, |active| - 1);
    }
  }

  lemma LastIDIsMax(segments: seq<Segment>, ms: seq<Entries>, maxSegID: nat)
    requires |ms| == |segments| && RangesAscend(Names(segments)) && IsMaxUpper(segments, maxSegID)
    ensures LastID(Items(segments, ms)) == maxSegID
  {
    if segments != [] {
      var n := |segments| - 1;
      forall i | 0 <= i < n
        ensures segments[i].UpperID() <= segments[n].UpperID()
      {
        Ascends(Names(segments), i, n);
      }
    }
  }

  ghost predicate IsMaxUpper(segments: seq<Segment>, maxSegID: nat) {
    && (forall i :: 0 <= i < |segments| ==> segments[i].UpperID() <= maxSegID)
    && if segments == [] then maxSegID == 0 else exists i :: 0 <= i < |segments| && segments[i].UpperID() == maxSegID
  }

  lemma NothingFetchedNothingLive(items: seq<Item>, key: Bytes)
    requires FetchedFrom(items, key) == Value([])
    ensures ViewOf(items) - {key} == ViewOf(items)
  {
    hide LiveView, NewestNonEmpty, EntriesOf;
    FetchedExactly(items, key);
    NothingFoundNothingLive(EntriesOf(items), key);
  }

  lemma NoEmptyKeyMore(ms: seq<Entries>, m: Entries)
    requires NoEmptyKey(ms) && [] !in m
    ensures NoEmptyKey(ms + [m])
  {
  }

  /** What a write does to a listing and its view. */
  lemma WriteTop(items: seq<Item>, x: Item, es: seq<KeyValue>)
    ensures AfterWrite(items + [x], es) == items + [x.(entries := x.entries + MapOf(es))]
    ensures ViewOf(AfterWrite(items + [x], es)) == PutsLive(ViewOf(items + [x]), es)
  {
    WriteView(items + [x], es);
    hide MapOf, ViewOf;
    assert (items + [x])[..|items|] == items;
  }

  lemma WriteOne(items: seq<Item>, x: Item, kv: KeyValue)
    ensures AfterWrite(items + [x], [kv]) == items + [x.(entries := x.entries[kv.key := kv.value])]
    ensures ViewOf(AfterWrite(items + [x], [kv])) == PutLive(ViewOf(items + [x]), kv.key, kv.value)
  {
    WriteTop(items, x, [kv]);
    OnePut(x.entries, ViewOf(items + [x]), kv);
    hide ViewOf, MapOf, PutsLive;
  }

  lemma OnePut(m: Entries, v: Entries, kv: KeyValue)
    ensures m + MapOf([kv]) == m[kv.key := kv.value] && PutsLive(v, [kv]) == PutLive(v, kv.key, kv.value)
  {
    var es := [kv];
    assert es[..0] == [];
    assert MapOf(es) == map[][kv.key := kv.value];
  }
}
