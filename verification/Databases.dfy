/** The database: its operations on the current segment list, compaction, and the way to disk and back. */
module Databases {
  import opened Bytes
  import opened KeyValues
  import opened KeyFile
  import opened DiskIterators
  import opened SkipLinks
  import opened LookupIterators
  import opened MemorySegments
  import opened MultiSegments
  import opened Segments
  import opened Listings
  import opened Views
  import opened Directory
  import opened Merger
  import opened Compaction
  import opened StoredFiles
  import opened SegmentLists

  /** NullRead is a crash: get has gone through the null mapping of an empty key file. */
  datatype Error = DatabaseClosed | EmptyKey | KeyTooLong | NullRead

  datatype Result<+T> = Ok(value: T) | Err(error: Error)

  /** The checks at the head of put, remove and get. */
  function Checked(open: bool, key: Bytes): Option<Error> {
    if !open then Some(DatabaseClosed)
    else if key == [] then Some(EmptyKey)
    else if |key| > 1024 then Some(KeyTooLong)
    else None
  }

  /** A constant view of the database: the segments of the moment, none of which is written to again. */
  class Snapshot {
    const segments: seq<Segment>
    ghost const ms: seq<Entries>
    ghost const repr: set<object>

    ghost predicate Valid()
      reads repr
    {
      |ms| == |segments| && Hold(segments, ms, repr) && NoEmptyKey(ms)
    }

    ghost function View(): Entries {
      LiveView(ms)
    }

    constructor (segments: seq<Segment>, ghost ms: seq<Entries>, ghost repr: set<object>)
      requires |ms| == |segments| && Hold(segments, ms, repr) && NoEmptyKey(ms)
      ensures this.segments == segments && this.ms == ms && this.repr == repr && Valid()
    {
      this.segments, this.ms, this.repr := segments, ms, repr;
    }

    method Get(key: Bytes) returns (r: Fetched)
      requires Valid()
      ensures r == FetchedFrom(Items(segments, ms), key)
    {
      r := MultiGet(segments, key, ms, repr);
    }

    /** Removed keys are delivered, too, with an empty value. */
    method Lookup(lower: Bytes, upper: Bytes) returns (itr: MultiIterator)
      requires Valid()
      ensures itr.Valid() && NoEmptyKey(itr.rems) && fresh(itr) && fresh(itr.own) && itr.repr <= itr.own + repr
      ensures itr.rems == DeliveredAll(segments, ms, lower, upper)
      ensures Merged(itr.rems) == Range(Merged(ms), lower, upper) <==> !DeliversTooMuch(segments, ms, lower, upper)
      ensures !Crossed(lower, upper) ==> Live(Merged(itr.rems)) == Range(View(), lower, upper)
    {
      hide Hold, Crossed, Merged, Range, DeliveredAll;
      itr := MultiLookup(segments, lower, upper, ms, repr);
      NoEmptyKeyDelivered(segments, ms, lower, upper);
      LookupIsRangeExactlyWhen(segments, ms, lower, upper);
      assert !DeliversTooMuch(segments, ms, lower, upper) || Crossed(lower, upper);
      LiveOfRange(Merged(ms), lower, upper);
    }
  }

  class Database {
    const maxMemoryBytes: nat
    const logged: bool
    var open: bool
    var nextSegID: nat
    /** DatabaseState */
    var segments: seq<Segment>
    var memory: MemorySegment
    /** The directory, and the list of files in it that are to be deleted. */
    var dir: map<Name, FilePair>
    var scheduled: set<Name>
    ghost var ms: seq<Entries>
    ghost var repr: set<object>
    ghost var layouts: map<Name, Layout>
    /** All segments as values, oldest first and the current memory segment last; none when closed. */
    ghost var listing: seq<Item>

    ghost predicate ListOk()
      reads this, repr
    {
      |ms| == |segments| && Hold(segments, ms, repr) && NoEmptyKey(ms) && InOrder(segments, dir, scheduled, layouts) &&
        this !in repr
    }

    ghost predicate MemoryOk()
      reads this, memory, memory.Repr
    {
      && memory.Valid() && memory.logged == logged && this !in memory.Repr && memory.Repr !! repr
      && [] !in memory.Contents() && memory.over == 0 && memory.id == nextSegID && Below(segments, nextSegID)
    }

    ghost predicate Listed()
      requires |ms| == |segments| && memory.Valid()
      reads this, memory, memory.Repr
    {
      listing == Items(segments, ms) + [Item(memory.id, memory.id, memory.Contents(), false)]
    }

    ghost predicate Valid()
      reads this, repr, memory, memory.Repr
    {
      if open then ListOk() && MemoryOk() && Listed() else listing == []
    }

    ghost function View(): Entries
      reads this
    {
      ViewOf(listing)
    }

    /** openImpl, for a directory in which `active` are the segments that nothing supersedes. */
    constructor (dir: map<Name, FilePair>, scheduled: set<Name>, maxMemoryBytes: nat, logged: bool,
                 ghost layouts: map<Name, Layout>, ghost active: seq<Name>)
      requires FilesOk(dir, layouts) && DirOk(dir.Keys, active) && scheduled !! Elements(active)
      requires Elements(active) <= layouts.Keys
      ensures Valid() && open && fresh(repr) && fresh(memory.Repr)
      ensures Names(segments) == active && listing == Opened(FileItems(layouts, active))
      ensures View() == ViewOf(FileItems(layouts, active))
      ensures memory.id == nextSegID == if active == [] then 1 else active[|active| - 1].upper + 1
      ensures this.dir == dir - scheduled && this.scheduled == {} && this.layouts == layouts
      ensures this.maxMemoryBytes == maxMemoryBytes && this.logged == logged
    {
      hide FilesOk, InOrder, Hold, NoEmptyKey, LiveView, MemorySegment.Valid, MemorySegment.Contents, FileItems;
      hide Archived, Elements, DirOk;
      hide RangesAscend, FileOk, AllOnFile, AllCovered, Unscheduled, Names, Below, Items, LastID, ViewOf;
      AfterDeletion(dir, layouts, active, scheduled);
      var left := dir - scheduled;
      var segments := LoadActive(left, layouts, active);
      var maxSegID := MaxUpperID(segments);
      LastIDOfFiles(layouts, active);
      LastIDIsMax(segments, Archived(layouts, active), maxSegID);
      var memory := new MemorySegment(maxSegID + 1, logged);
      this.maxMemoryBytes, this.logged, this.open, this.nextSegID := maxMemoryBytes, logged, true, maxSegID + 1;
      this.segments, this.memory, this.dir, this.scheduled := segments, memory, left, {};
      this.ms, this.repr, this.layouts := Archived(layouts, active), {}, layouts;
      this.listing := Opened(FileItems(layouts, active));
      OpenedView(FileItems(layouts, active));
    }

    /** The current memory segment joins the list, and a new one with the next ID takes its place. */
    method Swap()
      requires Valid() && open
      modifies `nextSegID, `segments, `memory, `ms, `repr, `listing
      ensures Valid() && listing == AfterSwap(old(listing)) && View() == old(View())
      ensures segments == old(segments) + [InMemory(old(memory))] && ms == EntriesOf(old(listing))
      ensures nextSegID == old(nextSegID) + 1 && memory.id == nextSegID
      ensures repr == old(repr) + old(memory.Repr) && fresh(memory.Repr)
    {
      hide Hold, InOrder, NoEmptyKey, MemorySegment.Valid, MemorySegment.Contents, ViewOf, Items, EntriesOf, Below;
      AppendKeepsHold(segments, ms, repr, memory);
      AppendKeepsOrder(segments, dir, scheduled, layouts, memory);
      ItemsAppend(segments, ms, InMemory(memory), memory.Contents());
      EntriesOfItems(segments + [InMemory(memory)], ms + [memory.Contents()]);
      SwapView(listing);
      NoEmptyKeyMore(ms, memory.Contents());
      segments, ms, repr := segments + [InMemory(memory)], ms + [memory.Contents()], repr + memory.Repr;
      nextSegID, listing := nextSegID + 1, AfterSwap(listing);
      memory := new MemorySegment(nextSegID, logged);
    }

    /** The listing a write goes to: a memory segment over its limit is set aside first. */
    ghost function Readied(): seq<Item>
      reads this, memory
    {
      if memory.bytes > maxMemoryBytes && listing != [] then AfterSwap(listing) else listing
    }

    /** Before a write: a memory segment over its limit is set aside. */
    method MaybeSwapMemory()
      requires Valid() && open
      modifies `nextSegID, `segments, `memory, `ms, `repr, `listing
      ensures Valid() && listing == old(Readied()) && listing != [] && View() == old(View()) &&
              old(repr) <= repr <= old(repr + memory.Repr)
      ensures if old(memory.bytes) > maxMemoryBytes
              then segments == old(segments) + [InMemory(old(memory))] && fresh(memory.Repr)
              else segments == old(segments) && memory == old(memory)
    {
      hide ListOk, MemorySegment.Valid, MemorySegment.Contents, ViewOf, Below, Items, EntriesOf;
      if memory.bytes > maxMemoryBytes {
        Swap();
      }
    }

    method Put(key: Bytes, value: Bytes, height: nat) returns (r: Result<()>)
      requires Valid() && 1 <= height <= MAX_HEIGHT
      modifies `nextSegID, `segments, `memory, `ms, `repr, `listing, memory.Repr
      ensures r == if !open then Err(DatabaseClosed)
                   else if key == [] then Err(EmptyKey)
                   else if |key| > 1024 then Err(KeyTooLong)
                   else Ok(())
      ensures Valid() && open == old(open) && old(repr) <= repr <= old(repr + memory.Repr) &&
              fresh(memory.Repr - old(memory.Repr))
      ensures View() == if r.Ok? then PutLive(old(View()), key, value) else old(View())
      ensures if r.Ok? then old(Readied()) != [] && listing == AfterWrite(old(Readied()), [KeyValue(key, value)])
              else listing == old(listing)
    {
      hide Hold, InOrder, NoEmptyKey, AfterWrite, AfterSwap, Below, MemorySegment.Valid, MemorySegment.Contents, ViewOf;
      hide Items, EntriesOf;
      var checked := Checked(open, key);
      if checked.Some? {
        return Err(checked.value);
      }
      MaybeSwapMemory();
      WriteOne(Items(segments, ms), Item(memory.id, memory.id, memory.Contents(), false), KeyValue(key, value));
      listing := AfterWrite(listing, [KeyValue(key, value)]);
      var _ := memory.Put(key, value, height);
      return Ok(());
    }

    /** The newest non-empty value; GetIsLiveExactlyWhen says for which keys it is the one in View(). */
    method Get(key: Bytes) returns (r: Result<Bytes>)
      requires Valid()
      ensures r == if !open then Err(DatabaseClosed)
                   else if key == [] then Err(EmptyKey)
                   else if |key| > 1024 then Err(KeyTooLong)
                   else match FetchedFrom(listing, key)
                        case Value(v) => Ok(v)
                        case UnmappedRead => Err(NullRead)
    {
      hide Below, InOrder, Hold, MemorySegment.Valid, MemorySegment.Contents, FetchedFrom, Items;
      var checked := Checked(open, key);
      if checked.Some? {
        return Err(checked.value);
      }
      AppendKeepsHold(segments, ms, repr, memory);
      ItemsAppend(segments, ms, InMemory(memory), memory.Contents());
      var fetched := MultiGet(segments + [InMemory(memory)], key, ms + [memory.Contents()], repr + memory.Repr);
      match fetched
      case Value(v) => return Ok(v);
      case UnmappedRead => return Err(NullRead);
    }

    /** Returns what get found. When that is nothing, there is nothing to remove. */
    method Remove(key: Bytes, height: nat) returns (r: Result<Bytes>)
      requires Valid() && 1 <= height <= MAX_HEIGHT
      modifies `nextSegID, `segments, `memory, `ms, `repr, `listing, memory.Repr
      ensures r == if !open then Err(DatabaseClosed)
                   else if key == [] then Err(EmptyKey)
                   else if |key| > 1024 then Err(KeyTooLong)
                   else match FetchedFrom(old(listing), key)
                        case Value(v) => Ok(v)
                        case UnmappedRead => Err(NullRead)
      ensures Valid() && open == old(open) && old(repr) <= repr <= old(repr + memory.Repr) &&
              fresh(memory.Repr - old(memory.Repr))
      ensures View() == if r.Ok? then old(View()) - {key} else old(View())
      ensures if r.Ok? && r.value != []
              then old(Readied()) != [] && listing == AfterWrite(old(Readied()), [KeyValue(key, [])])
              else listing == old(listing)
    {
      hide Hold, InOrder, NoEmptyKey, AfterWrite, AfterSwap, Below, MemorySegment.Valid, MemorySegment.Contents;
      hide ViewOf, Items, EntriesOf, FetchedFrom;
      r := Get(key);
      if r.Err? {
        return;
      }
      if r.value == [] {
        NothingFetchedNothingLive(listing, key);
        return;
      }
      MaybeSwapMemory();
      WriteOne(Items(segments, ms), Item(memory.id, memory.id, memory.Contents(), false), KeyValue(key, []));
      listing := AfterWrite(listing, [KeyValue(key, [])]);
      var _ := memory.Remove(key, height);
    }

    /** A batch is written under one lock. Its keys are not checked; it must not have the empty one. */
    method Write(batch: seq<KeyValue>, height: KeyValue -> nat) returns (r: Result<()>)
      requires Valid() && NoEmptyKeyIn(batch) && forall kv :: 1 <= height(kv) <= MAX_HEIGHT
      modifies `nextSegID, `segments, `memory, `ms, `repr, `listing, memory.Repr
      ensures r == if open then Ok(()) else Err(DatabaseClosed)
      ensures Valid() && open == old(open) && old(repr) <= repr <= old(repr + memory.Repr) &&
              fresh(memory.Repr - old(memory.Repr))
      ensures View() == if r.Ok? then PutsLive(old(View()), batch) else old(View())
      ensures if r.Ok? then old(Readied()) != [] && listing == AfterWrite(old(Readied()), batch)
              else listing == old(listing)
    {
      hide Hold, InOrder, NoEmptyKey, AfterWrite, AfterSwap, Below, MemorySegment.Valid, MemorySegment.Contents;
      hide ViewOf, Items, EntriesOf, MapOf, PutsLive;
      if !open {
        return Err(DatabaseClosed);
      }
      MaybeSwapMemory();
      WriteTop(Items(segments, ms), Item(memory.id, memory.id, memory.Contents(), false), batch);
      MapOfNoEmptyKey(batch);
      listing := AfterWrite(listing, batch);
      memory.Write(batch, height);
      return Ok(());
    }

    /** The snapshot's segments are never written to again: no operation modifies what is in repr. */
    method TakeSnapshot() returns (r: Result<Snapshot>)
      requires Valid()
      modifies `nextSegID, `segments, `memory, `ms, `repr, `listing
      ensures Valid() && View() == old(View()) && old(repr) <= repr <= old(repr + memory.Repr)
      ensures r.Ok? <==> open
      ensures open ==>
              fresh(memory.Repr) && segments == old(segments) + [InMemory(old(memory))] &&
              listing == AfterSwap(old(listing))
      ensures r.Ok? ==> r.value.Valid() && r.value.View() == old(View()) && r.value.repr <= repr
      ensures r.Ok? ==> r.value.segments == segments && r.value.ms == ms == EntriesOf(old(listing))
    {
      hide Below, InOrder, Hold, MemorySegment.Valid, MemorySegment.Contents, LiveView, Items, EntriesOf;
      if !open {
        return Err(DatabaseClosed);
      }
      Swap();
      var snapshot := new Snapshot(segments, ms, repr);
      return Ok(snapshot);
    }

    /** The iterator depends on its own objects and on what is in repr, which no operation modifies. */
    method Lookup(lower: Bytes, upper: Bytes) returns (r: Result<MultiIterator>)
      requires Valid()
      modifies `nextSegID, `segments, `memory, `ms, `repr, `listing
      ensures Valid() && View() == old(View()) && old(repr) <= repr <= old(repr + memory.Repr)
      ensures r.Ok? <==> open
      ensures open ==> fresh(memory.Repr) && listing == AfterSwap(old(listing))
      ensures r.Ok? ==> r.value.Valid() && NoEmptyKey(r.value.rems)
      ensures r.Ok? ==>
              fresh(r.value) && fresh(r.value.own) && r.value.repr <= r.value.own + repr &&
              r.value.own !! memory.Repr && r.value !in memory.Repr
      ensures r.Ok? ==>
              |ms| == |segments| && ms == EntriesOf(old(listing)) &&
              r.value.rems == DeliveredAll(segments, ms, lower, upper)
      ensures r.Ok? && !Crossed(lower, upper) ==> Live(Merged(r.value.rems)) == Range(old(View()), lower, upper)
    {
      hide ListOk, Listed, Below, MemorySegment.Valid, MemorySegment.Contents, LiveView, Merged, Crossed, Items;
      hide EntriesOf, DeliveredAll;
      var snapshot := TakeSnapshot();
      if snapshot.Err? {
        return Err(snapshot.error);
      }
      var itr := snapshot.value.Lookup(lower, upper);
      return Ok(itr);
    }

    // ---- compaction ----

    /** One pass of the merger's loop: a window becomes one segment, in the list and in the directory. */
    method MergeWindow(ghost bound: nat) returns (ghost pass: Pass)
      requires ListOk() && Below(segments, bound) && FitsDisk(ms) && |segments| >= 2
      modifies `segments, `ms, `dir, `scheduled, `layouts
      ensures ListOk() && Below(segments, bound) && FitsDisk(ms) && LiveView(ms) == old(LiveView(ms))
      ensures 1 <= |segments| < old(|segments|)
      ensures var was := old(Items(segments, ms));
              && Chosen(was, pass)
              && InList(pass, was) && Items(segments, ms) == AfterMerge(was, pass.start, pass.count)
              && (Searchable(Items(segments, ms)) <==> StaysSearchable(was, pass.start, pass.count))
      ensures old(scheduled) <= scheduled && InputFiles(old(segments)) <= InputFiles(segments) + scheduled
    {
      hide Hold, InOrder, FilesOk, RangesAscend, DiskSegment.Valid, DiskSegment.Contents, LiveView, FitsDisk;
      hide NoEmptyKey, InputFiles, Below, DiskSized;
      hide WithMerged, MergedEntries, Merged, Items, AfterMerge, Searchable, StaysSearchable, EntriesOf, Chosen;
      var start, count := ChooseIn(segments, ms, repr);
      pass := Pass(start, count);
      var mergable := segments[start..start + count];
      ghost var w := ms[start..start + count];
      WindowFits(ms, start, count);
      HoldPart(segments, ms, repr, start, start + count);
      var newseg := MergeSegments1(mergable, start == 0, w, repr);
      var name := NameOf(OnDisk(newseg));
      CommitKeepsOrderInAll(segments, dir, scheduled, layouts, start, count, newseg, bound);
      CommitKeepsContents(segments, ms, repr, start, count, newseg);
      dir := dir[name := FilePair(newseg.files.keyFile, newseg.files.dataFile)];
      layouts := layouts[name := newseg.L];
      scheduled := scheduled + InputFiles(mergable);
      ms := ms[..start] + [newseg.Contents()] + ms[start + count..];
      var committed := Commit(segments, start, mergable, newseg);
      segments := committed.value;
    }

    /** mergeSegments0: merges until there are at most maxSegments. */
    method MergeSegments0(maxSegments: nat, ghost bound: nat) returns (ghost passes: seq<Pass>)
      requires ListOk() && Below(segments, bound) && FitsDisk(ms) && maxSegments >= 1
      modifies `segments, `ms, `dir, `scheduled, `layouts
      ensures ListOk() && Below(segments, bound) && FitsDisk(ms) && LiveView(ms) == old(LiveView(ms))
      ensures |segments| <= maxSegments && (passes == [] || 1 <= |segments|)
      ensures old(|segments|) <= maxSegments ==> passes == []
      ensures var was := old(Items(segments, ms));
              && PassesOk(was, passes) && Items(segments, ms) == AfterPasses(was, passes)
              && PassesChosen(was, passes, maxSegments)
      ensures old(scheduled) <= scheduled && InputFiles(old(segments)) <= InputFiles(segments) + scheduled
    {
      hide Hold, InOrder, NoEmptyKey, Below, LiveView, FitsDisk, InputFiles, Items, PassesOk, AfterPasses, AfterMerge;
      hide Chosen, PassesChosen;
      passes := [];
      ghost var was := Items(segments, ms);
      NoPasses(Items(segments, ms));
      NoneChosen(was, maxSegments);
      while |segments| > maxSegments
        invariant |ms| == |segments| && ListOk() && Below(segments, bound) && FitsDisk(ms) &&
                  LiveView(ms) == old(LiveView(ms))
        invariant if passes == [] then segments == old(segments) else 1 <= |segments| && old(|segments|) > maxSegments
        invariant PassesOk(was, passes) && Items(segments, ms) == AfterPasses(was, passes)
        invariant PassesChosen(was, passes, maxSegments)
        invariant old(scheduled) <= scheduled && InputFiles(old(segments)) <= InputFiles(segments) + scheduled
        decreases |segments|
      {
        ghost var pass := MergeWindow(bound);
        OnePassMore(was, passes, pass);
        OneMoreChosen(was, passes, pass, maxSegments);
        passes := passes + [pass];
      }
    }

    /**
     The merger's pass while the database is open. The view stays; what get finds need not, as
     MergeKeepsGetExactlyWhen says.
     */
    method Merge(maxSegments: nat) returns (ghost passes: seq<Pass>)
      requires Valid() && open && maxSegments >= 1 && FitsDisk(EntriesOf(listing))
      modifies `segments, `ms, `dir, `scheduled, `layouts, `listing
      ensures Valid() && open && View() == old(View()) && |segments| <= maxSegments
      ensures PassesOk(old(listing), passes) && listing == AfterPasses(old(listing), passes)
      ensures old(listing) != [] && PassesChosen(old(listing[..|listing| - 1]), passes, maxSegments)
      ensures old(|segments|) <= maxSegments ==> passes == [] && listing == old(listing)
      ensures old(Lively(listing)) ==> Lively(listing) && Searchable(listing)
    {
      hide Hold, InOrder, MemorySegment.Valid, MemorySegment.Contents, ViewOf, FitsDisk, Below, NoEmptyKey, Items;
      hide PassesOk;
      hide AfterPasses, EntriesOf, LiveView, Lively, Searchable, PassesChosen;
      ghost var items, top := Items(segments, ms), [Item(memory.id, memory.id, memory.Contents(), false)];
      EntriesOfItems(segments, ms);
      EntriesConcat(items, top);
      FitsParts(ms, EntriesOf(top));
      passes := MergeSegments0(maxSegments, nextSegID);
      assert listing[..|listing| - 1] == items;
      NoPasses(listing);
      PassesBelow(items, top, passes);
      PassesView(listing, passes);
      if Lively(listing) {
        LivelyStaysSearchable(listing, passes);
      }
      listing := AfterPasses(listing, passes);
    }

    // ---- closing ----

    /** writeSegmentToDisk: an empty segment leaves nothing behind. */
    method WriteSegmentToDisk(seg: Segment, ghost m: Entries) returns (d: DiskSegment?)
      requires Hold([seg], [m], repr) && this !in repr && [] !in m && DiskSized(m)
      modifies `dir, `layouts
      ensures d == null <==> m == map[]
      ensures d == null ==> dir == old(dir) && layouts == old(layouts)
      ensures d != null ==>
              d.Valid() && d.Contents() == m && d.files.lowerID == seg.LowerID() && d.files.upperID == seg.UpperID()
      ensures d != null ==> var f := NameOf(OnDisk(d));
                            dir == old(dir)[f := FilePair(d.files.keyFile, d.files.dataFile)] &&
                              layouts == old(layouts)[f := d.L]
    {
      hide DiskSized, Ascending, MapOf, Range, Emitted, LookupIterator.Valid;
      hide LookupIterator.Rem, LookupIterator.Own, LookupIterator.Foot, Segment.Contents;
      hide Segment.Valid, DiskSegment.Valid, DiskSegment.Contents;
      HoldsAt([seg], [m], repr, 0);
      hide Hold;
      var itr := seg.Lookup([], []);
      RangeOfAll(m);
      EmittedIsRangeExactlyWhen(m, [], []);
      var key := itr.PeekKey();
      if key == [] {
        return null;
      }
      var pairs := DrainOne(itr);
      d := WriteAndLoadSegment(seg.LowerID(), seg.UpperID(), pairs, false);
      var f := NameOf(OnDisk(d));
      dir, layouts := dir[f := FilePair(d.files.keyFile, d.files.dataFile)], layouts[f := d.L];
    }

    /** Every segment that is still in memory is written out. */
    method Flush() returns (ghost active: seq<Name>)
      requires ListOk() && FitsDisk(ms)
      modifies `dir, `layouts
      ensures DirOk(dir.Keys, active) && FilesOk(dir, layouts) && Elements(active) <= layouts.Keys &&
              scheduled !! Elements(active)
      ensures FileItems(layouts, active) == Flushed(Items(segments, ms))
      ensures InputFiles(segments) <= Elements(active)
    {
      hide Hold, InOrder, FitsDisk, NoEmptyKey, Flushing, InputFiles, WithMerged, Without, Items, Flushed, DirOk;
      hide Elements, FilesOk, FileItems;
      ghost var kept: seq<Segment>, kms: seq<Entries> := segments, ms;
      ghost var n := 0;
      FlushStarts(segments, ms, repr, dir, scheduled, layouts);
      for i := 0 to |segments|
        invariant Flushing(segments, ms, i, kept, kms, n, repr, dir, scheduled, layouts)
      {
        FlushFacts(segments, ms, i, kept, kms, n, repr, dir, scheduled, layouts);
        if segments[i].OnDisk? {
          FlushPasses(segments, ms, i, kept, kms, n, repr, dir, scheduled, layouts);
          n := n + 1;
        } else {
          ghost var dirWas, layoutsWas := dir, layouts;
          var d := WriteSegmentToDisk(segments[i], ms[i]);
          if d == null {
            FlushDrops(segments, ms, i, kept, kms, n, repr, dir, scheduled, layouts);
            kept, kms := Without(kept, n), kms[..n] + kms[n + 1..];
          } else {
            FlushWrites(segments, ms, i, kept, kms, n, repr, dirWas, scheduled, layoutsWas, d);
            kept := WithMerged(kept, n, 1, d);
            n := n + 1;
          }
        }
      }
      FlushEnds(segments, ms, kept, kms, n, repr, dir, scheduled, layouts);
      active := Names(kept);
    }

    /** Afterwards the directory is all there is. */
    method CloseWithMerge(segmentCount: int) returns (r: Result<()>, ghost active: seq<Name>, ghost passes: seq<Pass>)
      requires Valid() && FitsDisk(EntriesOf(listing))
      modifies `open, `segments, `ms, `repr, `dir, `scheduled, `layouts, `listing
      ensures r == if old(open) then Ok(()) else Err(DatabaseClosed)
      ensures Valid() && !open
      ensures r.Ok? ==>
              FilesOk(dir, layouts) && DirOk(dir.Keys, active) && Elements(active) <= layouts.Keys && scheduled == {}
      ensures r.Ok? ==> FileItems(layouts, active) == Flushed(AfterPasses(old(listing), passes))
      ensures r.Ok? ==> ViewOf(FileItems(layouts, active)) == old(View())
      ensures r.Ok? && segmentCount > 0 ==>
              && PassesChosen(old(listing), passes, segmentCount) && |active| <= segmentCount
              && |AfterPasses(old(listing), passes)| <= segmentCount
              && (old(|segments|) + 1 <= segmentCount ==> passes == [])
      ensures r.Ok? && segmentCount <= 0 ==> passes == []
      ensures r.Ok? ==> forall f :: f in dir && f in old(scheduled + InputFiles(segments)) ==> f in Elements(active)
    {
      hide InputFiles, Hold, InOrder, FitsDisk, LiveView, Below, MemorySegment.Valid, MemorySegment.Contents, FileItems;
      hide Elements, DirOk, FilesOk;
      hide Items, AfterPasses, PassesOk, PassesChosen, Flushed, EntriesOf, ViewOf;
      active, passes := [], [];
      if !open {
        return Err(DatabaseClosed), [], [];
      }
      AppendKeepsHold(segments, ms, repr, memory);
      AppendKeepsOrder(segments, dir, scheduled, layouts, memory);
      InputsAppend(segments, memory);
      ItemsAppend(segments, ms, InMemory(memory), memory.Contents());
      segments, ms, repr := segments + [InMemory(memory)], ms + [memory.Contents()], repr + memory.Repr;
      EntriesOfItems(segments, ms);
      NoPasses(listing);
      if segmentCount > 0 {
        passes := MergeSegments0(segmentCount, memory.id + 1);
      }
      active := Flush();
      FlushedIsShorter(Items(segments, ms));
      PassesView(listing, passes);
      FlushedView(AfterPasses(listing, passes));
      open, listing := false, [];
      AfterDeletion(dir, layouts, active, scheduled);
      dir, scheduled := dir - scheduled, {};
      return Ok(()), active, passes;
    }
  }

  /** Database::create: an empty directory, opened. */
  method Create(maxMemoryBytes: nat, logged: bool) returns (db: Database)
    ensures db.Valid() && db.open && fresh(db) && fresh(db.repr) && fresh(db.memory.Repr)
    ensures db.listing == [NewMemory(1)] && db.View() == map[] && db.dir == map[]
  {
    hide Database.Valid, FitsDisk, ViewOf;
    db := new Database(map[], {}, maxMemoryBytes, logged, map[], []);
    NothingIn();
  }

  lemma NothingIn()
    ensures ViewOf([]) == map[]
  {
    NothingLive();
  }

  /** Closing the database, with or without compaction, and opening it again: the view is what it was. */
  method CloseAndReopen(db: Database, segmentCount: int) returns (again: Database, ghost passes: seq<Pass>)
    requires db.Valid() && db.open && FitsDisk(EntriesOf(db.listing))
    modifies db
    ensures again.Valid() && again.open && fresh(again) && fresh(again.repr) && fresh(again.memory.Repr)
    ensures again.View() == old(db.View()) && again.listing == AfterReopen(AfterPasses(old(db.listing), passes))
    ensures segmentCount > 0 ==>
            && PassesChosen(old(db.listing), passes, segmentCount) && |again.segments| <= segmentCount
            && |AfterPasses(old(db.listing), passes)| <= segmentCount
            && (old(|db.listing|) <= segmentCount ==> passes == [])
    ensures segmentCount <= 0 ==> passes == []
    ensures Searchable(again.listing) <==> Searchable(AfterPasses(old(db.listing), passes))
    ensures old(Lively(db.listing)) ==> Searchable(again.listing)
  {
    hide Database.Valid, ViewOf, FitsDisk, FileItems, FilesOk, DirOk, Elements, AfterPasses, Flushed, EntriesOf, Lively;
    hide Searchable, Opened, PassesChosen;
    ghost var was := db.listing;
    var r;
    ghost var active;
    r, active, passes := db.CloseWithMerge(segmentCount);
    if segmentCount > 0 && |was| <= segmentCount {
      ShortIsLeftAlone(was, passes, segmentCount);
    }
    SearchableAfterReopen(AfterPasses(was, passes));
    if Lively(was) {
      LivelyStaysSearchable(was, passes);
    }
    again := new Database(db.dir, db.scheduled, db.maxMemoryBytes, db.logged, db.layouts, active);
  }

  /**
   Opening what a process left behind when it died, wherever it was in deleting what a merge superseded:
   `gone` has been deleted already, and `listed` is what the list of deletions had been extended to.
   The segments on disk are found again, each once and in order, and nothing else.
   */
  method Recover(db: Database, gone: set<Name>, listed: set<Name>) returns (again: Database)
    requires db.Valid() && db.open && gone <= db.scheduled && listed <= db.scheduled
    ensures again.Valid() && again.open && fresh(again) && fresh(again.repr) && fresh(again.memory.Repr)
    ensures again.View() == ViewOf(Surviving(db.listing)) &&
            (again.View() == db.View() <==> MemoryAddsNothing(db.listing))
    ensures again.listing == Opened(Surviving(db.listing)) && Names(again.segments) == Names(OnDiskOnly(db.segments))
  {
    hide Hold, InOrder, NoEmptyKey, ViewOf, Below, MemorySegment.Valid, MemorySegment.Contents, FileItems, Elements;
    hide DirOk;
    hide FilesOk, OnDiskOnly, Names, Items, Surviving, MemoryAddsNothing, EntriesOf;
    ghost var kept := OnDiskOnly(db.segments);
    CrashLeaves(db.segments, db.ms, db.repr, db.dir, db.scheduled, db.layouts, gone, listed);
    SurvivingViewExactlyWhen(db.listing);
    SurvivingAppend(Items(db.segments, db.ms), Item(db.memory.id, db.memory.id, db.memory.Contents(), false));
    assert Surviving(db.listing) == Surviving(Items(db.segments, db.ms));
    again := new Database(db.dir - gone, listed, db.maxMemoryBytes, db.logged, db.layouts, Names(kept));
  }

  lemma CrashLeaves(segments: seq<Segment>, ms: seq<Entries>, repr: set<object>, dir: map<Name, FilePair>,
                    scheduled: set<Name>, layouts: map<Name, Layout>,
                    gone: set<Name>, listed: set<Name>)
    requires |ms| == |segments| && Hold(segments, ms, repr) && InOrder(segments, dir, scheduled, layouts) &&
             gone <= scheduled && listed <= scheduled
    ensures var active := Names(OnDiskOnly(segments));
            && FilesOk(dir - gone, layouts) && DirOk((dir - gone).Keys, active) && listed !! Elements(active) &&
               Elements(active) <= layouts.Keys
            && FileItems(layouts, active) == Surviving(Items(segments, ms))
  {
    hide Hold, RangesAscend, FilesOk, AllOnFile, AllCovered, Unscheduled, FileItems, Elements, DirOk, OnDiskOnly, Names;
    hide Surviving, Items;
    var kept := OnDiskOnly(segments);
    AllOnDisk(segments);
    assert [] + segments == segments && [] + kept == kept;
    OnDiskOnlyInOrder([], segments, dir, scheduled, layouts);
    DeletionKeepsOrder(kept, dir, scheduled, layouts, gone);
    OnDiskIsOpenable(kept, dir - gone, scheduled, layouts);
    SurvivingFiles(segments, ms, repr, dir, layouts);
  }
}
