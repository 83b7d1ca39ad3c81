/** A database's segments and the files in its directory: which files exist, which are awaiting deletion. */
module StoredFiles {
  import opened Bytes
  import opened KeyValues
  import opened LittleEndian
  import opened KeyFile
  import opened DiskSegments
  import opened MemorySegments
  import opened MultiSegments
  import opened Segments
  import opened Directory
  import opened Listings
  import opened Views
  import opened Compaction

  datatype FilePair = FilePair(keyFile: Bytes, dataFile: Bytes)

  ghost predicate FileOk(p: FilePair, L: Layout) {
    Storable(L.entries) && IsKeyFile(p.keyFile, L) && |p.keyFile| < U64 &&
      p.dataFile == DataBytes(L.entries, |L.entries|) && IsPacked(L)
  }

  ghost predicate FilesOk(dir: map<Name, FilePair>, layouts: map<Name, Layout>) {
    forall f :: f in dir ==> f in layouts && FileOk(dir[f], layouts[f])
  }

  /** What the named files hold, as values. */
  ghost function FileItems(layouts: map<Name, Layout>, names: seq<Name>): (items: seq<Item>)
    requires Elements(names) <= layouts.Keys
    ensures |items| == |names|
  {
    if names == [] then []
    else
      var n := |names| - 1;
      assert Elements(names) == Elements(names[..n]) + {names[n]};
      FileItems(layouts, names[..n]) + [Item(names[n].lower, names[n].upper, MapOf(layouts[names[n]].entries), true)]
  }

  ghost function Archived(layouts: map<Name, Layout>, names: seq<Name>): (ms: seq<Entries>)
    requires Elements(names) <= layouts.Keys
    ensures |ms| == |names|
  {
    EntriesOf(FileItems(layouts, names))
  }

  lemma {:induction false} FileItemsAt(layouts: map<Name, Layout>, names: seq<Name>, i: nat)
    requires Elements(names) <= layouts.Keys && i < |names|
    ensures names[i] in layouts
    ensures FileItems(layouts, names)[i] == Item(names[i].lower, names[i].upper, MapOf(layouts[names[i]].entries), true)
    decreases |names|
  {
    assert names[i] in Elements(names);
    var n := |names| - 1;
    assert Elements(names) == Elements(names[..n]) + {names[n]};
    if i < n {
      FileItemsAt(layouts, names[..n], i);
    }
  }

  lemma ArchivedAt(layouts: map<Name, Layout>, names: seq<Name>, i: nat)
    requires Elements(names) <= layouts.Keys && i < |names|
    ensures names[i] in layouts && Archived(layouts, names)[i] == MapOf(layouts[names[i]].entries)
  {
    FileItemsAt(layouts, names, i);
    EntriesAt(FileItems(layouts, names), i);
  }

  /** The files of segment s are in the directory. */
  ghost predicate OnFile(s: Segment, dir: map<Name, FilePair>, layouts: map<Name, Layout>) {
    s.OnDisk? ==>
      var f := NameOf(s);
      f in dir && f in layouts && dir[f] == FilePair(s.d.files.keyFile, s.d.files.dataFile) && layouts[f] == s.d.L
  }

  ghost predicate AllOnFile(segments: seq<Segment>, dir: map<Name, FilePair>, layouts: map<Name, Layout>) {
    forall i :: 0 <= i < |segments| ==> OnFile(segments[i], dir, layouts)
  }

  ghost predicate CoveredOnDisk(f: Name, segments: seq<Segment>) {
    exists i :: 0 <= i < |segments| && segments[i].OnDisk? && Within(f, NameOf(segments[i]))
  }

  ghost predicate AllCovered(files: set<Name>, segments: seq<Segment>) {
    forall f :: f in files ==> f.lower <= f.upper && CoveredOnDisk(f, segments)
  }

  ghost predicate Unscheduled(segments: seq<Segment>, scheduled: set<Name>) {
    forall i :: 0 <= i < |segments| && segments[i].OnDisk? ==> NameOf(segments[i]) !in scheduled
  }

  /**
   The segments' ID ranges ascend; those on disk have their files, which are not scheduled for deletion;
   and whatever other files there are lie within the range of some segment on disk.
   */
  ghost predicate InOrder(segments: seq<Segment>, dir: map<Name, FilePair>, scheduled: set<Name>,
                          layouts: map<Name, Layout>) {
    && RangesAscend(Names(segments))
    && FilesOk(dir, layouts) && AllOnFile(segments, dir, layouts)
    && AllCovered(dir.Keys + scheduled, segments) && Unscheduled(segments, scheduled)
  }

  /** Deleting what is scheduled, or any part of it at any time, changes nothing that matters. */
  lemma DeletionKeepsOrder(segments: seq<Segment>, dir: map<Name, FilePair>, scheduled: set<Name>,
                           layouts: map<Name, Layout>, gone: set<Name>)
    requires InOrder(segments, dir, scheduled, layouts) && gone <= scheduled
    ensures InOrder(segments, dir - gone, scheduled, layouts)
  {
    hide RangesAscend, CoveredOnDisk, FileOk;
  }

  // ---- new names ----

  /** A merged segment gets a name that no file has, and none that is scheduled for deletion. */
  lemma MergedNameIsNew(segments: seq<Segment>, files: set<Name>, start: nat, count: nat)
    requires RangesAscend(Names(segments)) && AllCovered(files, segments) && 2 <= count && start + count <= |segments|
    ensures MergeName(Names(segments), start, count) !in files
  {
    var m := MergeName(Names(segments), start, count);
    if m in files {
      var i := Coverer(files, segments, m);
      NotAcross(Names(segments), i, start, count);
    }
  }

  lemma Coverer(files: set<Name>, segments: seq<Segment>, f: Name) returns (i: nat)
    requires AllCovered(files, segments) && f in files
    ensures f.lower <= f.upper && i < |segments| && segments[i].OnDisk? && Within(f, NameOf(segments[i]))
  {
    assert CoveredOnDisk(f, segments);
    i :| 0 <= i < |segments| && segments[i].OnDisk? && Within(f, NameOf(segments[i]));
  }

  /** The name of a segment that is still in memory is new, too. */
  lemma MemoryNameIsNew(segments: seq<Segment>, files: set<Name>, n: nat)
    requires RangesAscend(Names(segments)) && AllCovered(files, segments) && n < |segments| && segments[n].InMemory?
    ensures NameOf(segments[n]) !in files
  {
    var ns := Names(segments);
    if ns[n] in files {
      var i := Coverer(files, segments, ns[n]);
      Apart(ns, i, n);
    }
  }

  lemma Apart(ns: seq<Name>, i: nat, n: nat)
    requires RangesAscend(ns) && i < |ns| && n < |ns| && i != n
    ensures !Within(ns[n], ns[i])
  {
  }

  // ---- the commit of a merge ----

  /** The names of the files that a merge makes superfluous. */
  function InputFiles(mergable: seq<Segment>): set<Name> {
    set i | 0 <= i < |mergable| && mergable[i].OnDisk? :: NameOf(mergable[i])
  }

  lemma InputsHas(segments: seq<Segment>, i: nat)
    requires i < |segments| && segments[i].OnDisk?
    ensures NameOf(segments[i]) in InputFiles(segments)
  {
  }

  /** Whatever leaves the list in a merge is scheduled for deletion. */
  lemma InputsAreScheduled(segments: seq<Segment>, start: nat, count: nat, d: DiskSegment)
    requires start + count <= |segments|
    ensures InputFiles(segments) <= InputFiles(WithMerged(segments, start, count, d)) +
            InputFiles(segments[start..start + count])
  {
    WithMergedAt(segments, start, count, d);
    hide WithMerged, NameOf;
    var t, w := WithMerged(segments, start, count, d), segments[start..start + count];
    forall f | f in InputFiles(segments)
      ensures f in InputFiles(t) || f in InputFiles(w)
    {
      var i :| 0 <= i < |segments| && segments[i].OnDisk? && f == NameOf(segments[i]);
      if start <= i < start + count {
        assert w[i - start] == segments[i];
        InputsHas(w, i - start);
      } else {
        InputsHas(t, if i < start then i else i - count + 1);
      }
    }
  }

  lemma InputsAppend(segments: seq<Segment>, m: MemorySegment)
    ensures InputFiles(segments) <= InputFiles(segments + [InMemory(m)])
  {
    hide NameOf;
    forall f | f in InputFiles(segments)
      ensures f in InputFiles(segments + [InMemory(m)])
    {
      var i :| 0 <= i < |segments| && segments[i].OnDisk? && f == NameOf(segments[i]);
      InputsHas(segments + [InMemory(m)], i);
    }
  }

  lemma InputsWithout(segments: seq<Segment>, n: nat)
    requires n < |segments| && segments[n].InMemory?
    ensures InputFiles(segments) <= InputFiles(Without(segments, n))
  {
    WithoutAt(segments, n);
    hide Without, NameOf;
    forall f | f in InputFiles(segments)
      ensures f in InputFiles(Without(segments, n))
    {
      var i :| 0 <= i < |segments| && segments[i].OnDisk? && f == NameOf(segments[i]);
      InputsHas(Without(segments, n), if i < n then i else i - 1);
    }
  }

  lemma InputsWritten(segments: seq<Segment>, n: nat, d: DiskSegment)
    requires n < |segments| && segments[n].InMemory?
    ensures InputFiles(segments) <= InputFiles(WithMerged(segments, n, 1, d))
  {
    InputsAreScheduled(segments, n, 1, d);
    assert InputFiles(segments[n..n + 1]) == {};
  }

  lemma InputsAreNames(segments: seq<Segment>)
    ensures InputFiles(segments) <= Elements(Names(segments))
  {
    hide NameOf;
    forall f | f in InputFiles(segments)
      ensures f in Elements(Names(segments))
    {
      var i :| 0 <= i < |segments| && segments[i].OnDisk? && f == NameOf(segments[i]);
      assert Names(segments)[i] == f;
    }
  }

  ghost function WithMerged(segments: seq<Segment>, start: nat, count: nat, d: DiskSegment): seq<Segment>
    requires start + count <= |segments|
  {
    segments[..start] + [OnDisk(d)] + segments[start + count..]
  }

  lemma WithMergedAt(segments: seq<Segment>, start: nat, count: nat, d: DiskSegment)
    requires start + count <= |segments|
    ensures var t := WithMerged(segments, start, count, d);
            && |t| == |segments| - count + 1
            && forall i {:trigger t[i]} :: 0 <= i < |t| ==>
                 t[i] == if i < start then segments[i] else if i == start then OnDisk(d) else segments[i + count - 1]
  {
  }

  lemma NamesAfterMerge(segments: seq<Segment>, start: nat, count: nat, d: DiskSegment)
    requires 1 <= count && start + count <= |segments| && NameOf(OnDisk(d)) == MergeName(Names(segments), start, count)
    ensures Names(WithMerged(segments, start, count, d)) == Replaced(Names(segments), start, count, NameOf(OnDisk(d)))
  {
    WithMergedAt(segments, start, count, d);
    ReplacedAt(Names(segments), start, count, NameOf(OnDisk(d)));
    hide WithMerged, Replaced, NameOf;
    assert |Names(WithMerged(segments, start, count, d))| ==
           |Replaced(Names(segments), start, count, NameOf(OnDisk(d)))|;
    forall i | 0 <= i < |segments| - count + 1
      ensures Names(WithMerged(segments, start, count, d))[i] ==
              Replaced(Names(segments), start, count, NameOf(OnDisk(d)))[i]
    {
    }
  }

  lemma CoveredAfterCommit(segments: seq<Segment>, start: nat, count: nat, d: DiskSegment, files: set<Name>)
    requires RangesAscend(Names(segments)) && 1 <= count && start + count <= |segments|
    requires NameOf(OnDisk(d)) == MergeName(Names(segments), start, count)
    requires AllCovered(files, segments)
    ensures AllCovered(files + {NameOf(OnDisk(d))}, WithMerged(segments, start, count, d))
  {
    var m := NameOf(OnDisk(d));
    var t := WithMerged(segments, start, count, d);
    RangesAfterMerge(Names(segments), start, count);
    Ascends(Names(segments), start, start + count - 1);
    WithMergedAt(segments, start, count, d);
    hide RangesAscend, WithMerged, MergeName, CoveredOnDisk, AllCovered;
    forall f | f in files + {m}
      ensures f.lower <= f.upper && CoveredOnDisk(f, t)
    {
      if f == m {
        CoveredAt(m, t, start);
      } else {
        var i := Coverer(files, segments, f);
        assert start <= i < start + count ==> Within(Names(segments)[i], m);
        CoveredAt(f, t, if i < start then i else if i < start + count then start else i - count + 1);
      }
    }
    AllCoveredMeans(files + {m}, t);
  }

  lemma CoveredAt(f: Name, segments: seq<Segment>, i: nat)
    requires i < |segments| && segments[i].OnDisk? && Within(f, NameOf(segments[i]))
    ensures CoveredOnDisk(f, segments)
  {
  }

  lemma AllCoveredMeans(files: set<Name>, segments: seq<Segment>)
    requires forall f :: f in files ==> f.lower <= f.upper && CoveredOnDisk(f, segments)
    ensures AllCovered(files, segments)
  {
    hide CoveredOnDisk;
  }

  lemma UnscheduledAfterCommit(segments: seq<Segment>, start: nat, count: nat, d: DiskSegment, scheduled: set<Name>)
    requires RangesAscend(Names(segments)) && 1 <= count && start + count <= |segments|
    requires NameOf(OnDisk(d)) == MergeName(Names(segments), start, count)
    requires NameOf(OnDisk(d)) !in scheduled + InputFiles(segments[start..start + count])
    requires Unscheduled(segments, scheduled)
    ensures Unscheduled(WithMerged(segments, start, count, d), scheduled + InputFiles(segments[start..start + count]))
  {
    var ns, t := Names(segments), WithMerged(segments, start, count, d);
    var inputs := InputFiles(segments[start..start + count]);
    forall f | f in inputs
      ensures exists j :: start <= j < start + count && f == ns[j]
    {
      var j :| 0 <= j < count && f == NameOf(segments[start..start + count][j]);
      assert f == ns[start + j];
    }
    NamesAfterMerge(segments, start, count, d);
    WithMergedAt(segments, start, count, d);
    hide WithMerged, InputFiles, NameOf, RangesAscend, MergeName;
    forall k | 0 <= k < |t| && t[k].OnDisk?
      ensures NameOf(t[k]) !in scheduled && NameOf(t[k]) !in inputs
    {
      if k != start {
        var i := if k < start then k else k + count - 1;
        assert t[k] == segments[i] && NameOf(t[k]) == ns[i];
        forall j | start <= j < start + count
          ensures NameOf(t[k]) != ns[j]
        {
          Apart(ns, i, j);
        }
      }
    }
  }

  lemma FilesAfterCommit(segments: seq<Segment>, dir: map<Name, FilePair>, layouts: map<Name, Layout>, start: nat,
                         count: nat, d: DiskSegment)
    requires FilesOk(dir, layouts) && AllOnFile(segments, dir, layouts) && start + count <= |segments|
    requires NameOf(OnDisk(d)) !in dir && d.Valid()
    ensures var f := NameOf(OnDisk(d)); var p := FilePair(d.files.keyFile, d.files.dataFile);
            FilesOk(dir[f := p], layouts[f := d.L]) &&
              AllOnFile(WithMerged(segments, start, count, d), dir[f := p], layouts[f := d.L])
  {
    WithMergedAt(segments, start, count, d);
    hide WithMerged, Storable, IsKeyFile, DataBytes, IndexOf;
    var f, p := NameOf(OnDisk(d)), FilePair(d.files.keyFile, d.files.dataFile);
    var t := WithMerged(segments, start, count, d);
    forall i | 0 <= i < |t|
      ensures OnFile(t[i], dir[f := p], layouts[f := d.L])
    {
      if i != start {
        assert OnFile(segments[if i < start then i else i + count - 1], dir, layouts);
      }
    }
  }

  /** After the commit everything is in order again, the inputs' files being scheduled for deletion. */
  lemma CommitKeepsOrder(segments: seq<Segment>, dir: map<Name, FilePair>, scheduled: set<Name>,
                         layouts: map<Name, Layout>,
                         start: nat, count: nat, d: DiskSegment)
    requires InOrder(segments, dir, scheduled, layouts) && 1 <= count && start + count <= |segments|
    requires NameOf(OnDisk(d)) == MergeName(Names(segments), start, count) && d.Valid()
    requires NameOf(OnDisk(d)) !in dir.Keys + scheduled
    ensures var f := NameOf(OnDisk(d)); var inputs := InputFiles(segments[start..start + count]);
            InOrder(WithMerged(segments, start, count, d), dir[f := FilePair(d.files.keyFile, d.files.dataFile)],
              scheduled + inputs, layouts[f := d.L])
  {
    hide RangesAscend, AllOnFile, FilesOk, AllCovered, Unscheduled, CoveredOnDisk, WithMerged, InputFiles, NameOf;
    hide MergeName, Replaced, DiskSegment.Valid;
    var f := NameOf(OnDisk(d));
    var mergable := segments[start..start + count];
    RangesAfterMerge(Names(segments), start, count);
    NamesAfterMerge(segments, start, count, d);
    CoveredAfterCommit(segments, start, count, d, dir.Keys + scheduled);
    InputsAreOnFile(segments, dir, layouts, start, count);
    UnscheduledAfterCommit(segments, start, count, d, scheduled);
    FilesAfterCommit(segments, dir, layouts, start, count, d);
    var p := FilePair(d.files.keyFile, d.files.dataFile);
    assert dir[f := p].Keys + (scheduled + InputFiles(mergable)) == dir.Keys + scheduled + {f};
  }

  lemma InputsAreOnFile(segments: seq<Segment>, dir: map<Name, FilePair>, layouts: map<Name, Layout>, start: nat,
                        count: nat)
    requires AllOnFile(segments, dir, layouts) && start + count <= |segments|
    ensures InputFiles(segments[start..start + count]) <= dir.Keys
  {
    forall f | f in InputFiles(segments[start..start + count])
      ensures f in dir
    {
      var j :| 0 <= j < count && segments[start..start + count][j].OnDisk? &&
        f == NameOf(segments[start..start + count][j]);
      assert OnFile(segments[start + j], dir, layouts);
    }
  }

  lemma HoldAfterCommit(segments: seq<Segment>, ms: seq<Entries>, repr: set<object>, start: nat, count: nat,
                        d: DiskSegment)
    requires |ms| == |segments| && Hold(segments, ms, repr) && start + count <= |segments| && d.Valid()
    ensures Hold(WithMerged(segments, start, count, d), ms[..start] + [d.Contents()] + ms[start + count..], repr)
  {
    hide Hold, DiskSegment.Valid, DiskSegment.Contents;
    var n := |segments|;
    HoldPart(segments, ms, repr, 0, start);
    HoldPart(segments, ms, repr, start + count, n);
    HoldDisk(d, repr);
    HoldConcat(segments[0..start], ms[0..start], [OnDisk(d)], [d.Contents()], repr);
    HoldConcat(segments[0..start] + [OnDisk(d)], ms[0..start] + [d.Contents()], segments[start + count..n],
      ms[start + count..n], repr);
    assert segments[0..start] == segments[..start] && ms[0..start] == ms[..start];
    assert segments[start + count..n] == segments[start + count..] && ms[start + count..n] == ms[start + count..];
  }

  // ---- segments that have nothing on disk ----

  ghost function Without(segments: seq<Segment>, n: nat): seq<Segment>
    requires n < |segments|
  {
    segments[..n] + segments[n + 1..]
  }

  lemma WithoutAt(segments: seq<Segment>, n: nat)
    requires n < |segments|
    ensures |Without(segments, n)| == |segments| - 1
    ensures forall i {:trigger Without(segments, n)[i]} :: 0 <= i < |segments| - 1 ==>
              Without(segments, n)[i] == segments[if i < n then i else i + 1]
  {
  }

  /** Forgetting a segment in memory, because it is empty or because the process has died. */
  lemma DropKeepsOrder(segments: seq<Segment>, dir: map<Name, FilePair>, scheduled: set<Name>,
                       layouts: map<Name, Layout>, n: nat)
    requires InOrder(segments, dir, scheduled, layouts) && n < |segments| && segments[n].InMemory?
    ensures InOrder(Without(segments, n), dir, scheduled, layouts)
  {
    hide RangesAscend, FilesOk, AllCovered, OnFile, Without, NameOf;
    WithoutAt(segments, n);
    DropKeepsRanges(segments, n);
    DropKeepsCover(segments, dir.Keys + scheduled, n);
  }

  lemma DropKeepsRanges(segments: seq<Segment>, n: nat)
    requires RangesAscend(Names(segments)) && n < |segments|
    ensures RangesAscend(Names(Without(segments, n)))
  {
    WithoutAt(segments, n);
    var ns, ts := Names(segments), Names(Without(segments, n));
    hide Without, NameOf, RangesAscend;
    forall i, j | 0 <= i <= j < |ts|
      ensures if i < j then ts[i].upper < ts[j].lower else ts[i].lower <= ts[j].upper
    {
      Ascends(ns, if i < n then i else i + 1, if j < n then j else j + 1);
    }
    AscendsMeans(ts);
  }

  lemma DropKeepsCover(segments: seq<Segment>, files: set<Name>, n: nat)
    requires AllCovered(files, segments) && n < |segments| && segments[n].InMemory?
    ensures AllCovered(files, Without(segments, n))
  {
    WithoutAt(segments, n);
    hide Without, NameOf;
    forall f | f in files
      ensures f.lower <= f.upper && CoveredOnDisk(f, Without(segments, n))
    {
      var i := Coverer(files, segments, f);
      assert Without(segments, n)[if i < n then i else i - 1] == segments[i];
    }
  }

  ghost function OnDiskOnly(segments: seq<Segment>): seq<Segment> {
    if segments == [] then []
    else if segments[0].OnDisk? then [segments[0]] + OnDiskOnly(segments[1..]) else OnDiskOnly(segments[1..])
  }

  lemma {:induction false} AllOnDisk(segments: seq<Segment>)
    ensures forall i :: 0 <= i < |OnDiskOnly(segments)| ==> OnDiskOnly(segments)[i].OnDisk?
  {
    if segments != [] {
      AllOnDisk(segments[1..]);
    }
  }

  lemma {:induction false} OnDiskOnlyInOrder(a: seq<Segment>, b: seq<Segment>, dir: map<Name, FilePair>,
                                             scheduled: set<Name>, layouts: map<Name, Layout>)
    requires InOrder(a + b, dir, scheduled, layouts)
    ensures InOrder(a + OnDiskOnly(b), dir, scheduled, layouts)
    decreases |b|
  {
    hide InOrder;
    if b == [] {
    } else if b[0].OnDisk? {
      assert a + b == (a + [b[0]]) + b[1..];
      OnDiskOnlyInOrder(a + [b[0]], b[1..], dir, scheduled, layouts);
      assert a + OnDiskOnly(b) == (a + [b[0]]) + OnDiskOnly(b[1..]);
    } else {
      DropKeepsOrder(a + b, dir, scheduled, layouts, |a|);
      assert Without(a + b, |a|) == a + b[1..];
      OnDiskOnlyInOrder(a, b[1..], dir, scheduled, layouts);
    }
  }

  /** A directory whose segments are all on disk can be opened again, and holds what they hold. */
  lemma OnDiskIsOpenable(segments: seq<Segment>, dir: map<Name, FilePair>, scheduled: set<Name>,
                         layouts: map<Name, Layout>)
    requires InOrder(segments, dir, scheduled, layouts)
    requires forall i :: 0 <= i < |segments| ==> segments[i].OnDisk?
    ensures DirOk(dir.Keys, Names(segments)) && Elements(Names(segments)) <= layouts.Keys &&
            scheduled !! Elements(Names(segments))
  {
    hide RangesAscend, FilesOk, OnFile, NameOf, Covered, AllCovered;
    var ns := Names(segments);
    forall f | f in Elements(ns)
      ensures f in dir && f in layouts && f !in scheduled
    {
      var i :| 0 <= i < |ns| && ns[i] == f;
      OnFileMeans(segments[i], dir, layouts);
    }
    CoveredByNames(segments, dir.Keys + scheduled);
    assert forall f :: f in dir.Keys ==> f in dir.Keys + scheduled;
  }

  lemma CoveredByNames(segments: seq<Segment>, files: set<Name>)
    requires AllCovered(files, segments)
    ensures forall f :: f in files ==> f.lower <= f.upper && Covered(f, Names(segments))
  {
    hide NameOf, AllCovered;
    forall f | f in files
      ensures f.lower <= f.upper && Covered(f, Names(segments))
    {
      var i := Coverer(files, segments, f);
      assert Within(f, Names(segments)[i]);
    }
  }

  lemma OnFileMeans(s: Segment, dir: map<Name, FilePair>, layouts: map<Name, Layout>)
    requires OnFile(s, dir, layouts) && s.OnDisk?
    ensures NameOf(s) in dir && NameOf(s) in layouts && layouts[NameOf(s)] == s.d.L
  {
  }

  lemma FilesAreHeld(segments: seq<Segment>, ms: seq<Entries>, repr: set<object>, dir: map<Name, FilePair>,
                     layouts: map<Name, Layout>)
    requires |ms| == |segments| && Hold(segments, ms, repr) && AllOnFile(segments, dir, layouts)
    requires forall i :: 0 <= i < |segments| ==> segments[i].OnDisk?
    requires Elements(Names(segments)) <= layouts.Keys
    ensures FileItems(layouts, Names(segments)) == Items(segments, ms)
  {
    hide Hold, FileItems, OnFile, NameOf, Elements, Items;
    forall i | 0 <= i < |segments|
      ensures FileItems(layouts, Names(segments))[i] == Items(segments, ms)[i]
    {
      FileItemsAt(layouts, Names(segments), i);
      ItemsAt(segments, ms, i);
      HoldsAt(segments, ms, repr, i);
      OnFileMeans(segments[i], dir, layouts);
      NamedByIDs(segments[i]);
    }
  }

  lemma NamedByIDs(s: Segment)
    ensures NameOf(s) == Name(s.LowerID(), s.UpperID())
  {
  }

  lemma ItemsAfterCommit(segments: seq<Segment>, ms: seq<Entries>, start: nat, count: nat, d: DiskSegment)
    requires |ms| == |segments| && 1 <= count && start + count <= |segments|
    requires d.files.lowerID == segments[start].LowerID() && d.files.upperID == segments[start + count - 1].UpperID()
    requires d.Contents() == MergedEntries(ms[start..start + count], start == 0)
    ensures |WithMerged(segments, start, count, d)| == |segments| - count + 1
    ensures Items(WithMerged(segments, start, count, d), ms[..start] + [d.Contents()] + ms[start + count..])
            == AfterMerge(Items(segments, ms), start, count)
  {
    hide MergedEntries, DiskSegment.Contents, Items, EntriesOf, Segment.LowerID, Segment.UpperID;
    MergedItem(segments, ms, start, count, d);
    hide MergeOf, ItemOf;
    var a, w, b := segments[..start], segments[start..start + count], segments[start + count..];
    var am, wm, bm := ms[..start], ms[start..start + count], ms[start + count..];
    assert segments == a + w + b && ms == am + wm + bm;
    ItemsConcat(a + w, am + wm, b, bm);
    ItemsConcat(a, am, w, wm);
    ItemsConcat(a + [OnDisk(d)], am + [d.Contents()], b, bm);
    ItemsAppend(a, am, OnDisk(d), d.Contents());
    CutItems(Items(a, am), Items(w, wm), Items(b, bm));
  }

  lemma MergedItem(segments: seq<Segment>, ms: seq<Entries>, start: nat, count: nat, d: DiskSegment)
    requires |ms| == |segments| && 1 <= count && start + count <= |segments|
    requires d.files.lowerID == segments[start].LowerID() && d.files.upperID == segments[start + count - 1].UpperID()
    requires d.Contents() == MergedEntries(ms[start..start + count], start == 0)
    ensures ItemOf(OnDisk(d), d.Contents()) ==
            MergeOf(Items(segments[start..start + count], ms[start..start + count]), start == 0)
  {
    hide MergedEntries, DiskSegment.Contents, Items, EntriesOf;
    var w, wm := segments[start..start + count], ms[start..start + count];
    ItemsAt(w, wm, 0);
    ItemsAt(w, wm, count - 1);
    EntriesOfItems(w, wm);
  }

  lemma CutItems(a: seq<Item>, w: seq<Item>, b: seq<Item>)
    ensures var t := a + w + b;
            t[..|a|] == a && t[|a|..|a| + |w|] == w && t[|a| + |w|..] == b
  {
  }

  // ---- opening ----

  method ListDirectory(dir: map<Name, FilePair>) returns (files: seq<Name>)
    ensures Distinct(files) && Elements(files) == dir.Keys
  {
    files := [];
    var rest := dir.Keys;
    while rest != {}
      invariant Distinct(files) && Elements(files) !! rest && Elements(files) + rest == dir.Keys
      decreases |rest|
    {
      var f :| f in rest;
      assert Elements(files + [f]) == Elements(files) + {f};
      assert f !in Elements(files);
      files, rest := files + [f], rest - {f};
    }
  }

  /** newDiskSegment for each of the names; the key indexes are rebuilt from the files. */
  method LoadSegments(dir: map<Name, FilePair>, names: seq<Name>, ghost layouts: map<Name, Layout>)
    returns (segments: seq<Segment>)
    requires FilesOk(dir, layouts) && Elements(names) <= dir.Keys
    ensures |segments| == |names|
    ensures forall i :: 0 <= i < |segments| ==> Loaded(segments[i], names[i], dir, layouts)
  {
    hide Holds, Storable, IsKeyFile, IndexOf, DataBytes;
    segments := [];
    for i := 0 to |names|
      invariant |segments| == i
      invariant forall j :: 0 <= j < i ==> Loaded(segments[j], names[j], dir, layouts)
    {
      assert names[i] in Elements(names);
      ghost var L := layouts[names[i]];
      var p := dir[names[i]];
      assert FileOk(p, L);
      var files := NewDiskSegment(names[i].lower, names[i].upper, p.keyFile, p.dataFile, [], L);
      var d := new DiskSegment(files, L);
      segments := segments + [OnDisk(d)];
    }
  }

  ghost predicate Loaded(s: Segment, name: Name, dir: map<Name, FilePair>, layouts: map<Name, Layout>) {
    s.OnDisk? && s.d.Valid() && NameOf(s) == name && name in dir && OnFile(s, dir, layouts)
  }

  lemma LoadedHold(segments: seq<Segment>, names: seq<Name>, dir: map<Name, FilePair>, layouts: map<Name, Layout>)
    requires |segments| == |names| && Elements(names) <= layouts.Keys
    requires forall i :: 0 <= i < |segments| ==> Loaded(segments[i], names[i], dir, layouts)
    ensures Names(segments) == names
    ensures Hold(segments, Archived(layouts, names), {}) && NoEmptyKey(Archived(layouts, names))
  {
    hide Archived, Holds, Elements, EntriesOf;
    var ms := Archived(layouts, names);
    forall i | 0 <= i < |segments|
      ensures NameOf(segments[i]) == names[i]
      ensures segments[i].OnDisk? && segments[i].Valid() && segments[i].Contents() == ms[i] && [] !in ms[i]
    {
      assert Loaded(segments[i], names[i], dir, layouts);
      ArchivedAt(layouts, names, i);
      NoEmptyKeyOnDisk(segments[i].d);
    }
  }

  lemma NoEmptyKeyOnDisk(d: DiskSegment)
    requires d.Valid()
    ensures [] !in d.Contents()
  {
    hide IsKeyFile, IndexOf, DataBytes, DataOff, Less;
    MapOfAscending(d.L.entries);
  }

  lemma LoadedInOrder(segments: seq<Segment>, names: seq<Name>, dir: map<Name, FilePair>, layouts: map<Name, Layout>)
    requires FilesOk(dir, layouts) && DirOk(dir.Keys, names) && Names(segments) == names
    requires forall i :: 0 <= i < |segments| ==> Loaded(segments[i], names[i], dir, layouts)
    ensures InOrder(segments, dir, {}, layouts)
  {
    hide RangesAscend, FilesOk, DiskSegment.Valid, OnFile, NameOf, Elements, Covered;
    LoadedCover(segments, names, dir, layouts);
    hide CoveredOnDisk, DirOk;
    forall i | 0 <= i < |segments|
      ensures OnFile(segments[i], dir, layouts)
    {
      assert Loaded(segments[i], names[i], dir, layouts);
    }
    assert dir.Keys + {} == dir.Keys;
  }

  lemma LoadedCover(segments: seq<Segment>, names: seq<Name>, dir: map<Name, FilePair>, layouts: map<Name, Layout>)
    requires DirOk(dir.Keys, names) && Names(segments) == names
    requires forall i :: 0 <= i < |segments| ==> Loaded(segments[i], names[i], dir, layouts)
    ensures RangesAscend(names) && AllCovered(dir.Keys, segments)
  {
    hide RangesAscend, DiskSegment.Valid, OnFile, Elements;
    forall f | f in dir.Keys
      ensures f.lower <= f.upper && CoveredOnDisk(f, segments)
    {
      assert Covered(f, names);
      var i :| 0 <= i < |names| && Within(f, names[i]);
      assert Loaded(segments[i], names[i], dir, layouts);
    }
  }

  /** loadDiskSegments: the directory's active segments, in order. */
  method LoadActive(dir: map<Name, FilePair>, ghost layouts: map<Name, Layout>, ghost active: seq<Name>)
    returns (segments: seq<Segment>)
    requires FilesOk(dir, layouts) && DirOk(dir.Keys, active) && Elements(active) <= layouts.Keys
    ensures Names(segments) == active && RangesAscend(active) && InOrder(segments, dir, {}, layouts)
    ensures |Archived(layouts, active)| == |segments|
    ensures Hold(segments, Archived(layouts, active), {}) && NoEmptyKey(Archived(layouts, active))
    ensures Items(segments, Archived(layouts, active)) == FileItems(layouts, active)
  {
    assert Elements(active) <= dir.Keys && RangesAscend(active);
    hide RangesAscend, FilesOk, DirOk, Elements, InOrder, Hold, Archived, Loaded, Distinct, FileItems, Items;
    var files := ListDirectory(dir);
    var names := OpenDirectory(files, active);
    segments := LoadSegments(dir, names, layouts);
    LoadedHold(segments, names, dir, layouts);
    LoadedInOrder(segments, names, dir, layouts);
    LoadedItems(segments, names, dir, layouts);
  }

  lemma {:induction false} LoadedItems(segments: seq<Segment>, names: seq<Name>, dir: map<Name, FilePair>,
                                       layouts: map<Name, Layout>)
    requires |segments| == |names| && Elements(names) <= layouts.Keys
    requires forall i :: 0 <= i < |segments| ==> Loaded(segments[i], names[i], dir, layouts)
    ensures Items(segments, Archived(layouts, names)) == FileItems(layouts, names)
    decreases |names|
  {
    hide OnFile, DiskSegment.Valid, EntriesOf;
    if names != [] {
      var n := |names| - 1;
      assert Elements(names) == Elements(names[..n]) + {names[n]};
      LoadedItems(segments[..n], names[..n], dir, layouts);
      assert Loaded(segments[n], names[n], dir, layouts);
      ArchivedFront(layouts, names);
    }
  }

  lemma ArchivedFront(layouts: map<Name, Layout>, names: seq<Name>)
    requires Elements(names) <= layouts.Keys && names != []
    ensures var n := |names| - 1;
            && Elements(names[..n]) <= layouts.Keys
            && Archived(layouts, names)[..n] == Archived(layouts, names[..n])
            && names[n] in layouts && Archived(layouts, names)[n] == MapOf(layouts[names[n]].entries)
  {
    var n := |names| - 1;
    assert Elements(names) == Elements(names[..n]) + {names[n]};
    ArchivedAt(layouts, names, n);
    var items := FileItems(layouts, names);
    assert items[..n] == FileItems(layouts, names[..n]);
  }
}
