/**
 The life of a directory as values: segments are added in memory, written out in any order, merged and
 nested in merges, and superseded files deleted at any time. Whenever the process stops, opening finds
 exactly the segments on disk.
 */
module DirectoryRuns {
  import opened KeyValues
  import opened Views
  import opened Listings
  import opened Directory

  /** The files, and the list of segments as the running process has it. */
  datatype Dir = Dir(files: map<Name, Entries>, items: seq<Item>)

  datatype DirStep =
    | Added(entries: Entries)
    | WrittenOut(i: nat)
    | MergeWritten(start: nat, count: nat)
    | Deleted(name: Name)

  function NameOfItem(x: Item): Name {
    Name(x.lower, x.upper)
  }

  ghost function ItemNames(items: seq<Item>): (ns: seq<Name>)
    ensures |ns| == |items| && forall i :: 0 <= i < |ns| ==> ns[i] == NameOfItem(items[i])
  {
    seq(|items|, i requires 0 <= i < |items| => NameOfItem(items[i]))
  }

  ghost predicate OnDiskUnder(items: seq<Item>, f: Name) {
    exists i :: 0 <= i < |items| && items[i].onDisk && NameOfItem(items[i]) == f
  }

  ghost predicate CoveredBy(items: seq<Item>, f: Name) {
    exists i :: 0 <= i < |items| && items[i].onDisk && Within(f, NameOfItem(items[i]))
  }

  ghost predicate FilesThere(d: Dir) {
    forall i :: 0 <= i < |d.items| && d.items[i].onDisk ==>
      NameOfItem(d.items[i]) in d.files && d.files[NameOfItem(d.items[i])] == d.items[i].entries
  }

  ghost predicate FilesCovered(files: set<Name>, items: seq<Item>) {
    forall f :: f in files ==> f.lower <= f.upper && CoveredBy(items, f)
  }

  ghost predicate Ok(d: Dir) {
    RangesAscend(ItemNames(d.items)) && FilesThere(d) && FilesCovered(d.files.Keys, d.items)
  }

  ghost function DirNext(d: Dir, step: DirStep): Dir {
    match step
    case Added(entries) =>
      var id := LastID(d.items) + 1;
      Dir(d.files, d.items + [Item(id, id, entries, false)])
    case WrittenOut(i) =>
      if i >= |d.items| || d.items[i].onDisk then d
      else if d.items[i].entries == map[] then Dir(d.files, d.items[..i] + d.items[i + 1..])
      else Dir(d.files[NameOfItem(d.items[i]) := d.items[i].entries], d.items[i := d.items[i].(onDisk := true)])
    case MergeWritten(start, count) =>
      if count < 2 || start + count > |d.items| then d
      else
        var m := MergeOf(d.items[start..start + count], start == 0);
        Dir(d.files[NameOfItem(m) := m.entries], AfterMerge(d.items, start, count))
    case Deleted(name) =>
      if OnDiskUnder(d.items, name) then d else Dir(d.files - {name}, d.items)
  }

  ghost function DirRun(d: Dir, steps: seq<DirStep>): Dir {
    if steps == [] then d else DirNext(DirRun(d, steps[..|steps| - 1]), steps[|steps| - 1])
  }

  /** Everything that was ever added, in order. */
  ghost function AllAdded(steps: seq<DirStep>): seq<Entries> {
    if steps == [] then []
    else
      var last := steps[|steps| - 1];
      AllAdded(steps[..|steps| - 1]) + if last.Added? then [last.entries] else []
  }

  // ---- each step ----

  lemma CoverAt(items: seq<Item>, i: nat, f: Name)
    requires i < |items| && items[i].onDisk && Within(f, NameOfItem(items[i]))
    ensures CoveredBy(items, f)
  {
  }

  /** What is on disk stays covered, so what it covers does, too. */
  lemma SameCover(files: set<Name>, items: seq<Item>, more: seq<Item>)
    requires FilesCovered(files, items)
    requires forall i :: 0 <= i < |items| && items[i].onDisk ==> CoveredBy(more, NameOfItem(items[i]))
    ensures FilesCovered(files, more)
  {
    forall f | f in files
      ensures f.lower <= f.upper && CoveredBy(more, f)
    {
      assert CoveredBy(items, f);
      var i :| 0 <= i < |items| && items[i].onDisk && Within(f, NameOfItem(items[i]));
      assert CoveredBy(more, NameOfItem(items[i]));
    }
  }

  /** One file more, of a segment on disk. */
  lemma OneMoreFile(d: Dir, t: seq<Item>, i: nat)
    requires FilesThere(d) && FilesCovered(d.files.Keys, d.items)
    requires i < |t| && t[i].onDisk && t[i].lower <= t[i].upper && NameOfItem(t[i]) !in d.files
    requires forall j :: 0 <= j < |d.items| && d.items[j].onDisk ==> CoveredBy(t, NameOfItem(d.items[j]))
    requires forall j :: 0 <= j < |t| && j != i && t[j].onDisk ==> t[j] in d.items
    ensures FilesThere(Dir(d.files[NameOfItem(t[i]) := t[i].entries], t)) &&
            FilesCovered(d.files[NameOfItem(t[i]) := t[i].entries].Keys, t)
  {
    hide CoveredBy;
    SameCover(d.files.Keys, d.items, t);
    CoverAt(t, i, NameOfItem(t[i]));
    hide FilesCovered;
    assert FilesThere(Dir(d.files[NameOfItem(t[i]) := t[i].entries], t)) by {
      forall j | 0 <= j < |t| && t[j].onDisk && j != i
        ensures NameOfItem(t[j]) in d.files && d.files[NameOfItem(t[j])] == t[j].entries
      {
        var k :| 0 <= k < |d.items| && d.items[k] == t[j];
      }
    }
    CoverOfMore(d.files, t, NameOfItem(t[i]), t[i].entries);
  }

  lemma CoverOfMore(files: map<Name, Entries>, t: seq<Item>, f: Name, entries: Entries)
    requires FilesCovered(files.Keys, t) && f.lower <= f.upper && CoveredBy(t, f)
    ensures FilesCovered(files[f := entries].Keys, t)
  {
    hide CoveredBy;
  }

  lemma AddedOk(d: Dir, entries: Entries)
    requires Ok(d)
    ensures Ok(DirNext(d, Added(entries)))
  {
    var t := DirNext(d, Added(entries));
    var n := |d.items|;
    hide CoveredBy;
    forall i | 0 <= i < n
      ensures ItemNames(d.items)[i].upper <= LastID(d.items)
    {
      Ascends(ItemNames(d.items), i, n - 1);
    }
    assert ItemNames(t.items) == ItemNames(d.items) + [NameOfItem(t.items[n])];
    forall i | 0 <= i < n && d.items[i].onDisk
      ensures CoveredBy(t.items, NameOfItem(d.items[i]))
    {
      CoverAt(t.items, i, NameOfItem(d.items[i]));
    }
    SameCover(d.files.Keys, d.items, t.items);
  }

  /** No file has the name of a segment in memory. */
  lemma MemoryNameIsNew(d: Dir, n: nat)
    requires Ok(d) && n < |d.items| && !d.items[n].onDisk
    ensures NameOfItem(d.items[n]) !in d.files
  {
    var f := NameOfItem(d.items[n]);
    if f in d.files {
      assert CoveredBy(d.items, f);
      var i :| 0 <= i < |d.items| && d.items[i].onDisk && Within(f, NameOfItem(d.items[i]));
      NotWithinOther(ItemNames(d.items), i, n);
    }
  }

  lemma NotWithinOther(ns: seq<Name>, i: nat, n: nat)
    requires RangesAscend(ns) && i < |ns| && n < |ns| && i != n
    ensures !Within(ns[n], ns[i])
  {
  }

  lemma WrittenOutOk(d: Dir, i: nat)
    requires Ok(d) && i < |d.items| && !d.items[i].onDisk
    ensures Ok(DirNext(d, WrittenOut(i))) && ViewOf(DirNext(d, WrittenOut(i)).items) == ViewOf(d.items)
  {
    hide ViewOf, RangesAscend, CoveredBy, FilesThere, FilesCovered;
    if d.items[i].entries == map[] {
      DroppedOk(d, i);
    } else {
      FlushedOk(d, i);
    }
  }

  lemma DroppedOk(d: Dir, i: nat)
    requires Ok(d) && i < |d.items| && !d.items[i].onDisk && d.items[i].entries == map[]
    ensures Ok(Dir(d.files, d.items[..i] + d.items[i + 1..])) &&
            ViewOf(d.items[..i] + d.items[i + 1..]) == ViewOf(d.items)
  {
    hide ViewOf, CoveredBy, RangesAscend;
    var a, b := d.items[..i], d.items[i + 1..];
    var t := a + b;
    forall j, k | 0 <= j <= k < |t|
      ensures if j < k then ItemNames(t)[j].upper < ItemNames(t)[k].lower
              else ItemNames(t)[j].lower <= ItemNames(t)[k].upper
    {
      Ascends(ItemNames(d.items), if j < i then j else j + 1, if k < i then k else k + 1);
    }
    AscendsMeans(ItemNames(t));
    forall j | 0 <= j < |d.items| && d.items[j].onDisk
      ensures CoveredBy(t, NameOfItem(d.items[j]))
    {
      CoverAt(t, if j < i then j else j - 1, NameOfItem(d.items[j]));
    }
    SameCover(d.files.Keys, d.items, t);
    forall j | 0 <= j < |t| && t[j].onDisk
      ensures NameOfItem(t[j]) in d.files && d.files[NameOfItem(t[j])] == t[j].entries
    {
      assert t[j] == d.items[if j < i then j else j + 1];
    }
    assert d.items == a + [d.items[i]] + b;
    DroppedView(a, d.items[i], b);
  }

  lemma DroppedView(a: seq<Item>, x: Item, b: seq<Item>)
    requires x.entries == map[]
    ensures ViewOf(a + [x] + b) == ViewOf(a + b)
  {
    hide LiveView;
    EntriesAround(a, x, b);
    EntriesConcat(a, b);
    EmptyBetween(EntriesOf(a), EntriesOf(b));
  }

  lemma FlushedOk(d: Dir, i: nat)
    requires Ok(d) && i < |d.items| && !d.items[i].onDisk
    ensures var out := d.items[i].(onDisk := true); var t := d.items[i := out];
            Ok(Dir(d.files[NameOfItem(out) := out.entries], t)) && ViewOf(t) == ViewOf(d.items)
  {
    hide ViewOf, CoveredBy, FilesThere, FilesCovered, RangesAscend;
    MemoryNameIsNew(d, i);
    var out := d.items[i].(onDisk := true);
    var t := d.items[i := out];
    Ascends(ItemNames(d.items), i, i);
    assert ItemNames(t) == ItemNames(d.items);
    forall j | 0 <= j < |d.items| && d.items[j].onDisk
      ensures CoveredBy(t, NameOfItem(d.items[j]))
    {
      CoverAt(t, j, NameOfItem(d.items[j]));
    }
    OneMoreFile(d, t, i);
    SameEntriesView(d.items, t);
  }

  lemma SameEntriesView(items: seq<Item>, t: seq<Item>)
    requires |t| == |items| && forall i :: 0 <= i < |t| ==> t[i].entries == items[i].entries
    ensures ViewOf(t) == ViewOf(items)
  {
    hide LiveView, EntriesOf;
    forall i | 0 <= i < |t|
      ensures EntriesOf(t)[i] == EntriesOf(items)[i]
    {
      EntriesAt(t, i);
      EntriesAt(items, i);
    }
    assert EntriesOf(t) == EntriesOf(items);
  }

  lemma MergeWrittenOk(d: Dir, start: nat, count: nat)
    requires Ok(d) && 2 <= count && start + count <= |d.items|
    ensures Ok(DirNext(d, MergeWritten(start, count)))
  {
    hide RangesAscend, AfterMerge, MergeOf, CoveredBy, FilesThere, FilesCovered, Replaced;
    var m := MergeOf(d.items[start..start + count], start == 0);
    var t := AfterMerge(d.items, start, count);
    MergedNames(d.items, start, count);
    RangesAfterMerge(ItemNames(d.items), start, count);
    Ascends(ItemNames(d.items), start, start + count - 1);
    MergedNameIsNew(d, start, count);
    MergedAt(d.items, start, count);
    forall j | 0 <= j < |d.items| && d.items[j].onDisk
      ensures CoveredBy(t, NameOfItem(d.items[j]))
    {
      assert start <= j < start + count ==> Within(ItemNames(d.items)[j], NameOfItem(m));
      CoverAt(t, if j < start then j else if j < start + count then start else j - count + 1, NameOfItem(d.items[j]));
    }
    OneMoreFile(d, t, start);
  }

  lemma MergedAt(items: seq<Item>, start: nat, count: nat)
    requires 1 <= count && start + count <= |items|
    ensures var t, m := AfterMerge(items, start, count), MergeOf(items[start..start + count], start == 0);
            && m.onDisk && |t| == |items| - count + 1
            && forall i {:trigger t[i]} :: 0 <= i < |t| ==> t[i] == if i < start then items[i] else if i == start then m
               else items[i + count - 1]
  {
    hide EntriesOf, MergedEntries;
  }

  lemma MergedNames(items: seq<Item>, start: nat, count: nat)
    requires 1 <= count && start + count <= |items|
    ensures NameOfItem(MergeOf(items[start..start + count], start == 0)) == MergeName(ItemNames(items), start, count)
    ensures ItemNames(AfterMerge(items, start, count)) ==
            Replaced(ItemNames(items), start, count, MergeName(ItemNames(items), start, count))
  {
    MergedAt(items, start, count);
    ReplacedAt(ItemNames(items), start, count, MergeName(ItemNames(items), start, count));
    hide EntriesOf, MergedEntries, AfterMerge, Replaced;
  }

  lemma MergedNameIsNew(d: Dir, start: nat, count: nat)
    requires Ok(d) && 2 <= count && start + count <= |d.items|
    ensures MergeName(ItemNames(d.items), start, count) !in d.files
  {
    var f := MergeName(ItemNames(d.items), start, count);
    if f in d.files {
      assert CoveredBy(d.items, f);
      var i :| 0 <= i < |d.items| && d.items[i].onDisk && Within(f, NameOfItem(d.items[i]));
      NotAcross(ItemNames(d.items), i, start, count);
    }
  }

  lemma DeletedOk(d: Dir, name: Name)
    requires Ok(d) && !OnDiskUnder(d.items, name)
    ensures Ok(Dir(d.files - {name}, d.items))
  {
    hide CoveredBy, RangesAscend;
  }

  /** What each step does where it is possible: the file is there, and the list has what it stands for. */
  lemma StepTakesEffect(d: Dir, step: DirStep)
    requires Ok(d)
    ensures var t := DirNext(d, step);
            match step
            case Added(entries) => |t.items| == |d.items| + 1 && t.items[|d.items|].entries == entries &&
              t.files == d.files
            case WrittenOut(i) =>
              i < |d.items| && !d.items[i].onDisk ==>
                if d.items[i].entries == map[] then |t.items| == |d.items| - 1 && t.files == d.files
                else t.items == d.items[i := d.items[i].(onDisk := true)] &&
                     t.files == d.files[NameOfItem(d.items[i]) := d.items[i].entries]
            case MergeWritten(start, count) =>
              2 <= count && start + count <= |d.items| ==>
                && t.items == AfterMerge(d.items, start, count) && |t.items| == |d.items| - count + 1
                && t.files == d.files[NameOfItem(t.items[start]) := t.items[start].entries]
                && NameOfItem(t.items[start]) !in d.files
            case Deleted(name) =>
              t.items == d.items && (name in t.files <==> name in d.files && OnDiskUnder(d.items, name))
  {
    hide MergeOf, RangesAscend, CoveredBy;
    StepIsOk(d, step);
    match step
    case MergeWritten(start, count) =>
      if 2 <= count && start + count <= |d.items| {
        MergedAt(d.items, start, count);
        MergedNames(d.items, start, count);
        MergedNameIsNew(d, start, count);
      }
    case Deleted(name) =>
      DeletedMeans(d, name);
    case _ =>
  }

  lemma DeletedMeans(d: Dir, name: Name)
    requires FilesThere(d)
    ensures OnDiskUnder(d.items, name) ==> name in d.files
  {
  }

  // ---- every run ----

  lemma StepIsOk(d: Dir, step: DirStep)
    requires Ok(d)
    ensures Ok(DirNext(d, step))
    ensures !step.Added? ==> ViewOf(DirNext(d, step).items) == ViewOf(d.items)
  {
    hide ViewOf, Ok, AfterMerge, MergeOf, OnDiskUnder;
    match step
    case Added(entries) => AddedOk(d, entries);
    case WrittenOut(i) =>
      if i < |d.items| && !d.items[i].onDisk {
        WrittenOutOk(d, i);
      }
    case MergeWritten(start, count) =>
      if 2 <= count && start + count <= |d.items| {
        MergeWrittenOk(d, start, count);
        MergeView(d.items, start, count);
      }
    case Deleted(name) =>
      if !OnDiskUnder(d.items, name) {
        DeletedOk(d, name);
      }
  }

  /** However segments have been written out, merged and superseded, the list means all that was ever added. */
  lemma {:induction false} DirectoryMeansAllWritten(d: Dir, steps: seq<DirStep>)
    requires Ok(d)
    ensures var t := DirRun(d, steps);
            Ok(t) && ViewOf(t.items) == LiveView(EntriesOf(d.items) + AllAdded(steps))
    decreases |steps|
  {
    hide LiveView, EntriesOf, Ok, DirNext;
    if steps == [] {
      assert EntriesOf(d.items) + [] == EntriesOf(d.items);
    } else {
      var front, last := steps[..|steps| - 1], steps[|steps| - 1];
      DirectoryMeansAllWritten(d, front);
      var t := DirRun(d, front);
      StepIsOk(t, last);
      var all := EntriesOf(d.items) + AllAdded(front);
      if last.Added? {
        AddedView(t, last.entries, all);
        assert all + [last.entries] == EntriesOf(d.items) + AllAdded(steps);
      } else {
        assert AllAdded(front) + [] == AllAdded(front);
      }
    }
  }

  lemma AddedView(d: Dir, entries: Entries, all: seq<Entries>)
    requires ViewOf(d.items) == LiveView(all)
    ensures ViewOf(DirNext(d, Added(entries)).items) == LiveView(all + [entries])
  {
    hide LiveView;
    var id := LastID(d.items) + 1;
    EntriesConcat(d.items, [Item(id, id, entries, false)]);
    EntriesOfOne(Item(id, id, entries, false));
    SameViewThenSameView(EntriesOf(d.items), all, entries);
  }

  /**
   Wherever the process stops, sorting and dropping what is contained finds exactly the segments on disk, each
   with its entries.
   */
  lemma OpeningFindsOnDisk(d: Dir)
    requires Ok(d)
    ensures DirOk(d.files.Keys, ItemNames(Surviving(d.items)))
    ensures forall i :: 0 <= i < |Surviving(d.items)| ==>
              var x := Surviving(d.items)[i]; NameOfItem(x) in d.files && d.files[NameOfItem(x)] == x.entries
  {
    hide RangesAscend, CoveredBy, FilesCovered, Surviving, Covered;
    SurvivingAre(d.items);
    SurvivingAscend(d.items);
    SurvivingThere(d);
    SurvivingCover(d);
  }

  lemma SurvivingThere(d: Dir)
    requires FilesThere(d) && forall x :: x in Surviving(d.items) <==> x in d.items && x.onDisk
    ensures forall i :: 0 <= i < |Surviving(d.items)| ==>
              var x := Surviving(d.items)[i]; NameOfItem(x) in d.files && d.files[NameOfItem(x)] == x.entries
    ensures Elements(ItemNames(Surviving(d.items))) <= d.files.Keys
  {
    hide Surviving;
    forall i | 0 <= i < |Surviving(d.items)|
      ensures var x := Surviving(d.items)[i]; NameOfItem(x) in d.files && d.files[NameOfItem(x)] == x.entries
    {
      var x := Surviving(d.items)[i];
      var k :| 0 <= k < |d.items| && d.items[k] == x;
    }
  }

  lemma SurvivingCover(d: Dir)
    requires FilesCovered(d.files.Keys, d.items) && forall x :: x in Surviving(d.items) <==> x in d.items && x.onDisk
    ensures forall f :: f in d.files ==> f.lower <= f.upper && Covered(f, ItemNames(Surviving(d.items)))
  {
    hide Surviving;
    var ns := ItemNames(Surviving(d.items));
    forall f | f in d.files
      ensures f.lower <= f.upper && Covered(f, ns)
    {
      assert CoveredBy(d.items, f);
      var i :| 0 <= i < |d.items| && d.items[i].onDisk && Within(f, NameOfItem(d.items[i]));
      assert d.items[i] in Surviving(d.items);
      var j :| 0 <= j < |Surviving(d.items)| && Surviving(d.items)[j] == d.items[i];
      assert Within(f, ns[j]);
    }
  }

  lemma {:induction false} SurvivingAre(items: seq<Item>)
    ensures forall x :: x in Surviving(items) <==> x in items && x.onDisk
    decreases |items|
  {
    if items != [] {
      var n := |items| - 1;
      SurvivingAre(items[..n]);
      assert items == items[..n] + [items[n]];
    }
  }

  lemma {:induction false} SurvivingAscend(items: seq<Item>)
    requires RangesAscend(ItemNames(items))
    ensures RangesAscend(ItemNames(Surviving(items)))
    decreases |items|
  {
    hide RangesAscend;
    if items == [] {
      NoRanges();
    } else {
      var n := |items| - 1;
      FrontAscends(items);
      SurvivingAscend(items[..n]);
      SurvivingAre(items[..n]);
      var f := Surviving(items[..n]);
      forall i | 0 <= i < |f|
        ensures f[i].upper < items[n].lower
      {
        assert f[i] in f;
        var j :| 0 <= j < n && items[..n][j] == f[i];
        Ascends(ItemNames(items), j, n);
      }
      Ascends(ItemNames(items), n, n);
      OneMoreAscends(f, items[n]);
      assert f + [] == f;
    }
  }

  lemma NoRanges()
    ensures RangesAscend(ItemNames([]))
  {
  }

  lemma FrontAscends(items: seq<Item>)
    requires items != [] && RangesAscend(ItemNames(items))
    ensures RangesAscend(ItemNames(items[..|items| - 1]))
  {
    var n := |items| - 1;
    assert forall i :: 0 <= i < n ==> ItemNames(items[..n])[i] == ItemNames(items)[i];
  }

  lemma OneMoreAscends(items: seq<Item>, x: Item)
    requires RangesAscend(ItemNames(items)) && x.lower <= x.upper &&
             forall i :: 0 <= i < |items| ==> items[i].upper < x.lower
    ensures RangesAscend(ItemNames(items + [x]))
  {
    assert ItemNames(items + [x]) == ItemNames(items) + [NameOfItem(x)];
  }

  /** When nothing is left in memory, what is found is all of it. */
  lemma {:induction false} AllSurvive(items: seq<Item>)
    requires forall i :: 0 <= i < |items| ==> items[i].onDisk
    ensures Surviving(items) == items
    decreases |items|
  {
    if items != [] {
      AllSurvive(items[..|items| - 1]);
    }
  }

  /** What the files with these names hold. */
  ghost function Held(files: map<Name, Entries>, names: seq<Name>): (ms: seq<Entries>)
    requires forall i :: 0 <= i < |names| ==> names[i] in files
    ensures |ms| == |names| && forall i :: 0 <= i < |ms| ==> ms[i] == files[names[i]]
  {
    seq(|names|, i requires 0 <= i < |names| => files[names[i]])
  }

  /**
   loadDiskSegments after any life of the directory: exactly the segments on disk, and what they hold has the
   view of everything ever added exactly when the segments lost with the memory add nothing.
   */
  method LoadAfter(ghost d: Dir, ghost steps: seq<DirStep>, files: seq<Name>) returns (segments: seq<Name>)
    requires Ok(d) && Distinct(files) && Elements(files) == DirRun(d, steps).files.Keys
    ensures var t := DirRun(d, steps);
            && segments == ItemNames(Surviving(t.items))
            && (forall i :: 0 <= i < |segments| ==> segments[i] in t.files)
            && Held(t.files, segments) == EntriesOf(Surviving(t.items))
            && (LiveView(Held(t.files, segments)) == LiveView(EntriesOf(d.items) + AllAdded(steps)) <==>
               MemoryAddsNothing(t.items))
    ensures var t := DirRun(d, steps);
            (forall i :: 0 <= i < |t.items| ==> t.items[i].onDisk) ==>
              segments == ItemNames(t.items) && MemoryAddsNothing(t.items)
  {
    hide LiveView, EntriesOf, Ok, DirRun, Surviving, AllAdded, MemoryAddsNothing, DirOk;
    ghost var t := DirRun(d, steps);
    DirectoryMeansAllWritten(d, steps);
    OpeningFindsOnDisk(t);
    segments := OpenDirectory(files, ItemNames(Surviving(t.items)));
    HeldAre(t.files, Surviving(t.items));
    SurvivingViewExactlyWhen(t.items);
    if forall i :: 0 <= i < |t.items| ==> t.items[i].onDisk {
      AllSurvive(t.items);
    }
  }

  lemma HeldAre(files: map<Name, Entries>, items: seq<Item>)
    requires forall i :: 0 <= i < |items| ==>
             NameOfItem(items[i]) in files && files[NameOfItem(items[i])] == items[i].entries
    ensures (forall i :: 0 <= i < |items| ==> ItemNames(items)[i] in files) &&
            Held(files, ItemNames(items)) == EntriesOf(items)
  {
    hide EntriesOf;
    var held, ms := Held(files, ItemNames(items)), EntriesOf(items);
    forall i | 0 <= i < |items|
      ensures held[i] == ms[i]
    {
      EntriesAt(items, i);
    }
    assert held == ms;
  }
}
