/**
 The files of a database directory. Merging writes a segment that covers its inputs before the inputs are
 deleted, so a directory may hold files that others supersede; opening it must see through that.
 */
module Directory {

  /** A key file and its data file are named by the ID range of their segment. */
  datatype Name = Name(lower: nat, upper: nat)

  /** segmentCompare: by upper ID, and among equal ones the narrower range first. */
  predicate SegmentCompare(a: Name, b: Name) {
    if a.upper == b.upper then a.lower > b.lower else a.upper < b.upper
  }

  /** The test of the erase loop: a's range lies within b's. */
  predicate Within(a: Name, b: Name) {
    a.lower >= b.lower && a.upper <= b.upper
  }

  // ---- std::sort ----

  function Insert(f: Name, fs: seq<Name>): seq<Name> {
    if fs == [] || !SegmentCompare(fs[0], f) then [f] + fs else [fs[0]] + Insert(f, fs[1..])
  }

  function Sort(fs: seq<Name>): seq<Name> {
    if fs == [] then [] else Insert(fs[0], Sort(fs[1..]))
  }

  ghost predicate Sorted(fs: seq<Name>) {
    forall i, j :: 0 <= i < j < |fs| ==> SegmentCompare(fs[i], fs[j])
  }

  ghost predicate Distinct(fs: seq<Name>) {
    forall i, j :: 0 <= i < j < |fs| ==> fs[i] != fs[j]
  }

  lemma {:induction false} InsertHolds(f: Name, fs: seq<Name>)
    ensures forall g :: g in Insert(f, fs) <==> g == f || g in fs
  {
    if fs != [] && SegmentCompare(fs[0], f) {
      InsertHolds(f, fs[1..]);
    }
  }

  lemma {:induction false} InsertSorts(f: Name, fs: seq<Name>)
    requires Sorted(fs) && f !in fs
    ensures Sorted(Insert(f, fs))
  {
    if fs != [] && SegmentCompare(fs[0], f) {
      InsertSorts(f, fs[1..]);
      InsertHolds(f, fs[1..]);
      var rest := Insert(f, fs[1..]);
      forall j | 0 <= j < |rest|
        ensures SegmentCompare(fs[0], rest[j])
      {
        assert rest[j] in rest;
      }
    } else if fs != [] {
      forall j | 0 <= j < |fs|
        ensures SegmentCompare(f, fs[j])
      {
        assert fs[0] in fs;
      }
    }
  }

  lemma {:induction false} SortSorts(fs: seq<Name>)
    requires Distinct(fs)
    ensures Sorted(Sort(fs)) && forall g :: g in Sort(fs) <==> g in fs
  {
    if fs != [] {
      SortSorts(fs[1..]);
      InsertHolds(fs[0], Sort(fs[1..]));
      InsertSorts(fs[0], Sort(fs[1..]));
    }
  }

  // ---- the erase loop ----

  ghost predicate Maximal(fs: set<Name>, f: Name) {
    f in fs && forall g :: g in fs && Within(f, g) ==> g == f
  }

  ghost function Elements(fs: seq<Name>): set<Name> {
    set f | f in fs
  }

  /** What is left of the input: an ordered part of it that still has everything maximal. */
  ghost predicate Remains(input: set<Name>, fs: seq<Name>) {
    && Sorted(fs) && Elements(fs) <= input
    && forall f :: Maximal(input, f) ==> f in fs
  }

  lemma EraseKeeps(input: set<Name>, fs: seq<Name>, i: nat, j: nat)
    requires Remains(input, fs) && i < j < |fs| && Within(fs[i], fs[j])
    ensures Remains(input, fs[..i] + fs[i + 1..])
  {
    var rest := fs[..i] + fs[i + 1..];
    assert SegmentCompare(fs[i], fs[j]);
    assert fs[j] in Elements(fs);
    assert forall k :: 0 <= k < |rest| ==> rest[k] == fs[if k < i then k else k + 1];
    forall f | Maximal(input, f)
      ensures f in rest
    {
      assert f in fs && f != fs[i];
      var k :| 0 <= k < |fs| && fs[k] == f;
      assert rest[if k < i then k else k - 1] == f;
    }
  }

  ghost predicate NoneWithinLater(fs: seq<Name>, n: nat) {
    forall i, j :: 0 <= i < n && i < j < |fs| ==> !Within(fs[i], fs[j])
  }

  /** The sorted list without the files that another one covers. The goto is a flag here. */
  method RemoveContained(input: seq<Name>) returns (segments: seq<Name>)
    requires Sorted(input)
    ensures Sorted(segments) && forall f :: f in segments <==> Maximal(Elements(input), f)
  {
    segments := input;
    ghost var all := Elements(input);
    var again := true;
    while again
      invariant Remains(all, segments)
      invariant !again ==> NoneWithinLater(segments, |segments|)
      decreases |segments|, again
    {
      again := false;
      ghost var size := |segments|;
      var i := 0;
      while i < |segments| && !again
        invariant 0 <= i && |segments| == if again then size - 1 else size
        invariant Remains(all, segments)
        invariant !again ==> i <= |segments| && NoneWithinLater(segments, i)
      {
        var j := FirstCover(segments, i);
        if j < |segments| {
          EraseKeeps(all, segments, i, j);
          segments := segments[..i] + segments[i + 1..];
          again := true;
        } else {
          i := i + 1;
        }
      }
    }
    OnlyMaximalRemain(input, segments);
  }

  /** The inner loop: the first later file that covers file i. */
  method FirstCover(segments: seq<Name>, i: nat) returns (j: nat)
    requires i < |segments|
    ensures i < j <= |segments| && (j < |segments| ==> Within(segments[i], segments[j]))
    ensures forall k :: i < k < j ==> !Within(segments[i], segments[k])
  {
    j := i + 1;
    while j < |segments| && !Within(segments[i], segments[j])
      invariant i < j <= |segments|
      invariant forall k :: i < k < j ==> !Within(segments[i], segments[k])
    {
      j := j + 1;
    }
  }

  lemma OnlyMaximalRemain(input: seq<Name>, fs: seq<Name>)
    requires Sorted(input) && Remains(Elements(input), fs) && NoneWithinLater(fs, |fs|)
    ensures forall f :: f in fs ==> Maximal(Elements(input), f)
  {
    forall f, g | f in fs && g in input && Within(f, g)
      ensures g == f
    {
      var m := Cover(input, g);
      var i :| 0 <= i < |fs| && fs[i] == f;
      var j :| 0 <= j < |fs| && fs[j] == m;
      WithinIsLater(fs, i, j);
    }
    assert forall f :: f in fs ==> f in Elements(fs);
  }

  /** In the sorted order a file that covers another one never comes first. */
  lemma WithinIsLater(fs: seq<Name>, i: nat, j: nat)
    requires Sorted(fs) && i < |fs| && j < |fs| && Within(fs[i], fs[j])
    ensures i <= j
  {
  }

  /** Every file is covered by a maximal one. */
  lemma Cover(fs: seq<Name>, f: Name) returns (m: Name)
    requires f in fs && Sorted(fs)
    ensures Maximal(Elements(fs), m) && Within(f, m)
  {
    var k :| 0 <= k < |fs| && fs[k] == f;
    m := CoverFrom(fs, k);
  }

  lemma {:induction false} CoverFrom(fs: seq<Name>, k: nat) returns (m: Name)
    requires Sorted(fs) && k < |fs|
    ensures Maximal(Elements(fs), m) && Within(fs[k], m)
    decreases |fs| - k
  {
    if j :| k < j < |fs| && Within(fs[k], fs[j]) {
      m := CoverFrom(fs, j);
    } else {
      m := fs[k];
      forall g | g in fs && Within(m, g)
        ensures g == m
      {
        var i :| 0 <= i < |fs| && fs[i] == g;
        WithinIsLater(fs, k, i);
      }
    }
  }

  /** The sort and containment part of loadDiskSegments: the files with maximal ranges, in order. */
  method LoadDiskSegments(files: seq<Name>) returns (segments: seq<Name>)
    requires Distinct(files)
    ensures Sorted(segments) && forall f :: f in segments <==> Maximal(Elements(files), f)
  {
    var sorted := Sort(files);
    SortSorts(files);
    assert Elements(sorted) == Elements(files);
    segments := RemoveContained(sorted);
  }

  // ---- a directory in the course of its life ----

  ghost predicate RangesAscend(active: seq<Name>) {
    && (forall i :: 0 <= i < |active| ==> active[i].lower <= active[i].upper)
    && (forall i, j :: 0 <= i < j < |active| ==> active[i].upper < active[j].lower)
  }

  ghost predicate Covered(f: Name, active: seq<Name>) {
    exists i :: 0 <= i < |active| && Within(f, active[i])
  }

  /** The files are the active segments and any number of leftovers that active ones cover. */
  ghost predicate DirOk(files: set<Name>, active: seq<Name>) {
    && RangesAscend(active) && Elements(active) <= files
    && forall f :: f in files ==> f.lower <= f.upper && Covered(f, active)
  }

  lemma ActiveIsMaximal(files: set<Name>, active: seq<Name>, f: Name)
    requires DirOk(files, active)
    ensures Maximal(files, f) <==> f in active
  {
    if f in active {
      assert f in Elements(active);
      forall g | g in files && Within(f, g)
        ensures g == f
      {
        assert Covered(g, active);
        var j :| 0 <= j < |active| && Within(g, active[j]);
        var i :| 0 <= i < |active| && active[i] == f;
        assert i == j;
      }
    } else if f in files {
      assert Covered(f, active);
      var i :| 0 <= i < |active| && Within(f, active[i]);
      assert active[i] in Elements(active) && active[i] != f;
    }
  }

  lemma {:induction false} SortedUnique(a: seq<Name>, b: seq<Name>)
    requires Sorted(a) && Sorted(b) && forall f :: f in a <==> f in b
    ensures a == b
    decreases |a|
  {
    if a != [] {
      assert a[0] in b;
    }
    if b != [] {
      assert b[0] in a;
    }
    if a != [] && b != [] {
      assert a == [a[0]] + a[1..] && b == [b[0]] + b[1..];
      var i :| 0 <= i < |b| && b[i] == a[0];
      var j :| 0 <= j < |a| && a[j] == b[0];
      assert i == 0 && j == 0;
      forall f
        ensures f in a[1..] <==> f in b[1..]
      {
        NotFirstAgain(a, f);
        NotFirstAgain(b, f);
      }
      SortedUnique(a[1..], b[1..]);
    }
  }

  lemma NotFirstAgain(a: seq<Name>, f: Name)
    requires Sorted(a) && a != []
    ensures f in a[1..] <==> f in a && f != a[0]
  {
    if f in a && f != a[0] {
      var i :| 0 <= i < |a| && a[i] == f;
      assert a[1..][i - 1] == f;
    }
  }

  /** Opening a directory finds exactly the active segments, in order, and drops every leftover. */
  method OpenDirectory(files: seq<Name>, ghost active: seq<Name>) returns (segments: seq<Name>)
    requires Distinct(files) && DirOk(Elements(files), active)
    ensures segments == active
  {
    segments := LoadDiskSegments(files);
    forall f
      ensures f in segments <==> f in active
    {
      ActiveIsMaximal(Elements(files), active, f);
    }
    SortedUnique(segments, active);
  }

  // ---- the name of a merged segment ----

  ghost function MergeName(active: seq<Name>, start: nat, count: nat): Name
    requires 1 <= count && start + count <= |active|
  {
    Name(active[start].lower, active[start + count - 1].upper)
  }

  ghost function Replaced(active: seq<Name>, start: nat, count: nat, m: Name): seq<Name>
    requires start + count <= |active|
  {
    active[..start] + [m] + active[start + count..]
  }

  lemma NotAcross(active: seq<Name>, i: nat, start: nat, count: nat)
    requires RangesAscend(active) && i < |active| && 2 <= count && start + count <= |active|
    ensures !(active[i].lower <= active[start].lower && active[start + count - 1].upper <= active[i].upper)
  {
  }

  lemma ReplacedAt(active: seq<Name>, start: nat, count: nat, m: Name)
    requires start + count <= |active|
    ensures var t := Replaced(active, start, count, m);
            && |t| == |active| - count + 1
            && forall i {:trigger t[i]} :: 0 <= i < |t| ==> t[i] == if i < start then active[i]
               else if i == start then m else active[i + count - 1]
  {
  }

  lemma Ascends(active: seq<Name>, i: nat, j: nat)
    requires RangesAscend(active) && i <= j < |active|
    ensures active[i].lower <= active[i].upper && active[i].lower <= active[j].lower &&
            active[i].upper <= active[j].upper
    ensures i < j ==> active[i].upper < active[j].lower
  {
  }

  lemma AscendsMeans(t: seq<Name>)
    requires forall i, j :: 0 <= i <= j < |t| ==> if i < j then t[i].upper < t[j].lower else t[i].lower <= t[j].upper
    ensures RangesAscend(t)
  {
  }

  lemma RangesAfterMerge(active: seq<Name>, start: nat, count: nat)
    requires RangesAscend(active) && 1 <= count && start + count <= |active|
    ensures RangesAscend(Replaced(active, start, count, MergeName(active, start, count)))
    ensures forall i :: start <= i < start + count ==> Within(active[i], MergeName(active, start, count))
  {
    var m := MergeName(active, start, count);
    var t := Replaced(active, start, count, m);
    ReplacedAt(active, start, count, m);
    AscendsAfterMerge(active, start, count, t);
    hide RangesAscend, Replaced;
    forall i | start <= i < start + count
      ensures Within(active[i], m)
    {
      Ascends(active, start, i);
      Ascends(active, i, start + count - 1);
    }
  }

  lemma AscendsAfterMerge(active: seq<Name>, start: nat, count: nat, t: seq<Name>)
    requires RangesAscend(active) && 1 <= count && start + count <= |active|
    requires |t| == |active| - count + 1
    requires forall i {:trigger t[i]} :: 0 <= i < |t| ==>
               t[i] == if i < start then active[i] else if i == start then MergeName(active, start, count)
                 else active[i + count - 1]
    ensures RangesAscend(t)
  {
    Ascends(active, start, start + count - 1);
    assert t[start] == MergeName(active, start, count);
    hide RangesAscend;
    forall i, j | 0 <= i <= j < |t|
      ensures if i < j then t[i].upper < t[j].lower else t[i].lower <= t[j].upper
    {
      var l, r := if i < start then i else i + count - 1, if j <= start then j else j + count - 1;
      assert t[i].upper == active[l].upper && t[j].lower == active[r].lower;
      if i < j {
        Ascends(active, l, r);
      } else if i != start {
        Ascends(active, l, l);
      }
    }
    AscendsMeans(t);
  }

  lemma DeletedOk(files: set<Name>, active: seq<Name>, gone: set<Name>)
    requires DirOk(files, active) && gone !! Elements(active)
    ensures DirOk(files - gone, active)
  {
  }
}
