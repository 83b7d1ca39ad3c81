/** Compaction decisions: which window to merge, and what replacing it does to the list of segments. */
module Compaction {
  import opened Bytes
  import opened KeyValues
  import opened LittleEndian
  import opened KeyFormat
  import opened KeyFile
  import opened DiskSegments
  import opened SkipLists
  import opened MemorySegments
  import opened MultiSegments
  import opened Segments
  import opened Listings
  import opened Views
  import opened Directory
  import opened Merger

  function NameOf(s: Segment): Name {
    Name(s.LowerID(), s.UpperID())
  }

  function Names(segments: seq<Segment>): (ns: seq<Name>)
    ensures |ns| == |segments| && forall i :: 0 <= i < |ns| ==> ns[i] == NameOf(segments[i])
  {
    seq(|segments|, i requires 0 <= i < |segments| => NameOf(segments[i]))
  }

  // ---- the size of a segment ----

  /** An ascending list with these entries, and its key file as the writer lays it out. */
  ghost predicate FilesFor(m: Entries, es: seq<KeyValue>, starts: seq<nat>, keyF: Bytes) {
    Ascending(es) && MapOf(es) == m && IsKeyFile(keyF, Layout(es, starts)) && IsPacked(Layout(es, starts))
  }

  /** The bytes in the key file and the data file of these entries. */
  ghost function SizeOnDisk(m: Entries): nat {
    if exists es, starts, keyF :: FilesFor(m, es, starts, keyF) then
      var es, starts, keyF :| FilesFor(m, es, starts, keyF);
      |keyF| + DataOff(es, |es|)
    else 0
  }

  /** What size() counts: the bytes of both files, or those of all keys and values in memory. */
  ghost function SizeOf(x: Item): nat {
    if x.onDisk then SizeOnDisk(x.entries) else TotalBytes(x.entries) % U64
  }

  lemma {:induction false} SameAscending(a: seq<KeyValue>, b: seq<KeyValue>)
    requires Ascending(a) && Ascending(b) && forall kv :: kv in a <==> kv in b
    ensures a == b
    decreases |a|
  {
    if a != [] {
      assert a[0] in b;
    }
    if b != [] {
      assert b[0] in a;
    }
    if a != [] && b != [] {
      LessIsStrictTotalOrder();
      hide Less;
      assert a == [a[0]] + a[1..] && b == [b[0]] + b[1..];
      SameFirst(a, b);
      forall kv
        ensures kv in a[1..] <==> kv in b[1..]
      {
        NotFirst(a, kv);
        NotFirst(b, kv);
      }
      SameAscending(a[1..], b[1..]);
    }
  }

  lemma SameFirst(a: seq<KeyValue>, b: seq<KeyValue>)
    requires Ascending(a) && Ascending(b) && a != [] && b != [] && a[0] in b && b[0] in a
    ensures a[0] == b[0]
  {
    LessIsStrictTotalOrder();
    hide Less;
    var i :| 0 <= i < |b| && b[i] == a[0];
    var j :| 0 <= j < |a| && a[j] == b[0];
    assert i > 0 ==> Less(b[0].key, b[i].key);
    assert j > 0 ==> Less(a[0].key, a[j].key);
  }

  lemma NotFirst(a: seq<KeyValue>, kv: KeyValue)
    requires Ascending(a) && a != []
    ensures kv in a[1..] <==> kv in a && kv != a[0]
  {
    LessIsStrictTotalOrder();
    hide Less;
    if kv in a && kv != a[0] {
      var i :| 0 <= i < |a| && a[i] == kv;
      assert a[1..][i - 1] == kv;
    }
    if kv in a[1..] {
      var i :| 0 <= i < |a[1..]| && a[1..][i] == kv;
      assert a[i + 1] == kv && Less(a[0].key, a[i + 1].key);
    }
  }

  /** A map is what just one ascending list makes of the empty one. */
  lemma AscendingIsUnique(a: seq<KeyValue>, b: seq<KeyValue>)
    requires Ascending(a) && Ascending(b) && MapOf(a) == MapOf(b)
    ensures a == b
  {
    MapOfAscending(a);
    MapOfAscending(b);
    hide MapOf, Ascending;
    forall kv
      ensures kv in a <==> kv in b
    {
      InMapOf(a, kv);
      InMapOf(b, kv);
    }
    SameAscending(a, b);
  }

  lemma InMapOf(es: seq<KeyValue>, kv: KeyValue)
    requires Ascending(es)
    ensures kv in es <==> kv.key in MapOf(es) && MapOf(es)[kv.key] == kv.value
  {
    MapOfAscending(es);
    hide MapOf, Ascending;
    if kv in es {
      var i :| 0 <= i < |es| && es[i] == kv;
      assert es[i].key in MapOf(es);
    }
    if kv.key in MapOf(es) && MapOf(es)[kv.key] == kv.value {
      var i :| 0 <= i < |es| && es[i].key == kv.key;
      assert es[i] == kv;
    }
  }

  lemma SizeOnDiskIs(m: Entries, es: seq<KeyValue>, starts: seq<nat>, keyF: Bytes)
    requires FilesFor(m, es, starts, keyF)
    ensures SizeOnDisk(m) == |keyF| + DataOff(es, |es|)
  {
    hide FilesFor;
    var es', starts', keyF' :| FilesFor(m, es', starts', keyF') && SizeOnDisk(m) == |keyF'| + DataOff(es', |es'|);
    SameFiles(m, es, starts, keyF, es', starts', keyF');
  }

  lemma SameFiles(m: Entries, es: seq<KeyValue>, starts: seq<nat>, keyF: Bytes,
                  es': seq<KeyValue>, starts': seq<nat>, keyF': Bytes)
    requires FilesFor(m, es, starts, keyF) && FilesFor(m, es', starts', keyF')
    ensures es == es' && keyF == keyF'
  {
    hide IsKeyFile, Packed, MapOf, Ascending;
    AscendingIsUnique(es, es');
    KeyFileIsUnique(es, keyF, starts, keyF', starts');
  }

  lemma {:induction false} DataLength(es: seq<KeyValue>, i: nat)
    requires i <= |es|
    ensures |DataBytes(es, i)| == DataOff(es, i)
  {
    if i > 0 {
      DataLength(es, i - 1);
    }
  }

  /** size() of a segment depends on its entries and its kind alone. */
  lemma SizeOfSegment(s: Segment)
    requires s.Valid() && [] !in s.Contents()
    ensures s.Size() == SizeOf(ItemOf(s, s.Contents()))
    ensures s.OnDisk? ==> s.Size() == |s.d.files.keyFile| + |s.d.files.dataFile|
  {
    hide IsKeyFile, IsPacked, MapOf, Ascending, TotalBytes, SkipList.Valid, SkipList.Contents;
    if s.OnDisk? {
      var L := s.d.L;
      HoldsAscending(s.d.files, L);
      DataLength(L.entries, |L.entries|);
      SizeOnDiskIs(s.Contents(), L.entries, L.starts, s.d.files.keyFile);
    }
  }

  // ---- the window ----

  /** The window starts at the first smallest segment but the last, and holds up to half of the list, or four. */
  ghost predicate Chosen(items: seq<Item>, p: Pass) {
    && p.start + 1 < |items|
    && (forall i :: 0 <= i < |items| - 1 ==> SizeOf(items[p.start]) <= SizeOf(items[i]))
    && (forall i :: 0 <= i < p.start ==> SizeOf(items[p.start]) < SizeOf(items[i]))
    && var most := if |items| / 2 > 4 then |items| / 2 else 4;
       p.count == if most < |items| - p.start then most else |items| - p.start
  }

  method ChooseWindow(segments: seq<Segment>) returns (start: nat, count: nat)
    requires |segments| >= 2
    ensures 2 <= count && start + count <= |segments|
    ensures forall i :: 0 <= i < |segments| - 1 ==> segments[start].Size() <= segments[i].Size()
    ensures forall i :: 0 <= i < start ==> segments[start].Size() < segments[i].Size()
    ensures count <= |segments| / 2 || count <= 4
    ensures start + count < |segments| ==> count >= 4 && count >= |segments| / 2
  {
    var maxMergeSize := if |segments| / 2 > 4 then |segments| / 2 else 4;
    start := 0;
    for itr := 0 to |segments| - 1
      invariant start <= itr && start < |segments| - 1
      invariant forall i :: 0 <= i < itr ==> segments[start].Size() <= segments[i].Size()
      invariant forall i :: 0 <= i < start ==> segments[start].Size() < segments[i].Size()
    {
      if segments[itr].Size() < segments[start].Size() {
        start := itr;
      }
    }
    count := if maxMergeSize < |segments| - start then maxMergeSize else |segments| - start;
  }

  /** What ChooseWindow chooses, in terms of what the segments hold. */
  lemma ChosenWindow(segments: seq<Segment>, ms: seq<Entries>, repr: set<object>, start: nat, count: nat)
    requires |ms| == |segments| && Hold(segments, ms, repr) && NoEmptyKey(ms)
    requires 2 <= count && start + count <= |segments|
    requires forall i :: 0 <= i < |segments| - 1 ==> segments[start].Size() <= segments[i].Size()
    requires forall i :: 0 <= i < start ==> segments[start].Size() < segments[i].Size()
    requires count <= |segments| / 2 || count <= 4
    requires start + count < |segments| ==> count >= 4 && count >= |segments| / 2
    ensures Chosen(Items(segments, ms), Pass(start, count))
  {
    hide Segment.Valid, Segment.Contents, Segment.Repr, Segment.Size, SizeOf, Items;
    forall i | 0 <= i < |segments|
      ensures SizeOf(Items(segments, ms)[i]) == segments[i].Size()
    {
      SizeInList(segments, ms, repr, i);
    }
  }

  method ChooseIn(segments: seq<Segment>, ghost ms: seq<Entries>, ghost repr: set<object>)
    returns (start: nat, count: nat)
    requires |ms| == |segments| >= 2 && Hold(segments, ms, repr) && NoEmptyKey(ms)
    ensures 2 <= count && start + count <= |segments| && Chosen(Items(segments, ms), Pass(start, count))
  {
    hide Hold, Segment.Size, Chosen, Items;
    start, count := ChooseWindow(segments);
    ChosenWindow(segments, ms, repr, start, count);
  }

  lemma NoneChosen(items: seq<Item>, limit: nat)
    ensures PassesChosen(items, [], limit)
  {
  }

  lemma SizeInList(segments: seq<Segment>, ms: seq<Entries>, repr: set<object>, i: nat)
    requires |ms| == |segments| && Hold(segments, ms, repr) && NoEmptyKey(ms) && i < |segments|
    ensures SizeOf(Items(segments, ms)[i]) == segments[i].Size()
  {
    hide Segment.Valid, Segment.Contents, Segment.Repr, Segment.Size, SizeOf, Items;
    HoldsAt(segments, ms, repr, i);
    ItemsAt(segments, ms, i);
    SizeOfSegment(segments[i]);
  }

  /** Every pass finds more segments than the limit, and merges the window that is to be chosen there. */
  ghost predicate PassesChosen(items: seq<Item>, passes: seq<Pass>, limit: nat) {
    forall i :: 0 <= i < |passes| ==>
      var t := AfterPasses(items, passes[..i]); |t| > limit && Chosen(t, passes[i])
  }

  lemma OneMoreChosen(items: seq<Item>, passes: seq<Pass>, p: Pass, limit: nat)
    requires PassesChosen(items, passes, limit)
    requires var t := AfterPasses(items, passes); |t| > limit && Chosen(t, p)
    ensures PassesChosen(items, passes + [p], limit)
  {
    hide AfterPasses, Chosen;
    var more := passes + [p];
    forall i | 0 <= i < |more|
      ensures var t := AfterPasses(items, more[..i]); |t| > limit && Chosen(t, more[i])
    {
      assert more[..i] == passes[..i];
      assert passes[..|passes|] == passes;
    }
  }

  lemma ChosenIsUnique(items: seq<Item>, p: Pass, q: Pass)
    requires Chosen(items, p) && Chosen(items, q)
    ensures p == q
  {
    hide SizeOf;
    var a, b := p.start, q.start;
    assert SizeOf(items[a]) <= SizeOf(items[b]) && SizeOf(items[b]) <= SizeOf(items[a]);
  }

  lemma {:induction false} SamePasses(items: seq<Item>, p: seq<Pass>, q: seq<Pass>, limit: nat, n: nat)
    requires PassesChosen(items, p, limit) && PassesChosen(items, q, limit) && n <= |p| && n <= |q|
    ensures p[..n] == q[..n]
    decreases n
  {
    hide AfterPasses, Chosen;
    if n > 0 {
      SamePasses(items, p, q, limit, n - 1);
      ChosenIsUnique(AfterPasses(items, p[..n - 1]), p[n - 1], q[n - 1]);
      assert p[..n] == p[..n - 1] + [p[n - 1]] && q[..n] == q[..n - 1] + [q[n - 1]];
    }
  }

  /** So a list and a limit determine every pass: there is just one compaction that gets down to the limit. */
  lemma CompactionIsDetermined(items: seq<Item>, p: seq<Pass>, q: seq<Pass>, limit: nat)
    requires PassesChosen(items, p, limit) && |AfterPasses(items, p)| <= limit
    requires PassesChosen(items, q, limit) && |AfterPasses(items, q)| <= limit
    ensures p == q
  {
    hide AfterPasses, Chosen;
    var n := if |p| < |q| then |p| else |q|;
    SamePasses(items, p, q, limit, n);
    assert p[..|p|] == p && q[..|q|] == q;
  }

  /** A list that is short enough is left alone. */
  lemma ShortIsLeftAlone(items: seq<Item>, passes: seq<Pass>, limit: nat)
    requires PassesChosen(items, passes, limit) && |items| <= limit
    ensures passes == []
  {
    NoPassYet(items, passes);
  }

  lemma NoPassYet(items: seq<Item>, passes: seq<Pass>)
    ensures AfterPasses(items, passes[..0]) == items
  {
  }

  // ---- sizes ----

  lemma {:induction false} TotalBytesOfUnion(a: Entries, b: Entries)
    ensures TotalBytes(a + b) <= TotalBytes(a) + TotalBytes(b)
    decreases |b|
  {
    hide TotalBytes;
    if b == map[] {
      assert a + b == a;
    } else {
      var k :| k in b;
      var v, rest := b[k], b - {k};
      WithoutKey(a, b, k);
      TotalBytesOfUnion(a, rest);
      var union := a + rest;
      TotalBytesAfterPut(union, k, v);
      TotalBytesAfterPut(rest, k, v);
    }
  }

  lemma WithoutKey(a: Entries, b: Entries, k: Bytes)
    requires k in b
    ensures var rest := b - {k};
            k !in rest && |rest| < |b| && b == rest[k := b[k]] && a + b == (a + rest)[k := b[k]]
  {
    assert (b - {k}).Keys == b.Keys - {k};
  }

  lemma {:induction false} TotalBytesOfLive(m: Entries)
    ensures TotalBytes(Live(m)) <= TotalBytes(m)
    decreases |m|
  {
    hide TotalBytes;
    if m == map[] {
      assert Live(m) == m;
    } else {
      var k :| k in m;
      var rest := m - {k};
      assert rest.Keys == m.Keys - {k};
      TotalBytesOfLive(rest);
      TotalBytesAfterPut(rest, k, m[k]);
      TotalBytesAfterPut(Live(rest), k, m[k]);
      assert m == rest[k := m[k]];
      assert Live(m) == if m[k] == [] then Live(rest) else Live(rest)[k := m[k]];
    }
  }

  ghost function Weight(ms: seq<Entries>): nat {
    if ms == [] then 0 else Weight(ms[..|ms| - 1]) + TotalBytes(ms[|ms| - 1])
  }

  lemma {:induction false} WeightConcat(a: seq<Entries>, b: seq<Entries>)
    ensures Weight(a + b) == Weight(a) + Weight(b)
    decreases |b|
  {
    if b == [] {
      assert a + b == a;
    } else {
      assert (a + b)[..|a + b| - 1] == a + b[..|b| - 1];
      WeightConcat(a, b[..|b| - 1]);
    }
  }

  lemma {:induction false} MergedWeight(ms: seq<Entries>)
    ensures TotalBytes(Merged(ms)) <= Weight(ms)
    decreases |ms|
  {
    if ms != [] {
      MergedWeight(ms[..|ms| - 1]);
      TotalBytesOfUnion(Merged(ms[..|ms| - 1]), ms[|ms| - 1]);
    }
  }

  lemma WeightOfOne(m: Entries)
    ensures Weight([m]) == TotalBytes(m)
  {
    var one := [m];
    assert one[..0] == [];
  }

  ghost predicate KeysFit(m: Entries) {
    forall k :: k in m ==> 1 <= |k| <= MAX_KEY_SIZE && |m[k]| < 0x8000_0000
  }

  /** Everything the segments hold can be written to disk, in whatever way they get merged. */
  ghost predicate FitsDisk(ms: seq<Entries>) {
    (forall i :: 0 <= i < |ms| ==> KeysFit(ms[i])) && Weight(ms) < DISK_LIMIT
  }

  lemma {:induction false} MergedKeysFit(ms: seq<Entries>)
    requires forall i :: 0 <= i < |ms| ==> KeysFit(ms[i])
    ensures KeysFit(Merged(ms))
    decreases |ms|
  {
    if ms != [] {
      MergedKeysFit(ms[..|ms| - 1]);
    }
  }

  lemma FitsParts(a: seq<Entries>, b: seq<Entries>)
    ensures FitsDisk(a + b) ==> FitsDisk(a) && FitsDisk(b)
  {
    WeightConcat(a, b);
    hide KeysFit, Weight;
    if FitsDisk(a + b) {
      forall i | 0 <= i < |a| + |b|
        ensures i < |a| ==> KeysFit(a[i])
        ensures i < |b| ==> KeysFit(b[i])
      {
        assert i < |a| ==> (a + b)[i] == a[i];
        assert i < |b| ==> (a + b)[|a| + i] == b[i];
      }
    }
  }

  lemma FitsMerged(w: seq<Entries>, purge: bool)
    requires FitsDisk(w)
    ensures DiskSized(Merged(w)) && KeysFit(MergedEntries(w, purge)) && TotalBytes(MergedEntries(w, purge)) <= Weight(w)
  {
    MergedKeysFit(w);
    MergedWeight(w);
    TotalBytesOfLive(Merged(w));
  }

  lemma FitsAfterMerge(a: seq<Entries>, w: seq<Entries>, b: seq<Entries>, purge: bool)
    requires FitsDisk(a + w + b)
    ensures DiskSized(Merged(w)) && FitsDisk(a + [MergedEntries(w, purge)] + b)
  {
    var m := MergedEntries(w, purge);
    FitsParts(a + w, b);
    FitsParts(a, w);
    FitsMerged(w, purge);
    WeightConcat(a + w, b);
    WeightConcat(a, w);
    WeightConcat(a + [m], b);
    WeightConcat(a, [m]);
    WeightOfOne(m);
    hide KeysFit, Weight, MergedEntries, TotalBytes;
    forall i | 0 <= i < |a + [m] + b|
      ensures KeysFit((a + [m] + b)[i])
    {
    }
  }

  // ---- the list of segments ----

  lemma HoldPart(segments: seq<Segment>, ms: seq<Entries>, repr: set<object>, lo: nat, hi: nat)
    requires Hold(segments, ms, repr) && lo <= hi <= |segments| && |ms| == |segments|
    ensures Hold(segments[lo..hi], ms[lo..hi], repr)
  {
    hide Segment.Valid, Segment.Contents, Segment.Repr;
  }

  lemma HoldConcat(a: seq<Segment>, am: seq<Entries>, b: seq<Segment>, bm: seq<Entries>, repr: set<object>)
    requires |am| == |a| && |bm| == |b| && Hold(a, am, repr) && Hold(b, bm, repr)
    ensures Hold(a + b, am + bm, repr)
  {
    hide Segment.Valid, Segment.Contents, Segment.Repr;
  }

  lemma HoldMore(segments: seq<Segment>, ms: seq<Entries>, repr: set<object>, more: set<object>)
    requires Hold(segments, ms, repr) && repr <= more
    ensures Hold(segments, ms, more)
  {
    hide Segment.Valid, Segment.Contents;
  }

  lemma HoldDisk(d: DiskSegment, repr: set<object>)
    requires d.Valid()
    ensures Hold([OnDisk(d)], [d.Contents()], repr)
  {
    hide DiskSegment.Valid;
  }

  lemma HoldMemory(m: MemorySegment)
    requires m.Valid()
    ensures Hold([InMemory(m)], [m.Contents()], m.Repr)
  {
    hide MemorySegment.Contents;
    var s := InMemory(m);
    assert s.Repr() == m.Repr;
    assert s.Contents() == m.Contents();
  }
}
