/** Compaction: merging a window of segments into one on disk. */
module Merger {
  import opened Bytes
  import opened KeyValues
  import opened KeyFormat
  import opened KeyFile
  import opened LittleEndian
  import opened SegmentWriter
  import opened DiskSegments
  import opened LookupIterators
  import opened MemorySegments
  import opened MultiSegments
  import opened Segments
  import opened Views

  const DISK_LIMIT := 0x8_0000_0000_0000

  /** What the file format can hold: keys of 1..1000 bytes, values of int length, and sizes far below 2^63. */
  ghost predicate DiskSized(m: Entries) {
    && (forall k :: k in m ==> 1 <= |k| <= MAX_KEY_SIZE && |m[k]| < 0x8000_0000)
    && TotalBytes(m) < DISK_LIMIT
  }

  /** All pairs an iterator delivers, up to its end marker. */
  method Drain(itr: MultiIterator) returns (out: seq<KeyValue>)
    requires itr.Valid() && NoEmptyKey(itr.rems)
    modifies itr`rems, itr.own
    ensures Ascending(out) && MapOf(out) == Merged(old(itr.rems))
  {
    hide Merged, Less, MultiIterator.Valid, NoEmptyKey, MapOf;
    out := [];
    ghost var all := Merged(itr.rems);
    DrainStarts(all);
    while true
      invariant itr.Valid() && NoEmptyKey(itr.rems)
      invariant Drained(all, out, Merged(itr.rems))
      decreases |Merged(itr.rems)|
    {
      ghost var rem := Merged(itr.rems);
      MergedHasNoEmptyKey(itr.rems);
      var kv := itr.Next();
      DrainStep(all, out, rem, kv);
      if kv.key == [] {
        break;
      }
      out := out + [kv];
    }
  }

  /** The same for the iterator of a single segment. */
  method DrainOne(itr: LookupIterator) returns (out: seq<KeyValue>)
    requires itr.Valid() && [] !in itr.Rem()
    modifies itr.Own()
    ensures Ascending(out) && MapOf(out) == old(itr.Rem())
  {
    hide Less, LookupIterator.Valid, LookupIterator.Rem, LookupIterator.Own, LookupIterator.Foot, MapOf, Ascending;
    hide Drained;
    out := [];
    ghost var all := itr.Rem();
    DrainStarts(all);
    while true
      invariant itr.Valid() && [] !in itr.Rem() && Drained(all, out, itr.Rem())
      decreases |itr.Rem()|
    {
      ghost var rem := itr.Rem();
      var kv := itr.Next();
      DrainStep(all, out, rem, kv);
      if kv.key == [] {
        break;
      }
      out := out + [kv];
    }
  }

  /** out is an ascending part of all, and everything that remains comes after it. */
  ghost predicate Drained(all: Entries, out: seq<KeyValue>, rem: Entries) {
    && Ascending(out) && MapOf(out) + rem == all
    && (forall i, k :: 0 <= i < |out| && k in rem ==> Less(out[i].key, k))
  }

  lemma DrainStarts(all: Entries)
    ensures Drained(all, [], all)
  {
  }

  lemma DrainStep(all: Entries, out: seq<KeyValue>, rem: Entries, kv: KeyValue)
    requires Drained(all, out, rem) && [] !in rem
    requires kv.key == First(rem).key && (rem != map[] ==> kv == First(rem))
    ensures kv.key == [] ==> Ascending(out) && MapOf(out) == all
    ensures kv.key != [] ==> Drained(all, out + [kv], rem - {kv.key}) && |rem - {kv.key}| < |rem|
  {
    hide MapOf;
    LessIsStrictTotalOrder();
    hide Less;
    if rem == map[] {
      assert MapOf(out) + map[] == MapOf(out);
    } else {
      MapOfAppend(out, kv);
      assert MapOf(out + [kv]) + (rem - {kv.key}) == MapOf(out) + rem;
      assert (rem - {kv.key}).Keys == rem.Keys - {kv.key};
    }
  }

  lemma MergedHasNoEmptyKey(ms: seq<Entries>)
    requires NoEmptyKey(ms)
    ensures [] !in Merged(ms)
  {
    MergedLacks(ms, []);
  }

  // ---- from a list of entries to a segment on disk ----

  lemma {:induction false} DataBelowTotal(es: seq<KeyValue>)
    requires Ascending(es)
    ensures DataOff(es, |es|) <= TotalBytes(MapOf(es))
    ensures (forall i :: 0 <= i < |es| ==> es[i].key != []) ==> |es| <= TotalBytes(MapOf(es))
    decreases |es|
  {
    hide TotalBytes, Less;
    if es != [] {
      var n := |es| - 1;
      var front, last := es[..n], es[n];
      DataBelowTotal(front);
      DataOffOfPrefix(es, n);
      LastKeyIsNew(es);
      TotalBytesAfterPut(MapOf(front), last.key, last.value);
    }
  }

  lemma {:induction false} DataOffOfPrefix(es: seq<KeyValue>, i: nat)
    requires 0 < |es| && i < |es|
    ensures DataOff(es[..|es| - 1], i) == DataOff(es, i)
  {
    if i > 0 {
      DataOffOfPrefix(es, i - 1);
    }
  }

  lemma LastKeyIsNew(es: seq<KeyValue>)
    requires Ascending(es) && es != []
    ensures Ascending(es[..|es| - 1]) && es[|es| - 1].key !in MapOf(es[..|es| - 1])
  {
    var front := es[..|es| - 1];
    LessIsStrictTotalOrder();
    MapLacks(front, es[|es| - 1].key);
  }

  lemma SizedIsStorable(es: seq<KeyValue>)
    requires Ascending(es) && DiskSized(MapOf(es))
    ensures Storable(es) && Writable(es) && |es| < DISK_LIMIT
  {
    hide Less, MapOf, TotalBytes, DataOff, Ascending;
    DataBelowTotal(es);
    MapOfAscending(es);
    forall i | 0 <= i < |es|
      ensures 1 <= |es[i].key| <= MAX_KEY_SIZE && |es[i].value| < 0x8000_0000
    {
      assert es[i].key in MapOf(es);
    }
  }

  lemma KeptMap(es: seq<KeyValue>, purgeDeleted: bool)
    requires Ascending(es)
    ensures MapOf(Kept(es, purgeDeleted)) == if purgeDeleted then Live(MapOf(es)) else MapOf(es)
  {
    var kept := Kept(es, purgeDeleted);
    KeptFrom(es, purgeDeleted);
    MapOfAscending(es);
    MapOfAscending(kept);
    hide Less, MapOf, Kept, Ascending;
    var goal := if purgeDeleted then Live(MapOf(es)) else MapOf(es);
    forall k
      ensures k in MapOf(kept) <==> k in goal
      ensures k in goal ==> k in MapOf(kept) && MapOf(kept)[k] == goal[k]
    {
      if k in goal {
        var i :| 0 <= i < |es| && es[i].key == k;
        assert es[i] in kept;
        var j :| 0 <= j < |kept| && kept[j] == es[i];
      }
      if k in MapOf(kept) {
        var j :| 0 <= j < |kept| && kept[j].key == k;
        assert kept[j] in kept && kept[j] in es;
        var i :| 0 <= i < |es| && es[i] == kept[j];
      }
    }
    SameEntries(MapOf(kept), goal);
  }

  lemma FewBlocks(keyFile: Bytes, L: Layout)
    requires IsKeyFile(keyFile, L) && |L.entries| < DISK_LIMIT
    ensures |keyFile| < U64
  {
    BlocksBelow(keyFile, L, |L.starts|);
  }

  lemma {:induction false} BlocksBelow(keyFile: Bytes, L: Layout, n: nat)
    requires IsKeyFile(keyFile, L) && n <= |L.starts|
    ensures n <= |L.entries|
    ensures 0 < n ==> n - 1 <= L.starts[n - 1] < |L.entries|
    decreases n
  {
    hide Block, Records;
    if n > 0 {
      BlocksBelow(keyFile, L, n - 1);
      assert BlockAt(keyFile, L.entries, n - 1, L.starts[n - 1], End(L.starts, |L.entries|, n - 1));
      if n > 1 {
        assert BlockAt(keyFile, L.entries, n - 2, L.starts[n - 2], End(L.starts, |L.entries|, n - 2));
      }
    }
  }

  /** writeAndLoadSegment, the iterator given as the pairs it delivers. */
  method WriteAndLoadSegment(lowerID: nat, upperID: nat, input: seq<KeyValue>, purgeDeleted: bool)
    returns (seg: DiskSegment)
    requires Ascending(input) && DiskSized(MapOf(input))
    ensures seg.Valid() && fresh(seg) && seg.files.lowerID == lowerID && seg.files.upperID == upperID
    ensures seg.Contents() == if purgeDeleted then Live(MapOf(input)) else MapOf(input)
  {
    SizedIsStorable(input);
    KeptMap(input, purgeDeleted);
    KeptIsShorter(input, purgeDeleted);
    hide Storable, Writable, IsKeyFile, IndexOf, DataBytes, Kept, MapOf, Ascending;
    ghost var L;
    var keyF, dataF, keyIndex;
    keyF, dataF, keyIndex, L := WriteSegmentFiles(input, purgeDeleted);
    FewBlocks(keyF, L);
    var files := NewDiskSegment(lowerID, upperID, keyF, dataF, keyIndex, L);
    seg := new DiskSegment(files, L);
  }

  lemma {:induction false} KeptIsShorter(input: seq<KeyValue>, purgeDeleted: bool)
    ensures |Kept(input, purgeDeleted)| <= |input|
  {
    if input != [] {
      KeptIsShorter(input[1..], purgeDeleted);
    }
  }

  /** mergeSegments1: one segment with the ID range of the window and the window's merged entries. */
  method MergeSegments1(segments: seq<Segment>, purgeDeleted: bool, ghost ms: seq<Entries>, ghost repr: set<object>)
    returns (seg: DiskSegment)
    requires |ms| == |segments| && Hold(segments, ms, repr) && segments != [] && NoEmptyKey(ms) && DiskSized(Merged(ms))
    ensures seg.Valid() && fresh(seg)
    ensures seg.files.lowerID == segments[0].LowerID() && seg.files.upperID == segments[|segments| - 1].UpperID()
    ensures seg.Contents() == MergedEntries(ms, purgeDeleted)
  {
    hide Hold, NoEmptyKey, DiskSized, MultiIterator.Valid, Merged, MapOf, Ascending;
    var itr := MultiLookup(segments, [], [], ms, repr);
    NoEmptyKeyDelivered(segments, ms, [], []);
    LookupIsRangeExactlyWhen(segments, ms, [], []);
    RangeOfAll(Merged(ms));
    var pairs := Drain(itr);
    seg := WriteAndLoadSegment(segments[0].LowerID(), segments[|segments| - 1].UpperID(), pairs, purgeDeleted);
  }
}
