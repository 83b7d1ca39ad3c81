/** The range iterator over a segment on disk. */
module DiskIterators {
  import opened Bytes
  import opened KeyValues
  import opened LittleEndian
  import opened KeyFormat
  import opened KeyFile
  import opened DiskSegments

  /** What the loop of nextKeyValue lets through: a key equal to `lower` skips the test against `upper`. */
  predicate Emits(k: Bytes, lower: Bytes, upper: Bytes) {
    (lower == [] || !Less(k, lower)) && (upper == [] || !Less(upper, k) || (lower != [] && k == lower))
  }

  /** The entries from index p on that the iterator still delivers. */
  ghost function Ahead(es: seq<KeyValue>, p: nat, lower: Bytes, upper: Bytes): Entries {
    if p >= |es| then map[]
    else map k | k in MapOf(es) && !Less(k, es[p].key) && Emits(k, lower, upper) :: MapOf(es)[k]
  }

  /** The cursor stands on record `pos` (or on the end marker before it), in block `block`, which is in the buffer. */
  ghost predicate Cursor(ds: DiskFiles, L: Layout, block: nat, buffer: Bytes, bufferOffset: nat, pos: nat)
    requires block < |L.starts|
  {
    && Holds(ds, L) && Starts(L)
    && OnRecord(L.entries, L.starts[block], End(L.starts, |L.entries|, block), buffer, bufferOffset, pos)
  }

  class DiskIterator {
    const ds: DiskFiles
    const lower: Bytes
    const upper: Bytes
    var valid: bool
    var finished: bool
    var currentKey: Bytes
    var currentValue: Bytes
    var prevKey: Bytes
    var block: nat
    var buffer: Bytes
    var bufferOffset: nat
    ghost const L: Layout
    ghost var pos: nat

    ghost predicate AtCursor()
      reads this
    {
      block < |L.starts| && Cursor(ds, L, block, buffer, bufferOffset, pos)
    }

    /** Inside the loop: nothing delivered yet, and prevKey is the key before the cursor. */
    ghost predicate Scanning()
      reads this
    {
      AtCursor() && !finished && !valid &&
        (pos > L.starts[block] ==> pos <= |L.entries| && prevKey == L.entries[pos - 1].key)
    }

    ghost predicate Valid()
      reads this
    {
      && Holds(ds, L) && Starts(L)
      && (finished ==> currentKey == [])
      && (!finished ==> AtCursor())
      && (!finished && (valid || pos > L.starts[block]) ==> pos > 0 && currentKey == L.entries[pos - 1].key)
      && (!finished && valid ==> currentValue == L.entries[pos - 1].value && Emits(currentKey, lower, upper))
    }

    ghost function Rem(): Entries
      requires Valid()
      reads this
    {
      if finished then map[]
      else Ahead(L.entries, if valid then pos - 1 else pos, lower, upper)
    }

    /** DiskSegment::lookup for a key file that is not empty; the buffers start with unspecified bytes. */
    constructor (ds: DiskFiles, lower: Bytes, upper: Bytes, garbage: Bytes, ghost L: Layout)
      requires Holds(ds, L) && L.entries != []
      ensures Valid() && this.ds == ds && this.L == L && this.lower == lower && this.upper == upper
      ensures Rem() == Ahead(L.entries, 0, lower, upper)
    {
      hide Less, IsKeyFile, Storable, IndexOf, OnRecord, Ahead, Ascending;
      HoldsStarts(ds, L);
      HoldsAscending(ds, L);
      IndexShape(ds, L);
      var b := 0;
      if lower != [] {
        b := IndexPosition(ds.keyIndex, lower) * KEY_INDEX_INTERVAL;
        LowBlockIsLow(ds, L, lower);
      }
      OnFirst(ds.keyFile, L, b);
      StartIsEarlyEnough(L, b, lower, upper);
      this.ds, this.lower, this.upper, this.L := ds, lower, upper, L;
      valid, finished := false, false;
      currentKey, currentValue, prevKey := garbage, [], garbage;
      block, bufferOffset, pos := b, 0, L.starts[b];
      buffer := ds.keyFile[b * KEY_BLOCK_SIZE..(b + 1) * KEY_BLOCK_SIZE];
    }

    /** The record after a header that is not the end marker: its key, and where its value is. */
    method DecodeRecord(keylen: nat) returns (dataoffset: nat, datalen: nat)
      requires Scanning() && pos < End(L.starts, |L.entries|, block)
      requires bufferOffset + 2 <= |buffer| && keylen == Read16(buffer, bufferOffset)
      modifies `bufferOffset, `currentKey, `prevKey, `pos
      ensures Scanning() && pos == old(pos) + 1 <= |L.entries| && prevKey == currentKey == L.entries[old(pos)].key
      ensures dataoffset == DataOff(L.entries, old(pos)) && datalen == |L.entries[old(pos)].value|
    {
      hide Starts, OnRecord, EncodeKey, DecodeKeyLen, Read16, Read32, Read64, DataOff, IsKeyFile, Storable, IndexOf;
      hide DataBytes, End, PrefixLen;
      ghost var es, s, e := L.entries, L.starts[block], End(L.starts, |L.entries|, block);
      OnRange(es, s, e, buffer, bufferOffset, pos);
      OnNext(es, s, e, buffer, bufferOffset, pos);
      hide Holds;
      bufferOffset := bufferOffset + 2;
      var dk := DecodeKeyLen(keylen);
      var keySlice := buffer[bufferOffset..bufferOffset + dk.compressedLen];
      bufferOffset := bufferOffset + dk.compressedLen;
      if dk.prefixLen == 0 {
        assert prevKey[..0] + keySlice == keySlice;
      }
      currentKey := DecodeKey(keySlice, prevKey, dk.prefixLen);
      dataoffset := Read64(buffer, bufferOffset);
      bufferOffset := bufferOffset + 8;
      datalen := Read32(buffer, bufferOffset);
      bufferOffset := bufferOffset + 4;
      prevKey := currentKey;
      pos := pos + 1;
    }

    /** Past the end marker: the next block, or the end of the file. */
    method NextBlock()
      requires Scanning() && pos == End(L.starts, |L.entries|, block)
      modifies this
      ensures pos == old(pos) && if finished then valid && Valid() && pos == |L.entries| else Scanning()
      ensures !finished ==> block == old(block) + 1 < |L.starts|
    {
      hide IsKeyFile, Storable, OnRecord, IndexOf;
      FileLength(ds, L);
      block := block + 1;
      if block == KeyBlocks(ds.keyFile) {
        finished := true;
        currentKey := [];
        valid := true;
        return;
      }
      OnFirst(ds.keyFile, L, block);
      buffer := ds.keyFile[block * KEY_BLOCK_SIZE..(block + 1) * KEY_BLOCK_SIZE];
      bufferOffset := 0;
      prevKey := [];
    }

    method PeekKey() returns (key: Bytes)
      requires Valid()
      modifies this
      ensures Valid() && Rem() == old(Rem()) && key == First(Rem()).key
    {
      if !valid {
        NextKeyValue();
      }
      if valid {
        CurrentIsFirst();
      }
      return currentKey;
    }

    /** At the end the key is empty, and the value is whatever was delivered last. */
    method Next() returns (kv: KeyValue)
      requires Valid()
      modifies this
      ensures Valid() && Rem() == old(Rem()) - {kv.key}
      ensures kv.key == old(First(Rem())).key && (old(Rem()) != map[] ==> kv == old(First(Rem())))
    {
      hide Cursor, Holds, Starts, Emits, Ahead;
      if !valid {
        NextKeyValue();
      }
      if valid {
        CurrentIsFirst();
      }
      valid := false;
      kv := KeyValue(currentKey, currentValue);
    }

    /** nextKeyValue: afterwards either the next pair of the range is current, or the iteration is finished. */
    method NextKeyValue()
      requires Valid() && !valid
      modifies this
      ensures Valid() && Rem() == old(Rem()) && (finished || valid) && (finished ==> Rem() == map[])
      ensures old(finished) ==> !valid
    {
      hide Holds, Starts, Cursor, Ahead, Read16, End, DataOff, Less, Emits;
      if finished {
        currentKey := [];
        return;
      }
      prevKey := currentKey;
      Start();
      hide Scanning;
      while true
        invariant Scanning() && !finished && pos <= |L.entries| && block < |L.starts|
        invariant Ahead(L.entries, pos, lower, upper) == old(Rem())
        decreases |L.entries| - pos, |L.starts| - block
      {
        AtHeader();
        var keylen := Read16(buffer, bufferOffset);
        if keylen == END_OF_BLOCK {
          NextBlock();
          if finished {
            AheadOfEnd(L.entries, lower, upper);
            return;
          }
          continue;
        }
        ghost var p := pos;
        var dataoffset, datalen := DecodeRecord(keylen);
        var done := Deliver(dataoffset, datalen, p);
        if done {
          return;
        }
      }
    }

    /** The tests against the bounds, and the value of a record that passes them. */
    method Deliver(dataoffset: nat, datalen: nat, ghost p: nat) returns (done: bool)
      requires Scanning() && pos == p + 1 <= |L.entries|
      requires prevKey == currentKey == L.entries[p].key
      requires dataoffset == DataOff(L.entries, p) && datalen == |L.entries[p].value|
      modifies `finished, `valid, `currentKey, `currentValue
      ensures done ==> Valid() && valid && Rem() == Ahead(L.entries, p, lower, upper) && (finished ==> Rem() == map[])
      ensures !done ==> Scanning()
      ensures !done ==> Ahead(L.entries, pos, lower, upper) == Ahead(L.entries, p, lower, upper)
    {
      hide Holds, Starts, OnRecord, Ahead, Less, CompareTo, Emits, IsLeast, DataOff;
      Filter(ds, L, p, lower, upper);
      if lower != [] && Less(currentKey, lower) {
        return false;
      }
      if !(lower != [] && CompareTo(currentKey, lower) == 0) && upper != [] {
        if CompareTo(currentKey, upper) != 0 && !Less(currentKey, upper) {
          finished, valid, currentKey := true, true, [];
          return true;
        }
      }
      ValueRead(ds, L, p);
      currentValue := if datalen == 0 then [] else ds.dataFile[dataoffset..dataoffset + datalen];
      valid := true;
      return true;
    }

    lemma CurrentIsFirst()
      requires Valid() && valid
      ensures finished ==> currentKey == [] && Rem() == map[]
      ensures !finished ==> First(Rem()) == KeyValue(currentKey, currentValue)
      ensures !finished ==> pos > 0 && Ahead(L.entries, pos, lower, upper) == Rem() - {currentKey}
    {
      hide Holds, Starts, Cursor, Emits, Ahead;
      if !finished {
        CursorRange(ds, L, block, buffer, bufferOffset, pos);
        HoldsAscending(ds, L);
        FirstAhead(L.entries, pos - 1, lower, upper);
      }
    }

    lemma Start()
      requires Valid() && !finished && !valid && prevKey == currentKey
      ensures Scanning() && pos <= |L.entries| && block < |L.starts|
      ensures Rem() == Ahead(L.entries, pos, lower, upper)
    {
      AtHeader();
    }

    /** The header at the cursor says whether the block has another record. */
    lemma AtHeader()
      requires Scanning() || AtCursor()
      ensures block < |L.starts| && L.starts[block] <= pos <= End(L.starts, |L.entries|, block) <= |L.entries|
      ensures bufferOffset + 2 <= |buffer|
      ensures Read16(buffer, bufferOffset) == END_OF_BLOCK <==> pos == End(L.starts, |L.entries|, block)
    {
      hide IsKeyFile, IndexOf, DataBytes, Starts;
      var s, e := L.starts[block], End(L.starts, |L.entries|, block);
      OnRange(L.entries, s, e, buffer, bufferOffset, pos);
      if pos == e {
        OnEnd(L.entries, s, e, buffer, bufferOffset);
      } else {
        OnNext(L.entries, s, e, buffer, bufferOffset, pos);
      }
    }
  }

  lemma OnRange(es: seq<KeyValue>, s: nat, e: nat, buffer: Bytes, index: nat, j: nat)
    requires OnRecord(es, s, e, buffer, index, j)
    ensures s <= j <= e <= |es| && |buffer| == KEY_BLOCK_SIZE
  {
  }

  lemma StartIsEarlyEnough(L: Layout, b: nat, lower: Bytes, upper: Bytes)
    requires Ascending(L.entries) && Starts(L) && b < |L.starts| && L.starts[0] == 0
    requires b == 0 || (lower != [] && !Less(lower, FirstOf(L, b)))
    ensures Ahead(L.entries, L.starts[b], lower, upper) == Ahead(L.entries, 0, lower, upper)
  {
    var es := L.entries;
    MapOfAscending(es);
    LessIsStrictTotalOrder();
    hide Less, MapOf;
  }

  lemma AheadOfEnd(es: seq<KeyValue>, lower: Bytes, upper: Bytes)
    ensures Ahead(es, |es|, lower, upper) == map[]
  {
  }

  /** In a sorted segment the keys from record p on are record p's own and those from p + 1 on. */
  lemma KeysFrom(es: seq<KeyValue>, p: nat, k: Bytes)
    requires Ascending(es) && p < |es| && k in MapOf(es)
    ensures !Less(k, es[p].key) <==> k == es[p].key || (p + 1 < |es| && !Less(k, es[p + 1].key))
  {
    hide MapOf, Less, Ascending;
    var i := PlaceOf(es, k);
    Ordered(es, i, p);
    if p + 1 < |es| {
      Ordered(es, i, p + 1);
    }
  }

  lemma PlaceOf(es: seq<KeyValue>, k: Bytes) returns (i: nat)
    requires Ascending(es) && k in MapOf(es)
    ensures i < |es| && es[i].key == k
  {
    hide MapOf, Less;
    MapOfAscending(es);
    i :| 0 <= i < |es| && es[i].key == k;
  }

  lemma Ordered(es: seq<KeyValue>, i: nat, j: nat)
    requires Ascending(es) && i < |es| && j < |es|
    ensures (Less(es[i].key, es[j].key) <==> i < j) && (es[i].key == es[j].key <==> i == j)
  {
    CompareToSigns(es[i].key, es[j].key);
    hide CompareTo;
  }

  lemma AheadStep(es: seq<KeyValue>, p: nat, lower: Bytes, upper: Bytes)
    requires Ascending(es) && p < |es|
    ensures es[p].key in MapOf(es) && MapOf(es)[es[p].key] == es[p].value
    ensures var here, next := Ahead(es, p, lower, upper), Ahead(es, p + 1, lower, upper);
            if Emits(es[p].key, lower, upper) then es[p].key in here && next == here - {es[p].key} else next == here
  {
    MapHas(es, p);
    var key, here, next := es[p].key, Ahead(es, p, lower, upper), Ahead(es, p + 1, lower, upper);
    LessIsStrictTotalOrder();
    if p + 1 < |es| {
      AscendingAt(es, p);
    }
    hide Less, MapOf, Emits, Ascending;
    forall k
      ensures k in next <==> k in here && k != key
      ensures k in here && k == key ==> Emits(key, lower, upper)
    {
      if k in MapOf(es) {
        KeysFrom(es, p, k);
      }
    }
    assert key in here <==> Emits(key, lower, upper);
    hide Ahead;
    SameButOne(here, next, MapOf(es), key);
  }

  lemma SameButOne(here: Entries, next: Entries, all: Entries, key: Bytes)
    requires forall k :: k in next <==> k in here && k != key
    requires (forall k :: k in here ==> k in all && here[k] == all[k]) &&
             (forall k :: k in next ==> k in all && next[k] == all[k])
    ensures next == here - {key}
    ensures key !in here ==> next == here
  {
  }

  lemma AscendingAt(es: seq<KeyValue>, p: nat)
    requires Ascending(es) && p + 1 < |es|
    ensures Less(es[p].key, es[p + 1].key)
  {
  }

  /** What the comparisons with the bounds decide about record p. */
  lemma Filter(ds: DiskFiles, L: Layout, p: nat, lower: Bytes, upper: Bytes)
    requires Holds(ds, L) && p < |L.entries|
    ensures var k := L.entries[p].key; var here := Ahead(L.entries, p, lower, upper);
            && (lower != [] && Less(k, lower) ==> Ahead(L.entries, p + 1, lower, upper) == here)
            && (PastUpper(k, lower, upper) ==> here == map[])
            && (!(lower != [] && Less(k, lower)) && !PastUpper(k, lower, upper) ==>
                  Emits(k, lower, upper) && IsLeast(here, k) && here[k] == L.entries[p].value)
  {
    HoldsAscending(ds, L);
    var k := L.entries[p].key;
    AheadStep(L.entries, p, lower, upper);
    CompareToSigns(k, lower);
    CompareToSigns(k, upper);
    LessIsStrictTotalOrder();
    hide Less, Holds, MapOf, Ascending, CompareTo;
  }

  /** The test that ends the iteration. */
  predicate PastUpper(k: Bytes, lower: Bytes, upper: Bytes) {
    && !(lower != [] && Less(k, lower)) && !(lower != [] && CompareTo(k, lower) == 0)
    && upper != [] && CompareTo(k, upper) != 0 && !Less(k, upper)
  }

  lemma ValueRead(ds: DiskFiles, L: Layout, p: nat)
    requires Holds(ds, L) && p < |L.entries|
    ensures var off, len := DataOff(L.entries, p), |L.entries[p].value|;
            off + len <= |ds.dataFile| && ds.dataFile[off..off + len] == L.entries[p].value
  {
    hide Storable, IsKeyFile, DataOff, DataBytes, IndexOf;
    ValueAt(L.entries, p, |L.entries|);
  }

  lemma FirstAhead(es: seq<KeyValue>, p: nat, lower: Bytes, upper: Bytes)
    requires Ascending(es) && p < |es| && Emits(es[p].key, lower, upper)
    ensures First(Ahead(es, p, lower, upper)) == es[p]
    ensures Ahead(es, p + 1, lower, upper) == Ahead(es, p, lower, upper) - {es[p].key}
  {
    AheadStep(es, p, lower, upper);
    hide Less, Emits, MapOf, Ascending;
    assert IsLeast(Ahead(es, p, lower, upper), es[p].key);
    FirstIs(Ahead(es, p, lower, upper), es[p].key);
  }

  lemma CursorRange(ds: DiskFiles, L: Layout, block: nat, buffer: Bytes, bufferOffset: nat, pos: nat)
    requires block < |L.starts| && Cursor(ds, L, block, buffer, bufferOffset, pos)
    ensures Holds(ds, L) && L.starts[block] <= pos <= |L.entries|
  {
  }

  /**
   What an iterator delivers in all is exactly the entries between its bounds, unless the bounds are
   crossed and the lower one is itself a key: that entry is then delivered although it is out of range.
   */
  lemma DeliversRangeExactlyWhen(es: seq<KeyValue>, lower: Bytes, upper: Bytes)
    requires Ascending(es)
    ensures Ahead(es, 0, lower, upper) == Range(MapOf(es), lower, upper) <==>
            !(Crossed(lower, upper) && lower in MapOf(es))
  {
    AllAhead(es, lower, upper);
    EmittedIsRangeExactlyWhen(MapOf(es), lower, upper);
  }

  predicate Crossed(lower: Bytes, upper: Bytes) {
    lower != [] && upper != [] && Less(upper, lower)
  }

  /** All that an iterator over m delivers. */
  ghost function Emitted(m: Entries, lower: Bytes, upper: Bytes): Entries {
    map k | k in m && Emits(k, lower, upper) :: m[k]
  }

  lemma AllAhead(es: seq<KeyValue>, lower: Bytes, upper: Bytes)
    requires Ascending(es)
    ensures Ahead(es, 0, lower, upper) == Emitted(MapOf(es), lower, upper)
  {
    hide Less, MapOf, Ascending, Emits;
    if es == [] {
      assert MapOf(es) == map[] by { NothingIn(); }
    }
    forall k | k in MapOf(es)
      ensures es != [] && !Less(k, es[0].key)
    {
      FirstIsLeast(es, k);
    }
  }

  lemma NothingIn()
    ensures MapOf([]) == map[]
  {
  }

  lemma EmittedIsRangeExactlyWhen(m: Entries, lower: Bytes, upper: Bytes)
    ensures Emitted(m, lower, upper) == Range(m, lower, upper) <==> !(Crossed(lower, upper) && lower in m)
  {
    LessIrreflexive(lower);
    hide Less;
    var a, r := Emitted(m, lower, upper), Range(m, lower, upper);
    if Crossed(lower, upper) && lower in m {
      assert lower in a && lower !in r;
    } else {
      forall k
        ensures k in a <==> k in r
        ensures k in a ==> a[k] == r[k]
      {
      }
    }
  }

  /** With the bounds crossed, the lower one is delivered if it is there, and nothing else. */
  lemma EmittedIs(m: Entries, lower: Bytes, upper: Bytes)
    ensures Emitted(m, lower, upper) ==
            if !Crossed(lower, upper) then Range(m, lower, upper)
            else if lower in m then map[lower := m[lower]]
            else map[]
  {
    LessIsStrictTotalOrder();
    hide Less;
    EmittedIsRangeExactlyWhen(m, lower, upper);
  }

  /** With the bounds crossed, a key equal to the lower one is delivered although it lies above the upper one. */
  lemma CrossedBoundsDeliver(k: Bytes, v: Bytes, upper: Bytes)
    requires upper != [] && Less(upper, k)
    ensures var es := [KeyValue(k, v)];
            Ahead(es, 0, k, upper) == map[k := v] && Range(MapOf(es), k, upper) == map[]
  {
    var es := [KeyValue(k, v)];
    assert es[..0] == [];
    assert MapOf(es) == map[k := v];
    LessIsStrictTotalOrder();
    hide Less, MapOf;
    assert k in Ahead(es, 0, k, upper);
  }

  lemma LessIrreflexive(k: Bytes)
    ensures !Less(k, k)
  {
    LessIsStrictTotalOrder();
    hide Less;
  }

  lemma FirstIsLeast(es: seq<KeyValue>, k: Bytes)
    requires Ascending(es) && k in MapOf(es)
    ensures es != [] && !Less(k, es[0].key)
  {
    hide MapOf, Less, Ascending;
    var i := PlaceOf(es, k);
    Ordered(es, i, 0);
  }
}
