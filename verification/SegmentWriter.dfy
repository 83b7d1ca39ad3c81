/** writeSegmentFiles: an ascending run of entries becomes a key file, a data file and a sparse key index. */
module SegmentWriter {
  import opened Bytes
  import opened KeyValues
  import opened LittleEndian
  import opened KeyFormat
  import opened KeyFile

  /** The entries that reach the disk: all of them, or those that are not removals. */
  ghost function Kept(input: seq<KeyValue>, purgeDeleted: bool): seq<KeyValue> {
    if input == [] then []
    else if purgeDeleted && input[0].value == [] then Kept(input[1..], purgeDeleted)
    else [input[0]] + Kept(input[1..], purgeDeleted)
  }

  /** Block b is complete and ends where the next one starts; the last ends before entry n. */
  ghost predicate Blocks(all: seq<KeyValue>, starts: seq<nat>, n: nat, keyF: Bytes, k: nat)
    requires k <= |starts|
  {
    forall b {:trigger End(starts, n, b)} :: 0 <= b < k ==> BlockAt(keyF, all, b, starts[b], End(starts, n, b))
  }

  /** An entry that begins a block, the one before being full. */
  lemma PackedBegins(all: seq<KeyValue>, starts: seq<nat>, n: nat, keyF: Bytes, keyBlockLen: nat)
    requires Packed(all, starts, n) && Open(all, starts, n, keyF, keyBlockLen) && n < |all|
    requires keyBlockLen + 2 + |all[n].key| + 8 + 4 >= KEY_BLOCK_SIZE - 2
    ensures Packed(all, starts + [n], n + 1)
  {
    hide Blocks, Records;
    var t := starts + [n];
    forall c | 1 <= c < |t|
      ensures FullBefore(all, t, c)
    {
      assert c < |starts| ==> FullBefore(all, starts, c);
    }
    forall b | 0 <= b < |t|
      ensures HadRoom(all, t[b], End(t, n + 1, b))
    {
      assert b < |starts| ==> HadRoom(all, starts[b], End(starts, n, b));
    }
  }

  /** An entry that goes to the open block. */
  lemma PackedGoesOn(all: seq<KeyValue>, starts: seq<nat>, n: nat, keyF: Bytes, keyBlockLen: nat)
    requires Packed(all, starts, n) && Open(all, starts, n, keyF, keyBlockLen) && n < |all|
    requires keyBlockLen + 2 + |all[n].key| + 8 + 4 < KEY_BLOCK_SIZE - 2
    ensures Packed(all, starts, n + 1)
  {
    hide Blocks, Records;
    forall b | 0 <= b < |starts|
      ensures HadRoom(all, starts[b], End(starts, n + 1, b))
    {
      assert HadRoom(all, starts[b], End(starts, n, b));
    }
  }

  /** The three results are the files and the index of the entries es. */
  ghost predicate FilesOf(es: seq<KeyValue>, keyF: Bytes, dataF: Bytes, keyIndex: seq<Bytes>) {
    && dataF == DataBytes(es, |es|)
    && exists starts: seq<nat> ::
         && IsKeyFile(keyF, Layout(es, starts)) && Packed(es, starts, |es|)
         && (forall b :: 0 <= b < |starts| ==> starts[b] < |es|) && keyIndex == IndexOf(es, starts)
  }

  /** The file while its last block is still open and holds entries up to n. */
  ghost predicate Open(all: seq<KeyValue>, starts: seq<nat>, n: nat, keyF: Bytes, keyBlockLen: nat) {
    && starts != [] && starts[0] == 0
    && var k := |starts| - 1;
    && Fits(all, starts[k], n)
    && |keyF| == k * KEY_BLOCK_SIZE + keyBlockLen
    && keyF[k * KEY_BLOCK_SIZE..] == Records(all, starts[k], starts[k], n)
    && Blocks(all, starts, n, keyF, k)
  }

  /** The file with every block complete. */
  ghost predicate Closed(all: seq<KeyValue>, starts: seq<nat>, n: nat, keyF: Bytes) {
    && (starts == [] <==> n == 0) && (starts != [] ==> starts[0] == 0)
    && |keyF| == |starts| * KEY_BLOCK_SIZE
    && Blocks(all, starts, n, keyF, |starts|)
  }

  lemma BlocksStay(all: seq<KeyValue>, starts: seq<nat>, n: nat, keyF: Bytes, k: nat, more: Bytes)
    requires k <= |starts| && Blocks(all, starts, n, keyF, k)
    ensures Blocks(all, starts, n, keyF + more, k)
  {
    hide Block, Fits;
    forall b | 0 <= b < k
      ensures BlockAt(keyF + more, all, b, starts[b], End(starts, n, b))
    {
      assert BlockAt(keyF, all, b, starts[b], End(starts, n, b));
      assert (keyF + more)[b * KEY_BLOCK_SIZE..(b + 1) * KEY_BLOCK_SIZE] ==
             keyF[b * KEY_BLOCK_SIZE..(b + 1) * KEY_BLOCK_SIZE];
    }
  }

  lemma SealedBlock(keyF: Bytes, k: nat, rs: Bytes, more: Bytes)
    requires |keyF| == k * KEY_BLOCK_SIZE + |rs| && keyF[k * KEY_BLOCK_SIZE..] == rs && |rs| + |more| == KEY_BLOCK_SIZE
    ensures |keyF + more| == (k + 1) * KEY_BLOCK_SIZE
    ensures (keyF + more)[k * KEY_BLOCK_SIZE..(k + 1) * KEY_BLOCK_SIZE] == rs + more
  {
    assert (keyF + more)[k * KEY_BLOCK_SIZE..] == keyF[k * KEY_BLOCK_SIZE..] + more;
    assert (keyF + more)[k * KEY_BLOCK_SIZE..(k + 1) * KEY_BLOCK_SIZE] == (keyF + more)[k * KEY_BLOCK_SIZE..];
  }

  lemma TailGrows(keyF: Bytes, at: nat, r: Bytes)
    requires at <= |keyF|
    ensures (keyF + r)[at..] == keyF[at..] + r
  {
  }

  lemma Close(all: seq<KeyValue>, starts: seq<nat>, n: nat, keyF: Bytes, keyBlockLen: nat)
    requires Open(all, starts, n, keyF, keyBlockLen)
    ensures keyBlockLen + 2 <= KEY_BLOCK_SIZE
    ensures Closed(all, starts, n, keyF + Trailer(keyBlockLen))
  {
    hide Records, Trailer, Record;
    var k := |starts| - 1;
    var rs := Records(all, starts[k], starts[k], n);
    assert keyBlockLen == |rs|;
    var more := Trailer(keyBlockLen);
    TrailerLength(keyBlockLen);
    BlocksStay(all, starts, n, keyF, k, more);
    SealedBlock(keyF, k, rs, more);
    assert BlockAt(keyF + more, all, k, starts[k], n);
    hide BlockAt, Fits;
    forall b | 0 <= b < |starts|
      ensures BlockAt(keyF + more, all, b, starts[b], End(starts, n, b))
    {
    }
  }

  lemma TrailerLength(used: nat)
    requires used + 2 <= KEY_BLOCK_SIZE
    ensures |Trailer(used)| == KEY_BLOCK_SIZE - used
  {
  }

  /** A record that fits goes to the open block. */
  lemma Append(all: seq<KeyValue>, starts: seq<nat>, n: nat, keyF: Bytes, keyBlockLen: nat)
    requires Open(all, starts, n, keyF, keyBlockLen) && n < |all|
    requires keyBlockLen + 14 + |all[n].key| < KEY_BLOCK_SIZE - 2
    ensures var r := Record(all, starts[|starts| - 1], n); Open(all, starts, n + 1, keyF + r, keyBlockLen + |r|)
  {
    hide Record, BlockAt;
    var k := |starts| - 1;
    var r := Record(all, starts[k], n);
    BlocksStay(all, starts, n, keyF, k, r);
    RecordsAppend(all, starts[k], starts[k], n);
    RecordIsShort(all, starts[k], n);
    hide Records;
    TailGrows(keyF, k * KEY_BLOCK_SIZE, r);
    assert |keyF[k * KEY_BLOCK_SIZE..]| == keyBlockLen;
    forall b | 0 <= b < k
      ensures BlockAt(keyF + r, all, b, starts[b], End(starts, n + 1, b))
    {
      assert End(starts, n, b) == End(starts, n + 1, b);
    }
  }

  /** The first record of a block. */
  lemma Begin(all: seq<KeyValue>, starts: seq<nat>, n: nat, keyF: Bytes)
    requires Closed(all, starts, n, keyF) && n < |all| && |all[n].key| <= MAX_WRITABLE_KEY
    ensures var r := Record(all, n, n); Open(all, starts + [n], n + 1, keyF + r, |r|)
  {
    hide Record, BlockAt;
    var r := Record(all, n, n);
    BlocksStay(all, starts, n, keyF, |starts|, r);
    RecordIsShort(all, n, n);
    assert Records(all, n, n + 1, n + 1) == [];
    assert Records(all, n, n, n + 1) == r + Records(all, n, n + 1, n + 1);
    hide Records;
    TailGrows(keyF, |starts| * KEY_BLOCK_SIZE, r);
    forall b | 0 <= b < |starts|
      ensures BlockAt(keyF + r, all, b, (starts + [n])[b], End(starts + [n], n + 1, b))
    {
      assert End(starts, n, b) == End(starts + [n], n + 1, b);
    }
  }

  lemma RecordIsShort(all: seq<KeyValue>, start: nat, n: nat)
    requires n < |all|
    ensures |Record(all, start, n)| <= 14 + |all[n].key|
  {
    hide Shared;
  }

  lemma IndexGrows(es: seq<KeyValue>, starts: seq<nat>, n: nat)
    requires n < |es| && forall b :: 0 <= b < |starts| ==> starts[b] < |es|
    ensures IndexOf(es, starts + [n]) ==
            IndexOf(es, starts) + if |starts| % KEY_INDEX_INTERVAL == 0 then [es[n].key] else []
  {
    var more := starts + [n];
    assert forall b :: 0 <= b < |starts| ==> more[b] == starts[b];
  }

  lemma {:induction false} KeptBounded(input: seq<KeyValue>, purgeDeleted: bool, maxKey: nat)
    requires Bounded(input, maxKey)
    ensures Bounded(Kept(input, purgeDeleted), maxKey)
  {
    KeptFrom(input, purgeDeleted);
    KeptData(input, purgeDeleted);
  }

  lemma {:induction false} KeptFrom(input: seq<KeyValue>, purgeDeleted: bool)
    requires Ascending(input)
    ensures forall kv :: kv in Kept(input, purgeDeleted) <==> kv in input && !(purgeDeleted && kv.value == [])
    ensures Ascending(Kept(input, purgeDeleted))
  {
    if input != [] {
      KeptFrom(input[1..], purgeDeleted);
      var rest := Kept(input[1..], purgeDeleted);
      forall i | 0 <= i < |rest|
        ensures Less(input[0].key, rest[i].key)
      {
        assert rest[i] in rest;
      }
    }
  }

  lemma {:induction false} DataOffFront(es: seq<KeyValue>, i: nat)
    requires 0 < i <= |es|
    ensures DataOff(es, i) == |es[0].value| + DataOff(es[1..], i - 1)
  {
    if i > 1 {
      DataOffFront(es, i - 1);
    }
  }

  lemma {:induction false} KeptData(input: seq<KeyValue>, purgeDeleted: bool)
    ensures var k := Kept(input, purgeDeleted); DataOff(k, |k|) == DataOff(input, |input|)
  {
    if input != [] {
      KeptData(input[1..], purgeDeleted);
      DataOffFront(input, |input|);
      var k := Kept(input, purgeDeleted);
      if !(purgeDeleted && input[0].value == []) {
        DataOffFront(k, |k|);
        assert k[1..] == Kept(input[1..], purgeDeleted);
      }
    }
  }

  /** The end marker and the zeros that fill the block. */
  method EndBlock(ghost all: seq<KeyValue>, ghost starts: seq<nat>, ghost n: nat, keyF: Bytes, keyBlockLen: nat)
    returns (keyF': Bytes)
    requires Open(all, starts, n, keyF, keyBlockLen)
    ensures Closed(all, starts, n, keyF')
  {
    Close(all, starts, n, keyF, keyBlockLen);
    hide *;
    var marker := Write16(END_OF_BLOCK);
    var trailer := marker + Zeros(KEY_BLOCK_SIZE - (keyBlockLen + 2));
    assert trailer == Trailer(keyBlockLen) by { TrailerIs(keyBlockLen); }
    keyF' := keyF + trailer;
  }

  lemma FirstBlockPacked(all: seq<KeyValue>, n: nat)
    requires n < |all|
    ensures Packed(all, [n], n + 1)
  {
  }

  lemma NothingClosed(all: seq<KeyValue>)
    ensures Closed(all, [], 0, [])
  {
  }

  lemma TrailerIs(used: nat)
    requires used + 2 <= KEY_BLOCK_SIZE
    ensures Trailer(used) == Write16(END_OF_BLOCK) + Zeros(KEY_BLOCK_SIZE - (used + 2))
  {
  }

  /** One record at the end of the open block, or the first one of a new block. */
  method WriteRecord(ghost all: seq<KeyValue>, ghost starts: seq<nat>, ghost n: nat,
                     keyF: Bytes, keyBlockLen: nat, prevKey: Bytes, kv: KeyValue, dataOffset: nat)
    returns (keyF': Bytes, keyBlockLen': nat)
    requires n < |all| && all[n] == kv && |kv.key| <= MAX_WRITABLE_KEY && starts != [] && dataOffset == DataOff(all, n)
    requires prevKey == PrevKey(all, starts[|starts| - 1], n)
    requires if keyBlockLen == 0 then starts[|starts| - 1] == n && Closed(all, starts[..|starts| - 1], n, keyF)
             else Open(all, starts, n, keyF, keyBlockLen) && keyBlockLen + 2 + |kv.key| + 8 + 4 < KEY_BLOCK_SIZE - 2
    ensures Open(all, starts, n + 1, keyF', keyBlockLen') && keyBlockLen' > 0
  {
    hide Closed, Open, EncodeKey, DataOff, PrevKey, Write16, Write32, Write64;
    ghost var start := starts[|starts| - 1];
    if keyBlockLen == 0 {
      Begin(all, starts[..|starts| - 1], n, keyF);
      assert starts[..|starts| - 1] + [n] == starts;
    } else {
      Append(all, starts, n, keyF, keyBlockLen);
    }
    var dk := Encode(kv.key, prevKey);
    var record := Write16(dk.keylen) + dk.compressedKey + Write64(dataOffset) + Write32(|kv.value|);
    assert record == Record(all, start, n);
    keyF' := keyF + record;
    keyBlockLen' := keyBlockLen + (2 + |dk.compressedKey| + 8 + 4);
  }

  /** The two streams, the sparse index and the counters of the loop. */
  datatype Progress = Progress(
    keyF: Bytes, dataF: Bytes, keyIndex: seq<Bytes>,
    dataOffset: nat, keyBlockLen: nat, block: nat, prevKey: Bytes)

  /** Between entries: nothing written yet, or a block is open, and prevKey is the key of the entry before. */
  ghost predicate Written(all: seq<KeyValue>, starts: seq<nat>, n: nat, w: Progress) {
    && n <= |all|
    && (n == 0 ==> starts == [] && w.keyF == [] && w.keyBlockLen == 0 && w.prevKey == [])
    && (n > 0 ==> 0 < w.keyBlockLen && Open(all, starts, n, w.keyF, w.keyBlockLen) && w.prevKey == all[n - 1].key)
    && (n > 0 ==> starts != [] && starts[|starts| - 1] < n)
    && (forall b :: 0 <= b < |starts| ==> starts[b] < |all|)
    && w.dataF == DataBytes(all, n) && w.dataOffset == DataOff(all, n)
    && w.block == |starts| && w.keyIndex == IndexOf(all, starts) && Packed(all, starts, n)
  }

  /** The body of the loop, for an entry that is kept. */
  method WriteEntry(ghost all: seq<KeyValue>, ghost starts: seq<nat>, ghost n: nat, w: Progress, kv: KeyValue)
    returns (w': Progress, ghost starts': seq<nat>)
    requires Written(all, starts, n, w) && n < |all| && all[n] == kv && 1 <= |kv.key| <= MAX_WRITABLE_KEY
    ensures Written(all, starts', n + 1, w')
  {
    hide Open, Closed, IndexOf, Packed, Blocks, Fits, Record, Records;
    var Progress(keyF, dataF, keyIndex, dataOffset, keyBlockLen, block, prevKey) := w;
    starts' := starts;
    NothingClosed(all);
    FirstBlockPacked(all, n);
    dataF := dataF + kv.value;
    if keyBlockLen + 2 + |kv.key| + 8 + 4 >= KEY_BLOCK_SIZE - 2 {
      PackedBegins(all, starts, n, keyF, keyBlockLen);
      keyF := EndBlock(all, starts, n, keyF, keyBlockLen);
      keyBlockLen, prevKey := 0, [];
    } else if n > 0 {
      PackedGoesOn(all, starts, n, keyF, keyBlockLen);
    }
    if keyBlockLen == 0 {
      IndexGrows(all, starts, n);
      if block % KEY_INDEX_INTERVAL == 0 {
        keyIndex := keyIndex + [kv.key];
      }
      block, starts' := block + 1, starts + [n];
      assert starts == [] ==> starts' == [n];
      assert starts'[..|starts'| - 1] == starts;
    }
    keyF, keyBlockLen := WriteRecord(all, starts', n, keyF, keyBlockLen, prevKey, kv, dataOffset);
    prevKey := kv.key;
    dataOffset := dataOffset + |kv.value|;
    w' := Progress(keyF, dataF, keyIndex, dataOffset, keyBlockLen, block, prevKey);
  }

  lemma ClosedIsKeyFile(all: seq<KeyValue>, starts: seq<nat>, keyF: Bytes)
    requires Closed(all, starts, |all|, keyF)
    ensures IsKeyFile(keyF, Layout(all, starts))
  {
  }

  /** After the loop: the last block is closed. */
  method Finish(ghost all: seq<KeyValue>, ghost starts: seq<nat>, w: Progress) returns (keyF: Bytes)
    requires Written(all, starts, |all|, w)
    ensures IsKeyFile(keyF, Layout(all, starts))
  {
    NothingClosed(all);
    hide Open;
    keyF := w.keyF;
    if w.keyBlockLen > 0 && w.keyBlockLen < KEY_BLOCK_SIZE {
      keyF := EndBlock(all, starts, |all|, keyF, w.keyBlockLen);
    } else if |all| > 0 {
      OpenHasRoom(all, starts, |all|, keyF, w.keyBlockLen);
      assert false;
    }
    ClosedIsKeyFile(all, starts, keyF);
  }

  lemma OpenHasRoom(all: seq<KeyValue>, starts: seq<nat>, n: nat, keyF: Bytes, keyBlockLen: nat)
    requires Open(all, starts, n, keyF, keyBlockLen)
    ensures keyBlockLen + 2 < KEY_BLOCK_SIZE
  {
  }

  lemma StartWritten(all: seq<KeyValue>)
    ensures Written(all, [], 0, Progress([], [], [], 0, 0, 0, []))
  {
  }

  /** After i entries of the input, n of the kept ones have been written. */
  ghost predicate InStep(input: seq<KeyValue>, i: nat, all: seq<KeyValue>, n: nat, purgeDeleted: bool) {
    i <= |input| && n <= |all| && all[n..] == Kept(input[i..], purgeDeleted)
  }

  lemma InStepNext(input: seq<KeyValue>, i: nat, all: seq<KeyValue>, n: nat, purgeDeleted: bool)
    requires InStep(input, i, all, n, purgeDeleted) && i < |input|
    ensures if purgeDeleted && input[i].value == [] then InStep(input, i + 1, all, n, purgeDeleted)
            else n < |all| && all[n] == input[i] && InStep(input, i + 1, all, n + 1, purgeDeleted)
  {
    assert input[i..][1..] == input[i + 1..];
    if !(purgeDeleted && input[i].value == []) {
      var rest := Kept(input[i + 1..], purgeDeleted);
      assert all[n..] == [input[i]] + rest;
      hide Kept;
      assert all[n] == all[n..][0];
      assert all[n + 1..] == all[n..][1..];
    }
  }

  lemma InStepStarts(input: seq<KeyValue>, purgeDeleted: bool)
    ensures InStep(input, 0, Kept(input, purgeDeleted), 0, purgeDeleted)
  {
    assert input[0..] == input;
  }

  lemma KeyBounds(input: seq<KeyValue>)
    requires Writable(input)
    ensures forall j :: 0 <= j < |input| ==> input[j].key != [] && 1 <= |input[j].key| <= MAX_WRITABLE_KEY
  {
  }

  lemma InStepEnds(input: seq<KeyValue>, all: seq<KeyValue>, n: nat, purgeDeleted: bool)
    requires InStep(input, |input|, all, n, purgeDeleted)
    ensures n == |all|
  {
  }

  /** `input` is what the iterator delivers before its first empty key. */
  method WriteSegmentFiles(input: seq<KeyValue>, purgeDeleted: bool)
    returns (keyF: Bytes, dataF: Bytes, keyIndex: seq<Bytes>, ghost L: Layout)
    requires Writable(input)
    ensures L.entries == Kept(input, purgeDeleted) && Writable(L.entries) && (Storable(input) ==> Storable(L.entries))
    ensures IsKeyFile(keyF, L) && IsPacked(L) && |keyF| % 4096 == 0
    ensures dataF == DataBytes(L.entries, |L.entries|)
    ensures (forall b :: 0 <= b < |L.starts| ==> L.starts[b] < |L.entries|) && keyIndex == IndexOf(L.entries, L.starts)
    ensures |keyIndex| == (|L.starts| + 15) / 16
    ensures forall j {:trigger keyIndex[j]} :: 0 <= j < |keyIndex| ==> keyIndex[j] == L.entries[L.starts[16 * j]].key
    ensures FilesOf(Kept(input, purgeDeleted), keyF, dataF, keyIndex)
  {
    hide Packed, Written, InStep, Kept, Bounded, IsKeyFile, IndexOf, DataBytes, DataOff, Ascending, Less;
    KeptBounded(input, purgeDeleted, MAX_WRITABLE_KEY);
    if Storable(input) {
      KeptBounded(input, purgeDeleted, MAX_KEY_SIZE);
    }
    KeyBounds(input);
    ghost var all := Kept(input, purgeDeleted);
    ghost var starts: seq<nat> := [];
    ghost var n := 0;
    var w := Progress([], [], [], 0, 0, 0, []);
    StartWritten(all);
    InStepStarts(input, purgeDeleted);
    var i := 0;
    while true
      invariant i <= |input| && InStep(input, i, all, n, purgeDeleted) && Written(all, starts, n, w)
      decreases |input| - i
    {
      var kv := if i < |input| then input[i] else EMPTY;
      if kv.key == [] {
        break;
      }
      InStepNext(input, i, all, n, purgeDeleted);
      i := i + 1;
      if purgeDeleted && kv.value == [] {
        continue;
      }
      w, starts := WriteEntry(all, starts, n, w, kv);
      n := n + 1;
    }
    InStepEnds(input, all, n, purgeDeleted);
    keyF := Finish(all, starts, w);
    WrittenFiles(all, starts, w);
    dataF, keyIndex := w.dataF, w.keyIndex;
    L := Layout(all, starts);
    WholeBlocks(keyF, L);
    EverySixteenth(all, starts, keyIndex);
  }

  lemma EverySixteenth(es: seq<KeyValue>, starts: seq<nat>, index: seq<Bytes>)
    requires (forall b :: 0 <= b < |starts| ==> starts[b] < |es|) && index == IndexOf(es, starts)
    ensures |index| == (|starts| + 15) / 16
    ensures forall j {:trigger index[j]} :: 0 <= j < |index| ==> index[j] == es[starts[16 * j]].key
  {
  }

  lemma WholeBlocks(keyF: Bytes, L: Layout)
    requires IsKeyFile(keyF, L)
    ensures |keyF| % 4096 == 0
  {
  }

  lemma WrittenFiles(all: seq<KeyValue>, starts: seq<nat>, w: Progress)
    requires Written(all, starts, |all|, w)
    ensures forall b :: 0 <= b < |starts| ==> starts[b] < |all|
    ensures w.dataF == DataBytes(all, |all|) && w.keyIndex == IndexOf(all, starts) && Packed(all, starts, |all|)
  {
  }
}
