/**
 Point lookup in a segment on disk: the sparse index narrows the search to at most 17 blocks,
 binary search over the blocks' first keys picks one, and a scan of that block finds the record.
 */
module DiskSegments {
  import opened Bytes
  import opened KeyValues
  import opened LittleEndian
  import opened KeyFormat
  import opened KeyFile
  import opened Views
  import opened Listings

  /** The two files of a segment on disk and its index; none of it ever changes. */
  datatype DiskFiles = DiskFiles(lowerID: nat, upperID: nat, keyFile: Bytes, dataFile: Bytes, keyIndex: seq<Bytes>)

  /** keyBlocks: unsigned arithmetic, so an empty key file counts 2^52 blocks. */
  function KeyBlocks(keyFile: Bytes): nat {
    (|keyFile| - 1) % U64 / KEY_BLOCK_SIZE + 1
  }

  /** The files are those of the layout L. */
  ghost predicate Holds(ds: DiskFiles, L: Layout) {
    && Storable(L.entries) && IsKeyFile(ds.keyFile, L) && |ds.keyFile| < U64
    && ds.dataFile == DataBytes(L.entries, |L.entries|)
    && (forall b :: 0 <= b < |L.starts| ==> L.starts[b] < |L.entries|)
    && ds.keyIndex == IndexOf(L.entries, L.starts)
  }

  /** The first key of block b, read from the key file: it is never compressed. */
  function FirstKey(keyFile: Bytes, b: nat): Bytes
    requires b * KEY_BLOCK_SIZE + MAX_KEY_SIZE + 2 <= |keyFile|
  {
    var buffer := keyFile[b * KEY_BLOCK_SIZE..b * KEY_BLOCK_SIZE + MAX_KEY_SIZE + 2];
    var keylen := Read16(buffer, 0);
    if 2 + keylen <= |buffer| then buffer[2..2 + keylen] else []
  }

  lemma FrontOfSlice(s: Bytes, at: nat, n: nat, m: nat)
    requires n <= m && at + m <= |s|
    ensures s[at..at + n] == s[at..at + m][..n]
  {
  }

  lemma FirstKeyIs(keyFile: Bytes, L: Layout, b: nat)
    requires IsKeyFile(keyFile, L) && Storable(L.entries) && b < |L.starts|
    ensures L.starts[b] < |L.entries| && b * KEY_BLOCK_SIZE + MAX_KEY_SIZE + 2 <= |keyFile|
    ensures FirstKey(keyFile, b) == L.entries[L.starts[b]].key
  {
    hide Record, Records, Trailer, EncodeKey, DataOff, Less, Ascending;
    var es, s, e := L.entries, L.starts[b], End(L.starts, |L.entries|, b);
    assert BlockAt(keyFile, es, b, s, e);
    var rs := Records(es, s, s, e);
    var block := keyFile[b * KEY_BLOCK_SIZE..(b + 1) * KEY_BLOCK_SIZE];
    FirstRecord(es, s, e, Trailer(|rs|), block);
    var buffer := keyFile[b * KEY_BLOCK_SIZE..b * KEY_BLOCK_SIZE + MAX_KEY_SIZE + 2];
    FrontOfSlice(keyFile, b * KEY_BLOCK_SIZE, MAX_KEY_SIZE + 2, KEY_BLOCK_SIZE);
    assert buffer[2..2 + |es[s].key|] == block[2..2 + |es[s].key|];
  }

  lemma FirstRecord(es: seq<KeyValue>, s: nat, e: nat, tail: Bytes, block: Bytes)
    requires s < e <= |es| && Storable(es) && block == Records(es, s, s, e) + tail
    ensures 2 + |es[s].key| <= |block|
    ensures Read16(block, 0) == |es[s].key| && block[2..2 + |es[s].key|] == es[s].key
  {
    assert block[0..] == block;
    Peel(es, s, s, e, tail);
    LessIsStrictTotalOrder();
    DataOffBound(es, s);
    RecordLayout(es, s, s, block, 0, Records(es, s, s + 1, e) + tail);
    WholeHeader(es[s].key, []);
  }

  lemma Peel(es: seq<KeyValue>, s: nat, i: nat, e: nat, tail: Bytes)
    requires i < e <= |es|
    ensures Records(es, s, i, e) + tail == Record(es, s, i) + (Records(es, s, i + 1, e) + tail)
  {
    hide Record;
    Associate(Record(es, s, i), Records(es, s, i + 1, e), tail);
  }

  lemma {:induction false} DataOffBound(es: seq<KeyValue>, i: nat)
    requires i <= |es|
    ensures DataOff(es, i) <= DataOff(es, |es|)
    decreases |es| - i
  {
    if i < |es| {
      DataOffBound(es, i + 1);
    }
  }

  // ---- choosing the block ----

  /** std::upper_bound: the first position whose key is greater. */
  function UpperBound(index: seq<Bytes>, key: Bytes): (u: nat)
    ensures u <= |index|
    ensures forall j :: 0 <= j < u ==> !Less(key, index[j])
    ensures u < |index| ==> Less(key, index[u])
  {
    if index == [] || Less(key, index[0]) then 0 else 1 + UpperBound(index[1..], key)
  }

  /** The index entry the search starts from: the last one that is not greater, or the first. */
  function IndexPosition(index: seq<Bytes>, key: Bytes): nat {
    var itr := UpperBound(index, key);
    if itr != 0 then itr - 1 else itr
  }

  /** binarySearch0 */
  function BinarySearch0(keyFile: Bytes, lowBlock: nat, highBlock: nat, key: Bytes): nat
    requires lowBlock <= highBlock && (highBlock + 1) * KEY_BLOCK_SIZE <= |keyFile|
    decreases highBlock - lowBlock
  {
    if highBlock - lowBlock <= 1 then
      if Less(key, FirstKey(keyFile, highBlock)) then lowBlock else highBlock
    else
      var block := (highBlock - lowBlock) / 2 + lowBlock;
      if Less(key, FirstKey(keyFile, block)) then BinarySearch0(keyFile, lowBlock, block, key)
      else BinarySearch0(keyFile, block, highBlock, key)
  }

  ghost function FirstOf(L: Layout, b: nat): Bytes
    requires b < |L.starts| && L.starts[b] < |L.entries|
  {
    L.entries[L.starts[b]].key
  }

  /** Block b is the only one that can hold key: first(b) <= key < first(b + 1), open at both ends of `last`. */
  ghost predicate Candidate(L: Layout, b: nat, last: nat, key: Bytes)
    requires b <= last < |L.starts| && forall c :: 0 <= c < |L.starts| ==> L.starts[c] < |L.entries|
  {
    (b == 0 || !Less(key, FirstOf(L, b))) && (b == last || Less(key, FirstOf(L, b + 1)))
  }

  lemma {:induction false} BinarySearch0Finds(ds: DiskFiles, L: Layout, lowBlock: nat, highBlock: nat, key: Bytes)
    requires Holds(ds, L) && lowBlock <= highBlock < |L.starts|
    requires lowBlock == 0 || !Less(key, FirstOf(L, lowBlock))
    ensures (highBlock + 1) * KEY_BLOCK_SIZE <= |ds.keyFile|
    ensures var b := BinarySearch0(ds.keyFile, lowBlock, highBlock, key);
            lowBlock <= b <= highBlock && Candidate(L, b, highBlock, key)
    decreases highBlock - lowBlock
  {
    hide Less, FirstKey, IsKeyFile, Storable, IndexOf;
    assert (highBlock + 1) * KEY_BLOCK_SIZE <= |ds.keyFile| by { FileLength(ds, L); }
    if highBlock - lowBlock <= 1 {
      FirstKeyIs(ds.keyFile, L, highBlock);
    } else {
      var block := (highBlock - lowBlock) / 2 + lowBlock;
      FirstKeyIs(ds.keyFile, L, block);
      if Less(key, FirstKey(ds.keyFile, block)) {
        BinarySearch0Finds(ds, L, lowBlock, block, key);
      } else {
        BinarySearch0Finds(ds, L, block, highBlock, key);
      }
    }
  }

  lemma FileLength(ds: DiskFiles, L: Layout)
    requires Holds(ds, L)
    ensures |ds.keyFile| == |L.starts| * KEY_BLOCK_SIZE
    ensures L.starts != [] ==> KeyBlocks(ds.keyFile) == |L.starts|
  {
    hide Storable, BlockAt, IndexOf;
    if L.starts != [] {
      CountBlocks(|ds.keyFile|, |L.starts|);
    }
  }

  lemma CountBlocks(length: nat, n: nat)
    requires 0 < n && length == n * KEY_BLOCK_SIZE < U64
    ensures (length - 1) % U64 / KEY_BLOCK_SIZE + 1 == n
  {
    assert (length - 1) % U64 == length - 1;
    assert length - 1 == (n - 1) * KEY_BLOCK_SIZE + (KEY_BLOCK_SIZE - 1);
  }

  /** binarySearch up to the scan: the block that is scanned. */
  function BlockToScan(ds: DiskFiles, key: Bytes): (b: nat)
    requires ds.keyIndex != [] && (|ds.keyIndex| - 1) * KEY_INDEX_INTERVAL < KeyBlocks(ds.keyFile)
    requires KeyBlocks(ds.keyFile) * KEY_BLOCK_SIZE <= |ds.keyFile|
  {
    var lowBlock := IndexPosition(ds.keyIndex, key) * KEY_INDEX_INTERVAL;
    var highBlock := lowBlock + KEY_INDEX_INTERVAL;
    var blocks := KeyBlocks(ds.keyFile);
    BinarySearch0(ds.keyFile, lowBlock, if highBlock >= blocks then blocks - 1 else highBlock, key)
  }

  lemma IndexShape(ds: DiskFiles, L: Layout)
    requires Holds(ds, L) && L.starts != []
    ensures ds.keyIndex != [] &&
            (|ds.keyIndex| - 1) * KEY_INDEX_INTERVAL < |L.starts| <= |ds.keyIndex| * KEY_INDEX_INTERVAL
    ensures forall j :: 0 <= j < |ds.keyIndex| ==> ds.keyIndex[j] == FirstOf(L, j * KEY_INDEX_INTERVAL)
    ensures KeyBlocks(ds.keyFile) == |L.starts| && |ds.keyFile| == |L.starts| * KEY_BLOCK_SIZE
  {
    FileLength(ds, L);
    hide Storable, IsKeyFile, KeyBlocks;
  }

  lemma FirstAscends(L: Layout, b: nat, c: nat)
    requires Ascending(L.entries) && Starts(L) && b < c < |L.starts|
    ensures Less(FirstOf(L, b), FirstOf(L, c))
  {
    hide Less;
    StartsAscend(L, b, c);
  }

  /** Blocks are non-empty and cover the entries in order. */
  ghost predicate Starts(L: Layout) {
    && (forall b :: 0 <= b < |L.starts| ==> L.starts[b] < |L.entries|)
    && (forall b {:trigger End(L.starts, |L.entries|, b)} :: 0 <= b < |L.starts| ==>
          L.starts[b] < End(L.starts, |L.entries|, b) <= |L.entries|)
  }

  lemma {:induction false} StartsAscend(L: Layout, b: nat, c: nat)
    requires Starts(L) && b < c < |L.starts|
    ensures L.starts[b] < L.starts[c] < |L.entries|
    decreases c - b
  {
    if b + 1 < c {
      StartsAscend(L, b, c - 1);
    }
    hide Ascending, Storable;
    assert L.starts[c - 1] < End(L.starts, |L.entries|, c - 1);
    assert L.starts[c] < End(L.starts, |L.entries|, c);
  }

  lemma HoldsStarts(ds: DiskFiles, L: Layout)
    requires Holds(ds, L)
    ensures Starts(L)
    ensures (L.starts == [] <==> L.entries == []) && (L.starts != [] ==> L.starts[0] == 0)
  {
    hide Storable, Block, Records, IndexOf;
    forall b | 0 <= b < |L.starts|
      ensures L.starts[b] < End(L.starts, |L.entries|, b) <= |L.entries|
    {
      assert BlockAt(ds.keyFile, L.entries, b, L.starts[b], End(L.starts, |L.entries|, b));
    }
  }

  lemma NextIndexKeyIsGreater(index: seq<Bytes>, L: Layout, key: Bytes, p: nat)
    requires Ascending(L.entries) && Starts(L)
    requires forall j :: 0 <= j < |index| ==>
             j * KEY_INDEX_INTERVAL < |L.starts| && index[j] == FirstOf(L, j * KEY_INDEX_INTERVAL)
    requires p == IndexPosition(index, key) && p + 1 < |index|
    ensures Less(key, FirstOf(L, (p + 1) * KEY_INDEX_INTERVAL))
  {
    hide Less, Ascending, UpperBound;
    if UpperBound(index, key) == 0 {
      assert index[0] == FirstOf(L, 0) && index[1] == FirstOf(L, KEY_INDEX_INTERVAL);
      FirstAscends(L, 0, KEY_INDEX_INTERVAL);
      LessTransitive(key, FirstOf(L, 0), FirstOf(L, KEY_INDEX_INTERVAL));
    }
  }

  lemma HoldsAscending(ds: DiskFiles, L: Layout)
    requires Holds(ds, L)
    ensures Ascending(L.entries)
  {
  }

  lemma LowBlockIsLow(ds: DiskFiles, L: Layout, key: Bytes)
    requires Holds(ds, L) && L.starts != []
    ensures var lowBlock := IndexPosition(ds.keyIndex, key) * KEY_INDEX_INTERVAL;
            lowBlock < |L.starts| && (lowBlock == 0 || !Less(key, FirstOf(L, lowBlock)))
  {
    IndexShape(ds, L);
    hide Less, Holds, UpperBound;
    var p := IndexPosition(ds.keyIndex, key);
    assert ds.keyIndex[p] == FirstOf(L, p * KEY_INDEX_INTERVAL);
  }

  lemma HighBlockIsHigh(ds: DiskFiles, L: Layout, key: Bytes)
    requires Holds(ds, L) && L.starts != []
    requires (IndexPosition(ds.keyIndex, key) + 1) * KEY_INDEX_INTERVAL < |L.starts|
    ensures Less(key, FirstOf(L, (IndexPosition(ds.keyIndex, key) + 1) * KEY_INDEX_INTERVAL))
  {
    IndexShape(ds, L);
    HoldsStarts(ds, L);
    HoldsAscending(ds, L);
    hide Less, Holds, Ascending, Starts, IndexPosition;
    NextIndexKeyIsGreater(ds.keyIndex, L, key, IndexPosition(ds.keyIndex, key));
  }

  /** A key that is present can only be in the block that is scanned. */
  lemma BlockToScanIsCandidate(ds: DiskFiles, L: Layout, key: Bytes)
    requires Holds(ds, L) && L.starts != []
    ensures ds.keyIndex != [] && (|ds.keyIndex| - 1) * KEY_INDEX_INTERVAL < KeyBlocks(ds.keyFile)
    ensures KeyBlocks(ds.keyFile) * KEY_BLOCK_SIZE <= |ds.keyFile|
    ensures var b := BlockToScan(ds, key); b < |L.starts| && Candidate(L, b, |L.starts| - 1, key)
  {
    hide KeyBlocks, FirstKey, Less, IsKeyFile, Storable, IndexOf, IndexPosition;
    IndexShape(ds, L);
    LowBlockIsLow(ds, L, key);
    var lowBlock := IndexPosition(ds.keyIndex, key) * KEY_INDEX_INTERVAL;
    var highBlock := lowBlock + KEY_INDEX_INTERVAL;
    if highBlock >= |L.starts| {
      BinarySearch0Finds(ds, L, lowBlock, |L.starts| - 1, key);
    } else {
      HighBlockIsHigh(ds, L, key);
      BinarySearch0Finds(ds, L, lowBlock, highBlock, key);
    }
  }

  // ---- scanning one block ----

  datatype ScanResult = At(offset: nat, length: nat) | NotFound | BufferOverrun

  /** memcpy into a fixed buffer. */
  function Memcpy(dst: Bytes, at: nat, src: Bytes): (r: Bytes)
    requires at + |src| <= |dst|
    ensures |r| == |dst|
  {
    dst[..at] + src + dst[at + |src|..]
  }

  /** How many bytes of records a block holds, and what follows them. */
  ghost function TrailerOf(es: seq<KeyValue>, s: nat, e: nat): Bytes
    requires Fits(es, s, e)
  {
    Trailer(|Records(es, s, s, e)|)
  }

  /** The cursor stands on record j of a block (or, when j is the end, on its end marker). */
  ghost predicate OnRecord(es: seq<KeyValue>, s: nat, e: nat, buffer: Bytes, index: nat, j: nat) {
    && Fits(es, s, e) && s <= j <= e && index <= |buffer| == KEY_BLOCK_SIZE
    && buffer[index..] == Records(es, s, j, e) + TrailerOf(es, s, e)
  }

  lemma OnEnd(es: seq<KeyValue>, s: nat, e: nat, buffer: Bytes, index: nat)
    requires OnRecord(es, s, e, buffer, index, e)
    ensures index + 2 <= KEY_BLOCK_SIZE && Read16(buffer, index) == END_OF_BLOCK
  {
    var t := TrailerOf(es, s, e);
    assert Records(es, s, e, e) + t == t;
    hide Records;
    assert buffer[index..index + 2] == t[..2] == Write16(END_OF_BLOCK);
    RoundTrip16(END_OF_BLOCK, buffer, index);
  }

  /** Everything a reader takes from record j, and where the next record starts. */
  lemma OnNext(es: seq<KeyValue>, s: nat, e: nat, buffer: Bytes, index: nat, j: nat)
    requires Storable(es) && OnRecord(es, s, e, buffer, index, j) && j < e
    ensures var dk := EncodeKey(es[j].key, PrevKey(es, s, j)); var end := index + 2 + |dk.compressedKey|;
            && end + 12 <= KEY_BLOCK_SIZE
            && Read16(buffer, index) == dk.keylen && dk.keylen != END_OF_BLOCK
            && buffer[index + 2..end] == dk.compressedKey
            && Read64(buffer, end) == DataOff(es, j) < 0x8000_0000_0000_0000
            && Read32(buffer, end + 8) == |es[j].value|
            && OnRecord(es, s, e, buffer, end + 12, j + 1)
            && DecodeKeyLen(dk.keylen) == Decoded(|es[j].key| - |dk.compressedKey|, |dk.compressedKey|)
            && |es[j].key| - |dk.compressedKey| <= |PrevKey(es, s, j)|
            && DecodeKey(dk.compressedKey, PrevKey(es, s, j), |es[j].key| - |dk.compressedKey|) == es[j].key
  {
    PrevIsLess(es, s, j);
    DataOffBound(es, j);
    hide Record, Less, DataOff, EncodeKey, Read16, Read32, Read64, Trailer, DecodeKeyLen;
    var t := TrailerOf(es, s, e);
    Peel(es, s, j, e, t);
    hide Records;
    RecordLayout(es, s, j, buffer, index, Records(es, s, j + 1, e) + t);
    KeyRoundTrip(es[j].key, PrevKey(es, s, j));
  }

  lemma PrevIsLess(es: seq<KeyValue>, s: nat, j: nat)
    requires Storable(es) && j < |es|
    ensures Less(PrevKey(es, s, j), es[j].key)
  {
    LessIsStrictTotalOrder();
  }

  /** The cursor at the start of block b of the key file. */
  lemma OnFirst(keyFile: Bytes, L: Layout, b: nat)
    requires IsKeyFile(keyFile, L) && b < |L.starts|
    ensures (b + 1) * KEY_BLOCK_SIZE <= |keyFile| && L.starts[b] < End(L.starts, |L.entries|, b) <= |L.entries|
    ensures var buffer := keyFile[b * KEY_BLOCK_SIZE..(b + 1) * KEY_BLOCK_SIZE];
            OnRecord(L.entries, L.starts[b], End(L.starts, |L.entries|, b), buffer, 0, L.starts[b])
  {
    hide Records, Trailer;
    assert BlockAt(keyFile, L.entries, b, L.starts[b], End(L.starts, |L.entries|, b));
    var buffer := keyFile[b * KEY_BLOCK_SIZE..(b + 1) * KEY_BLOCK_SIZE];
    assert buffer[0..] == buffer;
  }

  /** What the scan of the records s..e must answer. */
  ghost predicate ScanAnswer(es: seq<KeyValue>, s: nat, e: nat, key: Bytes, r: ScanResult)
    requires s <= e <= |es|
  {
    match r
    case At(offset, length) =>
      exists j :: s <= j < e && es[j].key == key && offset == DataOff(es, j) && length == |es[j].value|
    case NotFound =>
      forall j :: s <= j < e ==> es[j].key != key
    case BufferOverrun => false
  }

  /** scanBlock; tmpKey always holds the previous key. */
  method ScanBlock(keyFile: Bytes, block: nat, key: Bytes, ghost L: Layout) returns (r: ScanResult)
    requires IsKeyFile(keyFile, L) && Storable(L.entries) && block < |L.starts|
    ensures L.starts[block] < End(L.starts, |L.entries|, block) <= |L.entries|
    ensures ScanAnswer(L.entries, L.starts[block], End(L.starts, |L.entries|, block), key, r)
  {
    hide Less, IsKeyFile, Storable, EncodeKey, OnRecord, CompareTo, Ascending, Memcpy, DataOff, Read16, Read32, Read64;
    ghost var es, s, e := L.entries, L.starts[block], End(L.starts, |L.entries|, block);
    OnFirst(keyFile, L, block);
    var buffer := keyFile[block * KEY_BLOCK_SIZE..(block + 1) * KEY_BLOCK_SIZE];
    var tmpKey: Bytes := seq(MAX_KEY_SIZE, _ => 0);
    var index := 0;
    ghost var j := s;
    while true
      invariant s <= j <= e && OnRecord(es, s, e, buffer, index, j)
      invariant |tmpKey| == MAX_KEY_SIZE && |PrevKey(es, s, j)| <= MAX_KEY_SIZE
      invariant tmpKey[..|PrevKey(es, s, j)|] == PrevKey(es, s, j)
      invariant forall i :: s <= i < j ==> Less(es[i].key, key)
      decreases e - j
    {
      if j == e {
        OnEnd(es, s, e, buffer, index);
      } else {
        OnNext(es, s, e, buffer, index, j);
      }
      if index + 2 > KEY_BLOCK_SIZE {
        return BufferOverrun;
      }
      var keylen := Read16(buffer, index);
      var compressedLen, prefixLen := keylen, 0;
      if keylen == END_OF_BLOCK {
        AllBelow(es, s, e, key);
        return NotFound;
      }
      index := index + 2;
      if keylen >= COMPRESSED_BIT {
        prefixLen, compressedLen := (keylen / 256) % 128, keylen % 256;
      }
      var endOfKey := index + compressedLen;
      if endOfKey > KEY_BLOCK_SIZE {
        return BufferOverrun;
      }
      NextCandidate(es, s, j, tmpKey, buffer[index..endOfKey], prefixLen);
      tmpKey := Memcpy(tmpKey, prefixLen, buffer[index..endOfKey]);
      var candidate := tmpKey[..prefixLen + compressedLen];
      assert candidate == es[j].key;
      CompareToSigns(candidate, key);
      if CompareTo(candidate, key) == 0 {
        return At(Read64(buffer, endOfKey), Read32(buffer, endOfKey + 8));
      }
      if !Less(candidate, key) {
        AllAbove(es, s, j, e, key);
        return NotFound;
      }
      index := endOfKey + 12;
      j := j + 1;
    }
  }

  lemma AllBelow(es: seq<KeyValue>, s: nat, e: nat, key: Bytes)
    requires s <= e <= |es| && forall i :: s <= i < e ==> Less(es[i].key, key)
    ensures forall i :: s <= i < e ==> es[i].key != key
  {
    LessIsStrictTotalOrder();
    hide Less;
  }

  lemma AllAbove(es: seq<KeyValue>, s: nat, j: nat, e: nat, key: Bytes)
    requires Storable(es) && s <= j < e <= |es| && forall i :: s <= i < j ==> Less(es[i].key, key)
    requires !Less(es[j].key, key) && es[j].key != key
    ensures forall i :: s <= i < e ==> es[i].key != key
  {
    LessIsStrictTotalOrder();
    hide Less;
  }

  /** Replacing the suffix of the buffer that holds the previous key yields the next key, within 1000 bytes. */
  lemma NextCandidate(es: seq<KeyValue>, s: nat, j: nat, tmpKey: Bytes, suffix: Bytes, prefixLen: nat)
    requires Storable(es) && j < |es| && |tmpKey| == MAX_KEY_SIZE
    requires |PrevKey(es, s, j)| <= MAX_KEY_SIZE && tmpKey[..|PrevKey(es, s, j)|] == PrevKey(es, s, j)
    requires prefixLen <= |PrevKey(es, s, j)| && DecodeKey(suffix, PrevKey(es, s, j), prefixLen) == es[j].key
    ensures prefixLen + |suffix| <= MAX_KEY_SIZE
    ensures Memcpy(tmpKey, prefixLen, suffix)[..prefixLen + |suffix|] == es[j].key
    ensures prefixLen + |suffix| == |es[j].key| <= MAX_KEY_SIZE
  {
    hide Less, PrevKey, Ascending, DataOff;
    assert tmpKey[..prefixLen] == tmpKey[..|PrevKey(es, s, j)|][..prefixLen];
  }

  // ---- get ----

  /**
   DiskSegment::get: the stored value, or empty for an absent or removed key. A key file without a single
   block was never mapped; the block count then comes out as 2^52, and the first readAt goes through a null pointer.
   */
  method Get(ds: DiskFiles, key: Bytes, ghost L: Layout) returns (r: Fetched)
    requires Holds(ds, L)
    ensures r == if L.entries == [] then UnmappedRead else Value(ValueIn(MapOf(L.entries), key))
  {
    hide IsKeyFile, BlockToScan, IndexOf, Candidate, Storable;
    EmptyFile(ds, L);
    if |ds.keyFile| == 0 {
      return UnmappedRead;
    }
    HoldsStarts(ds, L);
    BlockToScanIsCandidate(ds, L, key);
    var block := BlockToScan(ds, key);
    var found := ScanBlock(ds.keyFile, block, key, L);
    OnlyCandidate(ds, L, block, key);
    HoldsAscending(ds, L);
    assert ds.dataFile == DataBytes(L.entries, |L.entries|);
    hide *;
    AnswerIsValue(L.entries, ds.dataFile, L.starts[block], End(L.starts, |L.entries|, block), key, found);
    match found
    case At(offset, length) =>
      return Value(if length == 0 then [] else ds.dataFile[offset..offset + length]);
    case NotFound =>
      return Value([]);
  }

  lemma EmptyFile(ds: DiskFiles, L: Layout)
    requires Holds(ds, L)
    ensures |ds.keyFile| == 0 <==> L.entries == []
  {
    hide Storable, BlockAt, IndexOf;
  }

  lemma AnswerIsValue(es: seq<KeyValue>, dataFile: Bytes, s: nat, e: nat, key: Bytes, r: ScanResult)
    requires Ascending(es) && dataFile == DataBytes(es, |es|) && s <= e <= |es|
    requires forall j :: 0 <= j < |es| && es[j].key == key ==> s <= j < e
    requires ScanAnswer(es, s, e, key, r)
    ensures !r.BufferOverrun?
    ensures r.At? ==> r.offset + r.length <= |dataFile| && key in MapOf(es)
    ensures r.At? ==> ValueIn(MapOf(es), key) == dataFile[r.offset..r.offset + r.length]
    ensures r.NotFound? ==> ValueIn(MapOf(es), key) == []
  {
    hide Less, Ascending, DataBytes, DataOff, MapOf;
    match r
    case At(offset, length) =>
      var j :| s <= j < e && es[j].key == key && offset == DataOff(es, j) && length == |es[j].value|;
      MapHas(es, j);
      ValueAt(es, j, |es|);
    case NotFound =>
      MapLacks(es, key);
  }

  lemma MapHas(es: seq<KeyValue>, j: nat)
    requires Ascending(es) && j < |es|
    ensures es[j].key in MapOf(es) && MapOf(es)[es[j].key] == es[j].value
  {
    MapOfAscending(es);
  }

  lemma MapLacks(es: seq<KeyValue>, key: Bytes)
    requires Ascending(es) && forall j :: 0 <= j < |es| ==> es[j].key != key
    ensures key !in MapOf(es)
  {
    MapOfAscending(es);
  }

  /** Keys outside the candidate block differ from the key that is sought. */
  lemma OnlyCandidate(ds: DiskFiles, L: Layout, b: nat, key: Bytes)
    requires Holds(ds, L) && b < |L.starts| && Candidate(L, b, |L.starts| - 1, key)
    ensures L.starts[b] < End(L.starts, |L.entries|, b) <= |L.entries|
    ensures forall j :: 0 <= j < |L.entries| && L.entries[j].key == key ==>
            L.starts[b] <= j < End(L.starts, |L.entries|, b)
  {
    HoldsStarts(ds, L);
    HoldsAscending(ds, L);
    hide Less, Holds, Ascending;
    forall j | 0 <= j < |L.entries| && L.entries[j].key == key
      ensures L.starts[b] <= j < End(L.starts, |L.entries|, b)
    {
      if j < L.starts[b] {
        KeyBelow(L, j, b);
      } else if b + 1 < |L.starts| && L.starts[b + 1] <= j {
        KeyNotBelow(L, b + 1, j);
      }
    }
  }

  lemma KeyBelow(L: Layout, j: nat, b: nat)
    requires Ascending(L.entries) && Starts(L) && b < |L.starts| && j < L.starts[b]
    ensures Less(L.entries[j].key, FirstOf(L, b))
  {
    hide Less;
  }

  lemma KeyNotBelow(L: Layout, b: nat, j: nat)
    requires Ascending(L.entries) && Starts(L) && b < |L.starts| && L.starts[b] <= j < |L.entries|
    ensures !Less(L.entries[j].key, FirstOf(L, b))
  {
    LessIsStrictTotalOrder();
    hide Less;
  }

  lemma {:induction false} ValueAt(es: seq<KeyValue>, j: nat, n: nat)
    requires j < n <= |es|
    ensures |DataBytes(es, n)| == DataOff(es, n) >= DataOff(es, j) + |es[j].value|
    ensures DataBytes(es, n)[DataOff(es, j)..DataOff(es, j) + |es[j].value|] == es[j].value
    decreases n
  {
    if j + 1 < n {
      ValueAt(es, j, n - 1);
      var d, more := DataBytes(es, n - 1), es[n - 1].value;
      var lo, hi := DataOff(es, j), DataOff(es, j) + |es[j].value|;
      assert (d + more)[lo..hi] == d[lo..hi];
    } else {
      DataLength(es, j);
    }
  }

  lemma {:induction false} DataLength(es: seq<KeyValue>, n: nat)
    requires n <= |es|
    ensures |DataBytes(es, n)| == DataOff(es, n)
  {
    if n > 0 {
      DataLength(es, n - 1);
    }
  }

  // ---- the sparse index, and opening a segment ----

  /** loadKeyIndex: the index rebuilt from the file is the one the writer built. */
  method LoadKeyIndex(keyFile: Bytes, keyBlocks: nat, ghost L: Layout) returns (index: seq<Bytes>)
    requires IsKeyFile(keyFile, L) && Storable(L.entries) && |keyFile| < U64 && keyBlocks == KeyBlocks(keyFile)
    ensures (forall b :: 0 <= b < |L.starts| ==> L.starts[b] < |L.entries|) && index == IndexOf(L.entries, L.starts)
  {
    BlockStarts(keyFile, L);
    index := [];
    if |keyFile| == 0 {
      return;
    }
    CountBlocks(|keyFile|, |L.starts|);
    var block := 0;
    while block < keyBlocks
      invariant block == |index| * KEY_INDEX_INTERVAL
      invariant forall j :: 0 <= j < |index| ==>
                j * KEY_INDEX_INTERVAL < |L.starts| && index[j] == FirstOf(L, j * KEY_INDEX_INTERVAL)
      invariant |index| <= (|L.starts| + KEY_INDEX_INTERVAL - 1) / KEY_INDEX_INTERVAL
    {
      hide IsKeyFile, Storable, Read16;
      FirstOfBlock(keyFile, L, block);
      var buffer := keyFile[block * KEY_BLOCK_SIZE..(block + 1) * KEY_BLOCK_SIZE];
      var keylen := Read16(buffer, 0);
      if keylen == END_OF_BLOCK {
        break;
      }
      index := index + [buffer[2..2 + keylen]];
      block := block + KEY_INDEX_INTERVAL;
    }
  }

  lemma BlockStarts(keyFile: Bytes, L: Layout)
    requires IsKeyFile(keyFile, L)
    ensures forall b :: 0 <= b < |L.starts| ==> L.starts[b] < |L.entries|
  {
    hide Block, Records;
    forall b | 0 <= b < |L.starts|
      ensures L.starts[b] < |L.entries|
    {
      assert BlockAt(keyFile, L.entries, b, L.starts[b], End(L.starts, |L.entries|, b));
    }
  }

  lemma FirstOfBlock(keyFile: Bytes, L: Layout, b: nat)
    requires IsKeyFile(keyFile, L) && Storable(L.entries) && b < |L.starts|
    ensures (b + 1) * KEY_BLOCK_SIZE <= |keyFile| && L.starts[b] < |L.entries|
    ensures var buffer := keyFile[b * KEY_BLOCK_SIZE..(b + 1) * KEY_BLOCK_SIZE]; var key := L.entries[L.starts[b]].key;
            Read16(buffer, 0) == |key| <= MAX_KEY_SIZE && buffer[2..2 + |key|] == key
  {
    hide Record, Records, Trailer, EncodeKey, DataOff, Less, Ascending;
    var es, s, e := L.entries, L.starts[b], End(L.starts, |L.entries|, b);
    assert BlockAt(keyFile, es, b, s, e);
    FirstRecord(es, s, e, Trailer(|Records(es, s, s, e)|), keyFile[b * KEY_BLOCK_SIZE..(b + 1) * KEY_BLOCK_SIZE]);
  }

  /** newDiskSegment: without an index at hand it is loaded from the key file. */
  method NewDiskSegment(lowerID: nat, upperID: nat, keyFile: Bytes, dataFile: Bytes, keyIndex: seq<Bytes>,
                        ghost L: Layout)
    returns (ds: DiskFiles)
    requires Storable(L.entries) && IsKeyFile(keyFile, L) && |keyFile| < U64 &&
             dataFile == DataBytes(L.entries, |L.entries|)
    requires keyIndex != [] ==>
             (forall b :: 0 <= b < |L.starts| ==> L.starts[b] < |L.entries|) && keyIndex == IndexOf(L.entries, L.starts)
    ensures Holds(ds, L) && ds == DiskFiles(lowerID, upperID, keyFile, dataFile, ds.keyIndex)
  {
    var index := keyIndex;
    if |keyIndex| == 0 {
      index := LoadKeyIndex(keyFile, KeyBlocks(keyFile), L);
    }
    ds := DiskFiles(lowerID, upperID, keyFile, dataFile, index);
  }
}
