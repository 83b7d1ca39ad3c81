/** What a key file and its data file say: the reference both readers and the writer are held to. */
module KeyFile {
  import opened Bytes
  import opened KeyValues
  import opened LittleEndian
  import opened KeyFormat

  /** Where the value of entry i starts in the data file. */
  ghost function DataOff(es: seq<KeyValue>, i: nat): nat
    requires i <= |es|
  {
    if i == 0 then 0 else DataOff(es, i - 1) + |es[i - 1].value|
  }

  ghost function DataBytes(es: seq<KeyValue>, i: nat): Bytes
    requires i <= |es|
  {
    if i == 0 then [] else DataBytes(es, i - 1) + es[i - 1].value
  }

  /** Ascending entries with keys of 1..maxKey bytes, value lengths an int and offsets an int64 can hold. */
  ghost predicate Bounded(es: seq<KeyValue>, maxKey: nat) {
    && Ascending(es)
    && (forall i :: 0 <= i < |es| ==> 1 <= |es[i].key| <= maxKey)
    && (forall i :: 0 <= i < |es| ==> |es[i].value| < 0x8000_0000)
    && DataOff(es, |es|) < 0x8000_0000_0000_0000
  }

  /** What the disk format was built for. */
  ghost predicate Storable(es: seq<KeyValue>) {
    Bounded(es, MAX_KEY_SIZE)
  }

  /** The longest key whose record fits in a block together with the end marker. */
  const MAX_WRITABLE_KEY := KEY_BLOCK_SIZE - 17

  ghost predicate Writable(es: seq<KeyValue>) {
    Bounded(es, MAX_WRITABLE_KEY)
  }

  /** Block b holds the entries from starts[b] up to the start of the next block. */
  datatype Layout = Layout(entries: seq<KeyValue>, starts: seq<nat>)

  ghost function End(starts: seq<nat>, n: nat, b: nat): nat
    requires b < |starts|
  {
    if b + 1 < |starts| then starts[b + 1] else n
  }

  ghost function PrevKey(es: seq<KeyValue>, start: nat, i: nat): Bytes
    requires i <= |es|
  {
    if i <= start then [] else es[i - 1].key
  }

  ghost function Record(es: seq<KeyValue>, start: nat, i: nat): (r: Bytes)
    requires i < |es|
    ensures |r| == 14 + |EncodeKey(es[i].key, PrevKey(es, start, i)).compressedKey|
  {
    var dk := EncodeKey(es[i].key, PrevKey(es, start, i));
    Write16(dk.keylen) + dk.compressedKey + Write64(DataOff(es, i)) + Write32(|es[i].value|)
  }

  /** The records i..hi of a block whose first record is `start`. */
  ghost function Records(es: seq<KeyValue>, start: nat, i: nat, hi: nat): Bytes
    requires i <= hi <= |es|
    decreases hi - i
  {
    if i == hi then [] else Record(es, start, i) + Records(es, start, i + 1, hi)
  }

  lemma Associate(a: Bytes, b: Bytes, c: Bytes)
    ensures a + (b + c) == (a + b) + c
  {
  }

  lemma {:induction false} RecordsAppend(es: seq<KeyValue>, start: nat, i: nat, hi: nat)
    requires i <= hi < |es|
    ensures Records(es, start, i, hi + 1) == Records(es, start, i, hi) + Record(es, start, hi)
    decreases hi - i
  {
    hide Record, Records;
    RecordsStep(es, start, i, hi + 1);
    RecordsStep(es, start, i, hi);
    if i < hi {
      RecordsAppend(es, start, i + 1, hi);
      Associate(Record(es, start, i), Records(es, start, i + 1, hi), Record(es, start, hi));
    } else {
      RecordsStep(es, start, hi + 1, hi + 1);
      Neutral(Record(es, start, hi));
    }
  }

  lemma RecordsStep(es: seq<KeyValue>, start: nat, i: nat, hi: nat)
    requires i <= hi <= |es|
    ensures Records(es, start, i, hi) == if i == hi then [] else Record(es, start, i) + Records(es, start, i + 1, hi)
  {
  }

  lemma Neutral(a: Bytes)
    ensures a + [] == a && [] + a == a
  {
  }

  function Zeros(n: nat): Bytes {
    seq(n, _ => 0)
  }

  ghost function Trailer(used: nat): Bytes
    requires used + 2 <= KEY_BLOCK_SIZE
  {
    Write16(END_OF_BLOCK) + Zeros(KEY_BLOCK_SIZE - used - 2)
  }

  ghost predicate Fits(es: seq<KeyValue>, start: nat, hi: nat) {
    start < hi <= |es| && |Records(es, start, start, hi)| + 2 < KEY_BLOCK_SIZE
  }

  ghost function Block(es: seq<KeyValue>, start: nat, hi: nat): (r: Bytes)
    requires Fits(es, start, hi)
    ensures |r| == KEY_BLOCK_SIZE
  {
    var rs := Records(es, start, start, hi);
    rs + Trailer(|rs|)
  }

  ghost predicate BlockAt(file: Bytes, es: seq<KeyValue>, b: nat, start: nat, hi: nat) {
    Fits(es, start, hi) && (b + 1) * KEY_BLOCK_SIZE <= |file| &&
    file[b * KEY_BLOCK_SIZE..(b + 1) * KEY_BLOCK_SIZE] == Block(es, start, hi)
  }

  /** file is exactly the blocks of L, one after the other, each non-empty and holding consecutive entries. */
  ghost predicate IsKeyFile(file: Bytes, L: Layout) {
    && |file| == |L.starts| * KEY_BLOCK_SIZE
    && (L.starts == [] <==> L.entries == [])
    && (L.starts != [] ==> L.starts[0] == 0)
    && (forall b {:trigger End(L.starts, |L.entries|, b)} :: 0 <= b < |L.starts| ==>
          BlockAt(file, L.entries, b, L.starts[b], End(L.starts, |L.entries|, b)))
  }

  /** Block c was begun because its first record, written whole, might not have left room for the end marker. */
  ghost predicate FullBefore(es: seq<KeyValue>, starts: seq<nat>, c: nat)
    requires 1 <= c < |starts|
  {
    && starts[c - 1] < starts[c] < |es|
    && |Records(es, starts[c - 1], starts[c - 1], starts[c])| + 2 + |es[starts[c]].key| + 8 + 4 >= KEY_BLOCK_SIZE - 2
  }

  /** Every record but the first was put into its block because, even written whole, it left that room. */
  ghost predicate HadRoom(es: seq<KeyValue>, start: nat, hi: nat) {
    hi <= |es| &&
    forall i :: start < i < hi ==> |Records(es, start, start, i)| + 2 + |es[i].key| + 8 + 4 < KEY_BLOCK_SIZE - 2
  }

  /** No block of the first n entries ends sooner or later than it must. */
  ghost predicate Packed(es: seq<KeyValue>, starts: seq<nat>, n: nat) {
    && (forall c :: 1 <= c < |starts| ==> FullBefore(es, starts, c))
    && (forall b {:trigger End(starts, n, b)} :: 0 <= b < |starts| ==> HadRoom(es, starts[b], End(starts, n, b)))
  }

  ghost predicate IsPacked(L: Layout) {
    Packed(L.entries, L.starts, |L.entries|)
  }

  /** The key of every 16th block's first record. */
  ghost function IndexOf(es: seq<KeyValue>, starts: seq<nat>): (index: seq<Bytes>)
    requires forall b :: 0 <= b < |starts| ==> starts[b] < |es|
    ensures |index| == (|starts| + KEY_INDEX_INTERVAL - 1) / KEY_INDEX_INTERVAL
  {
    var n := (|starts| + KEY_INDEX_INTERVAL - 1) / KEY_INDEX_INTERVAL;
    seq(n, j requires 0 <= j < n => es[starts[j * KEY_INDEX_INTERVAL]].key)
  }

  // ---- the file is determined by its entries ----

  lemma {:induction false} SameStarts(es: seq<KeyValue>, f: Bytes, s: seq<nat>, g: Bytes, t: seq<nat>, c: nat)
    requires IsKeyFile(f, Layout(es, s)) && Packed(es, s, |es|) && IsKeyFile(g, Layout(es, t)) && Packed(es, t, |es|)
    requires c < |s|
    ensures c < |t| && s[c] == t[c]
    decreases c
  {
    hide Records, Block;
    if c > 0 {
      SameStarts(es, f, s, g, t, c - 1);
      var p := s[c];
      assert FullBefore(es, s, c);
      assert HadRoom(es, t[c - 1], End(t, |es|, c - 1));
      assert c < |t| ==> FullBefore(es, t, c);
      assert HadRoom(es, s[c - 1], End(s, |es|, c - 1));
    }
  }

  lemma {:induction false} SameBlocks(es: seq<KeyValue>, starts: seq<nat>, f: Bytes, g: Bytes, n: nat)
    requires IsKeyFile(f, Layout(es, starts)) && IsKeyFile(g, Layout(es, starts)) && n <= |starts|
    ensures |f| == |g| == |starts| * KEY_BLOCK_SIZE && n * KEY_BLOCK_SIZE <= |f|
    ensures f[..n * KEY_BLOCK_SIZE] == g[..n * KEY_BLOCK_SIZE]
    decreases n
  {
    hide Records, Block, Fits;
    if n > 0 {
      SameBlocks(es, starts, f, g, n - 1);
      assert BlockAt(f, es, n - 1, starts[n - 1], End(starts, |es|, n - 1));
      assert BlockAt(g, es, n - 1, starts[n - 1], End(starts, |es|, n - 1));
      var lo, hi := (n - 1) * KEY_BLOCK_SIZE, n * KEY_BLOCK_SIZE;
      assert f[..hi] == f[..lo] + f[lo..hi] && g[..hi] == g[..lo] + g[lo..hi];
    }
  }

  /** Entries have just one key file that is packed as the writer packs it. */
  lemma KeyFileIsUnique(es: seq<KeyValue>, f: Bytes, s: seq<nat>, g: Bytes, t: seq<nat>)
    requires IsKeyFile(f, Layout(es, s)) && Packed(es, s, |es|) && IsKeyFile(g, Layout(es, t)) && Packed(es, t, |es|)
    ensures f == g && s == t
  {
    hide IsKeyFile, Packed;
    if |s| < |t| {
      SameStarts(es, g, t, f, s, |s|);
    } else if |t| < |s| {
      SameStarts(es, f, s, g, t, |t|);
    }
    forall c | 0 <= c < |s|
      ensures s[c] == t[c]
    {
      SameStarts(es, f, s, g, t, c);
    }
    assert s == t;
    SameBlocks(es, s, f, g, |s|);
    assert f[..|f|] == f && g[..|g|] == g;
  }

  /** After its records a block has the end marker, low byte first, and zeros. */
  lemma BlockBytes(es: seq<KeyValue>, start: nat, hi: nat)
    requires Fits(es, start, hi)
    ensures var r, used := Block(es, start, hi), |Records(es, start, start, hi)|;
            && |r| == 4096 && r[..used] == Records(es, start, start, hi) && r[used] == 0 && r[used + 1] == 0x80
            && forall i :: used + 2 <= i < |r| ==> r[i] == 0
  {
    hide Records;
    assert Write16(END_OF_BLOCK) == [0, 0x80];
  }

  // ---- reading one record ----

  /** What stands at `at` when the rest of the buffer is record i of a block followed by `rest`. */
  lemma RecordLayout(es: seq<KeyValue>, start: nat, i: nat, buffer: Bytes, at: nat, rest: Bytes)
    requires i < |es| && |es[i].key| < COMPRESSED_BIT && at <= |buffer|
    requires Less(PrevKey(es, start, i), es[i].key)
    requires |es[i].value| < 0x8000_0000 && DataOff(es, i) < 0x8000_0000_0000_0000
    requires buffer[at..] == Record(es, start, i) + rest
    ensures var dk := EncodeKey(es[i].key, PrevKey(es, start, i)); var end := at + 2 + |dk.compressedKey|;
            && end + 12 <= |buffer|
            && Read16(buffer, at) == dk.keylen
            && buffer[at + 2..end] == dk.compressedKey
            && Read64(buffer, end) == DataOff(es, i)
            && Read32(buffer, end + 8) == |es[i].value|
            && buffer[end + 12..] == rest
  {
    hide EncodeKey, DecodeKeyLen, DecodeKey, Less, DataOff, Read16, Read32, Read64, Write16, Write32, Write64, PrevKey;
    var dk := EncodeKey(es[i].key, PrevKey(es, start, i));
    KeyRoundTrip(es[i].key, PrevKey(es, start, i));
    var n := |dk.compressedKey|;
    RecordSlices(buffer, at, dk, DataOff(es, i), |es[i].value|, rest);
    RoundTrip16(dk.keylen, buffer, at);
    RoundTrip64(DataOff(es, i), buffer, at + 2 + n);
    RoundTrip32(|es[i].value|, buffer, at + 10 + n);
  }

  lemma RecordSlices(s: Bytes, at: nat, dk: DiskKey, off: nat, len: nat, rest: Bytes)
    requires at <= |s|
    requires s[at..] == Write16(dk.keylen) + dk.compressedKey + Write64(off) + Write32(len) + rest
    ensures var n := |dk.compressedKey|;
            && |s| == at + 14 + n + |rest|
            && s[at..at + 2] == Write16(dk.keylen) && s[at + 2..at + 2 + n] == dk.compressedKey
            && s[at + 2 + n..at + 10 + n] == Write64(off) && s[at + 10 + n..at + 14 + n] == Write32(len)
            && s[at + 14 + n..] == rest
  {
    hide *;
    var n := |dk.compressedKey|;
    RecordPieces(s[at..], dk, off, len, rest);
    Slices(s, at, 0, 2);
    Slices(s, at, 2, 2 + n);
    Slices(s, at, 2 + n, 10 + n);
    Slices(s, at, 10 + n, 14 + n);
  }

  lemma Slices(s: Bytes, at: nat, lo: nat, hi: nat)
    requires lo <= hi && at + hi <= |s|
    ensures s[at..][lo..hi] == s[at + lo..at + hi]
    ensures s[at..][hi..] == s[at + hi..]
  {
  }

  lemma RecordPieces(r: Bytes, dk: DiskKey, off: nat, len: nat, rest: Bytes)
    requires r == Write16(dk.keylen) + dk.compressedKey + Write64(off) + Write32(len) + rest
    ensures var n := |dk.compressedKey|;
            && |r| == 14 + n + |rest|
            && r[0..2] == Write16(dk.keylen) && r[2..2 + n] == dk.compressedKey
            && r[2 + n..10 + n] == Write64(off) && r[10 + n..14 + n] == Write32(len)
            && r[14 + n..] == rest
  {
    hide *;
  }

  // ---- ascending entries as a map ----

  /** Each pair is in the map, and each key of the map is that of a pair. */
  ghost predicate ListedIn(es: seq<KeyValue>, m: Entries) {
    && (forall i :: 0 <= i < |es| ==> es[i].key in m && m[es[i].key] == es[i].value)
    && (forall k :: k in m ==> exists i :: 0 <= i < |es| && es[i].key == k)
  }

  lemma {:induction false} MapOfAscending(es: seq<KeyValue>)
    requires Ascending(es)
    ensures forall i :: 0 <= i < |es| ==> es[i].key in MapOf(es) && MapOf(es)[es[i].key] == es[i].value
    ensures forall k :: k in MapOf(es) ==> exists i :: 0 <= i < |es| && es[i].key == k
  {
    ListedInMap(es);
    hide MapOf, Ascending;
  }

  lemma {:induction false} ListedInMap(es: seq<KeyValue>)
    requires Ascending(es)
    ensures ListedIn(es, MapOf(es))
  {
    hide ListedIn, Less;
    if es == [] {
      NothingListed();
    } else {
      var n := |es| - 1;
      ListedInMap(es[..n]);
      forall i | 0 <= i < n
        ensures es[..n][i].key != es[n].key
      {
        BeforeLast(es, i);
      }
      hide Ascending;
      OneMoreListed(es[..n], es[n], MapOf(es[..n]));
      assert es[..n] + [es[n]] == es;
    }
  }

  lemma NothingListed()
    ensures ListedIn([], map[])
  {
  }

  lemma OneMoreListed(front: seq<KeyValue>, last: KeyValue, m: Entries)
    requires ListedIn(front, m) && forall i :: 0 <= i < |front| ==> front[i].key != last.key
    ensures ListedIn(front + [last], m[last.key := last.value])
  {
    var es, t := front + [last], m[last.key := last.value];
    forall k | k in t
      ensures exists i :: 0 <= i < |es| && es[i].key == k
    {
      if k == last.key {
        assert es[|front|].key == k;
      } else {
        var i :| 0 <= i < |front| && front[i].key == k;
        assert es[i].key == k;
      }
    }
  }

  lemma BeforeLast(es: seq<KeyValue>, i: nat)
    requires Ascending(es) && i < |es| - 1
    ensures es[i].key != es[|es| - 1].key
  {
    LessIsStrictTotalOrder();
    hide Less;
  }
}
