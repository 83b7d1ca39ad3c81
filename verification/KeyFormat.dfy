/**
 The key file: blocks of exactly 4096 bytes, each a run of records closed by an end marker and zeros.
 A record is a two-byte header, the key or its suffix after the prefix it shares with the record
 before it, and the position and length of the value in the data file.
 */
module KeyFormat {
  import opened Bytes
  import opened LittleEndian

  const KEY_BLOCK_SIZE := 4096
  const MAX_KEY_SIZE := 1000
  const END_OF_BLOCK := 0x8000
  const COMPRESSED_BIT := 0x8000
  const MAX_PREFIX_LEN := 0x7F
  const MAX_COMPRESSED_LEN := 0xFF
  const KEY_INDEX_INTERVAL := 16

  // ---- one key ----

  /** The longest common prefix. */
  function Shared(a: Bytes, b: Bytes): (n: nat)
    ensures n <= |a| && n <= |b| && a[..n] == b[..n]
    ensures n < |a| && n < |b| ==> a[n] != b[n]
  {
    if a == [] || b == [] || a[0] != b[0] then 0
    else
      var n := 1 + Shared(a[1..], b[1..]);
      assert a[..n] == [a[0]] + a[1..][..n - 1] && b[..n] == [b[0]] + b[1..][..n - 1];
      n
  }

  lemma {:induction false} SharedIs(a: Bytes, b: Bytes, n: nat)
    requires n <= |a| && n <= |b| && a[..n] == b[..n]
    requires n < |a| && n < |b| ==> a[n] != b[n]
    ensures Shared(a, b) == n
  {
    var m := Shared(a, b);
    forall i | 0 <= i < n
      ensures a[i] == b[i]
    {
      assert a[..n][i] == b[..n][i];
    }
    forall i | 0 <= i < m
      ensures a[i] == b[i]
    {
      assert a[..m][i] == b[..m][i];
    }
  }

  /** The first n bytes are all that two keys have in common at their start. */
  ghost predicate LongestPrefix(a: Bytes, b: Bytes, n: nat) {
    n <= |a| && n <= |b| && a[..n] == b[..n] && (n == |a| || n == |b| || a[n] != b[n])
  }

  function PrefixLen(prevKey: Bytes, key: Bytes): nat {
    var n := Shared(prevKey, key);
    if n > MAX_PREFIX_LEN || |key| - n > MAX_COMPRESSED_LEN then 0 else n
  }

  /** All of the longest common prefix, or nothing when its length needs more than 7 bits or the rest more than 8. */
  lemma PrefixLenIs(prevKey: Bytes, key: Bytes)
    ensures LongestPrefix(prevKey, key, Shared(prevKey, key))
    ensures forall n: nat :: LongestPrefix(prevKey, key, n) ==>
              PrefixLen(prevKey, key) == if n <= 127 && |key| - n <= 255 then n else 0
  {
    hide Shared;
    forall n: nat | LongestPrefix(prevKey, key, n)
      ensures n == Shared(prevKey, key)
    {
      SharedIs(prevKey, key, n);
    }
  }

  /** calculatePrefixLen */
  method CalculatePrefixLen(prevKey: Bytes, key: Bytes) returns (length: nat)
    ensures length == PrefixLen(prevKey, key)
    ensures forall n: nat :: LongestPrefix(prevKey, key, n) ==> length == if n <= 127 && |key| - n <= 255 then n else 0
  {
    PrefixLenIs(prevKey, key);
    if prevKey == [] {
      return 0;
    }
    length := 0;
    while length < |prevKey| && length < |key|
      invariant length <= |prevKey| && length <= |key|
      invariant prevKey[..length] == key[..length]
    {
      if prevKey[length] != key[length] {
        break;
      }
      length := length + 1;
    }
    SharedIs(prevKey, key, length);
    if length > MAX_PREFIX_LEN || |key| - length > MAX_COMPRESSED_LEN {
      length := 0;
    }
  }

  datatype DiskKey = DiskKey(keylen: nat, compressedKey: Bytes)

  function EncodeKey(key: Bytes, prevKey: Bytes): DiskKey {
    var prefixLen := PrefixLen(prevKey, key);
    if prefixLen > 0 then
      var suffix := key[prefixLen..];
      DiskKey(COMPRESSED_BIT + prefixLen * 256 + |suffix|, suffix)
    else
      DiskKey(|key| % U16, key)
  }

  /** encodeKey */
  method Encode(key: Bytes, prevKey: Bytes) returns (dk: DiskKey)
    ensures dk == EncodeKey(key, prevKey)
  {
    var prefixLen := CalculatePrefixLen(prevKey, key);
    if prefixLen > 0 {
      var suffix := key[prefixLen..];
      return DiskKey(COMPRESSED_BIT + prefixLen * 256 + |suffix|, suffix);
    }
    return DiskKey(|key| % U16, key);
  }

  /**
   The bytes of a key on disk: with a shared prefix that fits, a header of flag, prefix length and suffix length
   and then the suffix; otherwise the length and the whole key.
   */
  lemma EncodeKeyIs(key: Bytes, prevKey: Bytes, n: nat)
    requires LongestPrefix(prevKey, key, n)
    ensures 0 < n <= 127 && |key| - n <= 255 ==>
              EncodeKey(key, prevKey) == DiskKey(0x8000 + n * 256 + (|key| - n), key[n..])
    ensures !(0 < n <= 127 && |key| - n <= 255) && |key| < 0x8000 ==> EncodeKey(key, prevKey) == DiskKey(|key|, key)
  {
    hide Shared, PrefixLen;
    PrefixLenIs(prevKey, key);
  }

  datatype DecodedKeyLen = Decoded(prefixLen: nat, compressedLen: nat) | IllegalState

  /** decodeKeyLen, on a 16-bit header that is not the end marker. */
  function DecodeKeyLen(keylen: nat): DecodedKeyLen {
    if keylen >= COMPRESSED_BIT then
      var prefixLen, compressedLen := (keylen / 256) % 128, keylen % 256;
      if compressedLen == 0 then IllegalState else Decoded(prefixLen, compressedLen)
    else if keylen > MAX_KEY_SIZE || keylen == 0 then IllegalState
    else Decoded(0, keylen)
  }

  /** decodeKey: the prefix comes from the previous key, the rest from the record. */
  function DecodeKey(suffix: Bytes, prevKey: Bytes, prefixLen: nat): Bytes
    requires prefixLen <= |prevKey|
  {
    prevKey[..prefixLen] + suffix
  }

  /**
   In ascending order nothing is lost, no header reads as the end marker, and decoding fails for exactly the keys
   of more than 1000 bytes.
   */
  lemma KeyRoundTrip(key: Bytes, prevKey: Bytes)
    requires Less(prevKey, key) && |key| < COMPRESSED_BIT
    ensures var dk := EncodeKey(key, prevKey); var d := DecodeKeyLen(dk.keylen);
            && dk.keylen < U16 && dk.keylen != END_OF_BLOCK && dk.compressedKey != []
            && (d == IllegalState <==> |key| > MAX_KEY_SIZE)
            && (d != IllegalState ==>
                  d.compressedLen == |dk.compressedKey| && d.prefixLen <= |prevKey| &&
                  DecodeKey(dk.compressedKey, prevKey, d.prefixLen) == key)
  {
    hide Less, Shared, PrefixLen, EncodeKey, DecodeKeyLen;
    var n := PrefixLen(prevKey, key);
    PrefixIsShort(prevKey, key);
    if n > 0 {
      CompressedHeader(n, |key| - n);
      CompressedKey(key, prevKey);
      assert prevKey[..n] + key[n..] == key[..n] + key[n..] == key;
    } else {
      WholeHeader(key, prevKey);
      assert prevKey[..0] + key == key;
    }
  }

  /** What the reader makes of a stored key is that key. */
  ghost predicate ReadsBack(key: Bytes, prevKey: Bytes) {
    var dk := EncodeKey(key, prevKey);
    var d := DecodeKeyLen(dk.keylen);
    && dk.keylen != END_OF_BLOCK && d != IllegalState
    && d.compressedLen == |dk.compressedKey| && d.prefixLen <= |prevKey| &&
       DecodeKey(dk.compressedKey, prevKey, d.prefixLen) == key
  }

  /** Of keys of any length, those of at most 1000 bytes can be read back. */
  lemma KeyReadsBackExactlyWhen(key: Bytes, prevKey: Bytes)
    requires Less(prevKey, key)
    ensures ReadsBack(key, prevKey) <==> |key| <= 1000
  {
    if |key| < COMPRESSED_BIT {
      KeyRoundTrip(key, prevKey);
    } else {
      PrefixIsShort(prevKey, key);
      hide Less, PrefixLen;
      assert EncodeKey(key, prevKey) == DiskKey(|key| % U16, key);
      DecodedIsShort(|key| % U16);
    }
  }

  lemma DecodedIsShort(keylen: nat)
    ensures var d := DecodeKeyLen(keylen); d != IllegalState ==> d.compressedLen <= MAX_KEY_SIZE
  {
  }

  /** An ascending key has something left after the prefix. */
  lemma PrefixIsShort(prevKey: Bytes, key: Bytes)
    requires Less(prevKey, key)
    ensures var n := PrefixLen(prevKey, key);
            && n < |key| && n <= |prevKey| && prevKey[..n] == key[..n]
            && n <= MAX_PREFIX_LEN && (n > 0 ==> |key| - n <= MAX_COMPRESSED_LEN)
  {
    if key == [] || PrefixLen(prevKey, key) == |key| {
      assert prevKey[..|key|] == key;
      PrefixIsNotLess(prevKey, key);
    }
  }

  lemma CompressedKey(key: Bytes, prevKey: Bytes)
    requires 0 < PrefixLen(prevKey, key) < |key|
    ensures var n := PrefixLen(prevKey, key);
            EncodeKey(key, prevKey) == DiskKey(COMPRESSED_BIT + n * 256 + (|key| - n), key[n..])
  {
    hide PrefixLen;
  }

  lemma WholeHeader(key: Bytes, prevKey: Bytes)
    requires Less(prevKey, key) && |key| < COMPRESSED_BIT && PrefixLen(prevKey, key) == 0
    ensures EncodeKey(key, prevKey) == DiskKey(|key|, key) && key != []
    ensures DecodeKeyLen(|key|) == if |key| > MAX_KEY_SIZE then IllegalState else Decoded(0, |key|)
  {
    assert key != [] by { LessIsStrictTotalOrder(); }
    hide Less, PrefixLen;
  }

  lemma CompressedHeader(prefixLen: nat, suffixLen: nat)
    requires 0 < prefixLen <= MAX_PREFIX_LEN && 0 < suffixLen <= MAX_COMPRESSED_LEN
    ensures DecodeKeyLen(COMPRESSED_BIT + prefixLen * 256 + suffixLen) == Decoded(prefixLen, suffixLen)
  {
    var h := COMPRESSED_BIT + prefixLen * 256 + suffixLen;
    assert h / 256 == 128 + prefixLen && h % 256 == suffixLen;
  }

  lemma {:induction false} PrefixIsNotLess(a: Bytes, b: Bytes)
    requires |b| <= |a| && a[..|b|] == b
    ensures !Less(a, b)
    decreases |b|
  {
    if b != [] {
      assert a[0] == a[..|b|][0] == b[0];
      CompareToTail(a, b);
      assert a[1..][..|b| - 1] == a[..|b|][1..];
      PrefixIsNotLess(a[1..], b[1..]);
    }
  }
}
