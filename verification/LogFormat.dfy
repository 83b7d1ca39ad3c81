/**
 The write-ahead log as a byte stream, and what a reader makes of any stream of bytes.
 A put is key length, key, value length, value; a batch is bracketed by minus its number of puts.
 */
module LogFormat {
  import opened Bytes
  import opened KeyValues
  import opened LittleEndian

  datatype LogOp = Single(kv: KeyValue) | Batch(entries: seq<KeyValue>)

  datatype BatchReadMode = DiscardPartial | ApplyPartial | ReturnOpenError

  const INT_LIMIT := 0x8000_0000

  function EncodePut(kv: KeyValue): (r: Bytes)
    ensures |r| == 8 + |kv.key| + |kv.value|
  {
    Write32(|kv.key|) + kv.key + Write32(|kv.value|) + kv.value
  }

  function EncodePuts(es: seq<KeyValue>): Bytes {
    if es == [] then [] else EncodePut(es[0]) + EncodePuts(es[1..])
  }

  function EncodeOp(op: LogOp): Bytes {
    match op
    case Single(kv) => EncodePut(kv)
    case Batch(es) => Write32(-|es|) + EncodePuts(es) + Write32(-|es|)
  }

  function EncodeLog(ops: seq<LogOp>): Bytes {
    if ops == [] then [] else EncodeOp(ops[0]) + EncodeLog(ops[1..])
  }

  // ---- reading ----

  /** One read from the stream: a value, the end of the file, or an exception that leaves the stream good. */
  datatype Parsed<T> = Ok(value: T, next: nat) | Eof | Illegal(next: nat)

  function Signed32(u: nat): int {
    if u >= INT_LIMIT then u - U32 else u
  }

  function ReadInt(b: Bytes, pos: nat): (r: Parsed<int>)
    requires pos <= |b|
    ensures r.Ok? ==> r.next == pos + 4 <= |b|
    ensures !r.Illegal?
  {
    if pos + 4 > |b| then Eof else Ok(Signed32(Read32(b, pos)), pos + 4)
  }

  /** ByteBuffer(n) throws for a negative n. */
  function ReadBytes(b: Bytes, pos: nat, n: int): (r: Parsed<Bytes>)
    requires pos <= |b|
    ensures r.Ok? ==> pos <= r.next <= |b|
    ensures r.Illegal? ==> r.next == pos
  {
    if n < 0 then Illegal(pos) else if pos + n > |b| then Eof else Ok(b[pos..pos + n], pos + n)
  }

  /** The rest of a put after its key length. */
  function ReadPutAfter(b: Bytes, pos: nat, kLen: int): (r: Parsed<KeyValue>)
    requires pos <= |b|
    ensures !r.Eof? ==> pos <= r.next <= |b|
  {
    match ReadBytes(b, pos, kLen)
    case Eof => Eof
    case Illegal(p) => Illegal(p)
    case Ok(key, p) =>
      match ReadInt(b, p)
      case Eof => Eof
      case Illegal(q) => Illegal(q)
      case Ok(vLen, q) =>
        match ReadBytes(b, q, vLen)
        case Eof => Eof
        case Illegal(r) => Illegal(r)
        case Ok(value, r) => Ok(KeyValue(key, value), r)
  }

  function ReadPut(b: Bytes, pos: nat): (r: Parsed<KeyValue>)
    requires pos <= |b|
    ensures !r.Eof? ==> pos < r.next <= |b|
  {
    match ReadInt(b, pos)
    case Eof => Eof
    case Illegal(p) => Illegal(p)
    case Ok(kLen, p) => ReadPutAfter(b, p, kLen)
  }

  /** The try block of readBatch: the puts read before anything went wrong, and how it ended. */
  datatype BatchRead = BatchRead(entries: seq<KeyValue>, end: Parsed<()>)

  function ReadPuts(b: Bytes, pos: nat, n: nat): (r: BatchRead)
    requires pos <= |b|
    ensures !r.end.Eof? ==> pos <= r.end.next <= |b|
    decreases n
  {
    if n == 0 then BatchRead([], Ok((), pos))
    else
      match ReadPut(b, pos)
      case Eof => BatchRead([], Eof)
      case Illegal(p) => BatchRead([], Illegal(p))
      case Ok(kv, p) =>
        var rest := ReadPuts(b, p, n - 1);
        BatchRead([kv] + rest.entries, rest.end)
  }

  function ReadBatch(b: Bytes, pos: nat, len: int): (r: BatchRead)
    requires pos <= |b| && len < 0
    ensures !r.end.Eof? ==> pos <= r.end.next <= |b|
  {
    var r := ReadPuts(b, pos, -len);
    if !r.end.Ok? then r
    else
      match ReadInt(b, r.end.next)
      case Eof => BatchRead(r.entries, Eof)
      case Illegal(p) => BatchRead(r.entries, Illegal(p))
      case Ok(len0, p) => BatchRead(r.entries, if len0 == len then Ok((), p) else Illegal(p))
  }

  /** readLogFile: the puts it applies to the list, in order. */
  function ReadLog(b: Bytes, pos: nat, mode: BatchReadMode): seq<KeyValue>
    requires pos <= |b|
    decreases |b| - pos
  {
    match ReadInt(b, pos)
    case Eof => []
    case Illegal(p) => []
    case Ok(len, p) =>
      if len < 0 then
        var r := ReadBatch(b, p, len);
        match r.end
        case Ok(_, q) => r.entries + ReadLog(b, q, mode)
        case Eof => if mode == ApplyPartial then r.entries else []
        case Illegal(q) => if mode == ApplyPartial then r.entries + ReadLog(b, q, mode) else []
      else
        match ReadPutAfter(b, p, len)
        case Ok(kv, q) => [kv] + ReadLog(b, q, mode)
        case _ => []
  }

  lemma {:induction false} EncodePutsAppend(es: seq<KeyValue>, kv: KeyValue)
    ensures EncodePuts(es + [kv]) == EncodePuts(es) + EncodePut(kv)
  {
    hide EncodePut;
    if es == [] {
      assert EncodePuts([kv]) == EncodePut(kv) + EncodePuts([]);
    } else {
      assert (es + [kv])[1..] == es[1..] + [kv];
      EncodePutsAppend(es[1..], kv);
    }
  }

  lemma {:induction false} EncodeLogAppend(ops: seq<LogOp>, op: LogOp)
    ensures EncodeLog(ops + [op]) == EncodeLog(ops) + EncodeOp(op)
  {
    hide EncodeOp;
    if ops == [] {
      assert EncodeLog([op]) == EncodeOp(op) + EncodeLog([]);
    } else {
      assert (ops + [op])[1..] == ops[1..] + [op];
      EncodeLogAppend(ops[1..], op);
    }
  }
}
