/** The log file object, and the loop that replays a file into a skip list. */
module LogFiles {
  import opened Bytes
  import opened KeyValues
  import opened LittleEndian
  import opened LogFormat
  import opened SkipLinks
  import opened SkipLists

  /** LogFile, its stream reduced to the bytes written so far. */
  class LogFile {
    var file: Bytes
    var inBatch: bool
    /** The records completed so far, and inside a batch its announced size and the puts written so far. */
    ghost var ops: seq<LogOp>
    ghost var batchLen: int
    ghost var batch: seq<KeyValue>

    ghost predicate Valid()
      reads this
    {
      file == EncodeLog(ops) + if inBatch then Write32(-batchLen) + EncodePuts(batch) else []
    }

    constructor ()
      ensures Valid() && !inBatch && ops == []
    {
      file, inBatch, ops, batchLen, batch := [], false, [], 0, [];
    }

    method StartBatch(len: int)
      requires 0 <= len && Valid() && !inBatch
      modifies this
      ensures Valid() && inBatch && batchLen == len && batch == [] && ops == old(ops)
      ensures file == old(file) + Write32(-len)
    {
      hide Write32, EncodeLog;
      inBatch := true;
      file := file + Write32(-len);
      batchLen, batch := len, [];
    }

    method EndBatch(len: int)
      requires Valid() && inBatch && batchLen == len == |batch|
      modifies this
      ensures Valid() && !inBatch && ops == old(ops) + [Batch(old(batch))]
      ensures file == old(file) + Write32(-len)
    {
      hide Write32, EncodeLog, EncodePuts;
      EncodeLogAppend(ops, Batch(batch));
      inBatch := false;
      file := file + Write32(-len);
      ops := ops + [Batch(batch)];
    }

    method Write(key: Bytes, value: Bytes)
      requires Valid()
      modifies this
      ensures Valid() && inBatch == old(inBatch) && batchLen == old(batchLen)
      ensures if inBatch then ops == old(ops) && batch == old(batch) + [KeyValue(key, value)]
              else ops == old(ops) + [Single(KeyValue(key, value))]
      ensures file == old(file) + (Write32(|key|) + key + Write32(|value|) + value)
    {
      ghost var kv := KeyValue(key, value);
      EncodePutIs(kv);
      EncodePutsAppend(batch, kv);
      EncodeLogAppend(ops, Single(kv));
      hide Write32, EncodeLog, EncodePuts, EncodePut;
      file := file + (Write32(|key|) + key + Write32(|value|) + value);
      if inBatch {
        batch := batch + [kv];
      } else {
        ops := ops + [Single(kv)];
      }
    }
  }

  lemma EncodePutIs(kv: KeyValue)
    ensures EncodePut(kv) == Write32(|kv.key|) + kv.key + Write32(|kv.value|) + kv.value
  {
  }

  /** The reading half of readBatch: a vector filled until the batch ends or something goes wrong. */
  method ReadBatchEntries(b: Bytes, pos: nat, len: int) returns (entries: seq<KeyValue>, end: Parsed<()>)
    requires pos <= |b| && len < 0
    ensures BatchRead(entries, end) == ReadBatch(b, pos, len)
  {
    hide ReadPut, ReadInt;
    entries := [];
    var p: nat := pos;
    for i := 0 to -len
      invariant p <= |b|
      invariant var rest := ReadPuts(b, p, -len - i);
                ReadPuts(b, pos, -len) == BatchRead(entries + rest.entries, rest.end)
    {
      match ReadPut(b, p)
      case Eof =>
        return entries, Eof;
      case Illegal(q) =>
        return entries, Illegal(q);
      case Ok(kv, q) =>
        entries, p := entries + [kv], q;
    }
    match ReadInt(b, p)
    case Eof => end := Eof;
    case Ok(len0, q) => end := if len0 == len then Ok((), q) else Illegal(q);
  }

  /** The putting half of readBatch. */
  method PutEach(list: SkipList, entries: seq<KeyValue>, height: KeyValue -> nat)
    requires list.Valid() && forall kv :: 1 <= height(kv) <= MAX_HEIGHT
    modifies list, list.nodes
    ensures list.Valid() && old(list.nodes) <= list.nodes && fresh(list.nodes - old(list.nodes))
    ensures list.Contents() == old(list.Contents()) + MapOf(entries)
  {
    hide Less, MapOf, SkipList.Valid, SkipList.Contents;
    EmptyMapOf();
    assert entries[..0] == [];
    for i := 0 to |entries|
      invariant list.Valid() && old(list.nodes) <= list.nodes && fresh(list.nodes - old(list.nodes))
      invariant list.Contents() == old(list.Contents()) + MapOf(entries[..i])
    {
      MapOfAppend(entries[..i], entries[i]);
      assert entries[..i + 1] == entries[..i] + [entries[i]];
      var _, _ := list.Put(entries[i], height(entries[i]));
    }
    assert entries[..|entries|] == entries;
  }

  /** One record or batch: the puts it contributes, and where to go on unless an exception ends the loop. */
  method ReadTurn(b: Bytes, pos: nat, mode: BatchReadMode) returns (entries: seq<KeyValue>, next: Option<nat>)
    requires pos <= |b|
    ensures next.Some? ==> pos < next.value <= |b|
    ensures ReadLog(b, pos, mode) == entries + if next.Some? then ReadLog(b, next.value, mode) else []
  {
    hide ReadBatch, ReadPutAfter, ReadInt;
    match ReadInt(b, pos)
    case Eof =>
      return [], None;
    case Ok(len, p) =>
      if len < 0 {
        var es, end := ReadBatchEntries(b, p, len);
        if end.Ok? || mode == ApplyPartial {
          return es, if end.Eof? then None else Some(end.next);
        }
        return [], None;
      }
      match ReadPutAfter(b, p, len) {
        case Ok(kv, q) => return [kv], Some(q);
        case _ => return [], None;
      }
  }

  /**
   readLogFile. The loop always ends in an exception, even at a clean end of file; only returnOpenError passes it
   on.
   */
  method ReadLogFile(list: SkipList, b: Bytes, mode: BatchReadMode, height: KeyValue -> nat) returns (thrown: bool)
    requires list.Valid() && forall kv :: 1 <= height(kv) <= MAX_HEIGHT
    modifies list, list.nodes
    ensures list.Valid() && old(list.nodes) <= list.nodes && fresh(list.nodes - old(list.nodes))
    ensures list.Contents() == old(list.Contents()) + MapOf(ReadLog(b, 0, mode))
    ensures thrown <==> mode == ReturnOpenError
  {
    hide MapOf, ReadLog, Less, SkipList.Valid, SkipList.Contents;
    var pos := 0;
    ghost var applied: seq<KeyValue> := [];
    EmptyMapOf();
    while true
      invariant pos <= |b| && applied + ReadLog(b, pos, mode) == ReadLog(b, 0, mode)
      invariant list.Valid() && old(list.nodes) <= list.nodes && fresh(list.nodes - old(list.nodes))
      invariant list.Contents() == old(list.Contents()) + MapOf(applied)
      decreases |b| - pos
    {
      var entries, next := ReadTurn(b, pos, mode);
      MapOfConcat(applied, entries);
      PutEach(list, entries, height);
      AppliedNext(applied, entries, if next.Some? then ReadLog(b, next.value, mode) else []);
      applied := applied + entries;
      if next == None {
        return mode == ReturnOpenError;
      }
      pos := next.value;
    }
  }

  lemma AppliedNext(applied: seq<KeyValue>, entries: seq<KeyValue>, tail: seq<KeyValue>)
    ensures applied + (entries + tail) == applied + entries + tail
    ensures tail == [] ==> applied + entries + tail == applied + entries
  {
  }

  lemma EmptyMapOf()
    ensures MapOf([]) == map[]
  {
  }
}
