/** Memory segments: a skip list, the log that can rebuild it, and a running count of the bytes it holds. */
module MemorySegments {
  import opened Bytes
  import opened KeyValues
  import opened LittleEndian
  import opened LogFormat
  import opened LogReplay
  import opened LogFiles
  import opened SkipLinks
  import opened SkipLists
  import opened SkipIterators
  import opened LookupIterators

  /** The lengths of all keys and values. */
  ghost function TotalBytes(m: Entries): nat
    decreases |m|
  {
    if m == map[] then 0
    else
      var kv := First(m);
      assert (m - {kv.key}).Keys == m.Keys - {kv.key};
      |kv.key| + |kv.value| + TotalBytes(m - {kv.key})
  }

  lemma {:induction false} TotalBytesWithout(m: Entries, k: Bytes)
    requires k in m
    ensures TotalBytes(m) == |k| + |m[k]| + TotalBytes(m - {k})
    decreases |m|
  {
    var f := First(m).key;
    if f != k {
      var rest := m - {f};
      assert rest.Keys == m.Keys - {f};
      TotalBytesWithout(rest, k);
      FirstIs(m - {k}, f);
      assert rest - {k} == m - {k} - {f};
    }
  }

  lemma TotalBytesAfterPut(m: Entries, k: Bytes, v: Bytes)
    ensures TotalBytes(m[k := v]) == TotalBytes(m) + |k| + |v| - if k in m then |k| + |m[k]| else 0
  {
    hide TotalBytes;
    TotalBytesWithout(m[k := v], k);
    assert m[k := v] - {k} == m - {k};
    if k in m {
      TotalBytesWithout(m, k);
    } else {
      assert m - {k} == m;
    }
  }

  lemma ModularSum(a: int, d: int)
    ensures (a % U64 + d) % U64 == (a + d) % U64
  {
  }

  lemma LogGrows(ops: seq<LogOp>, kv: KeyValue)
    ensures MapOf(Puts(ops + [Single(kv)])) == MapOf(Puts(ops))[kv.key := kv.value]
  {
    PutsAppend(ops, Single(kv));
    MapOfAppend(Puts(ops), kv);
  }

  /** A batch of n puts is being written, and these are those so far. */
  ghost predicate LogOpen(log: LogFile, n: nat, batch: seq<KeyValue>, ops: seq<LogOp>)
    reads log
  {
    log.Valid() && log.inBatch && log.batchLen == n && log.batch == batch && log.ops == ops
  }

  class MemorySegment {
    const id: nat
    /** A segment without a path keeps no log. */
    const logged: bool
    const list: SkipList
    var log: LogFile?
    var bytes: nat
    /** By how much bytes counts too many: put takes an empty previous key for a sign that there was no entry. */
    ghost var over: nat
    ghost var Repr: set<object>

    ghost predicate Listed()
      reads this, Repr
    {
      this in Repr && list in Repr && list.nodes <= Repr && list.Valid()
    }

    /** Without the log: holds between the puts of a batch, too. */
    ghost predicate Counted()
      reads this, Repr
    {
      Listed() && bytes == (TotalBytes(list.Contents()) + over) % U64 && ([] !in list.Contents() ==> over == 0)
    }

    ghost predicate Valid()
      reads this, Repr
    {
      && Counted()
      && (log != null ==>
         logged && log in Repr && log.Valid() && !log.inBatch && list.Contents() == MapOf(Puts(log.ops)))
      && (log == null && logged ==> list.Contents() == map[])
    }

    ghost function Contents(): Entries
      requires Valid()
      reads this, Repr
    {
      list.Contents()
    }

    constructor (id: nat, logged: bool)
      ensures Valid() && fresh(Repr) && this.id == id && this.logged == logged
      ensures Contents() == map[] && bytes == over == 0
    {
      this.id, this.logged, log, bytes, over := id, logged, null, 0, 0;
      list := new SkipList();
      new;
      Repr := {this, list} + list.nodes;
    }

    method MaybeCreateLogFile()
      requires Valid()
      modifies this
      ensures Valid() && fresh(Repr - old(Repr)) && old(Repr) <= Repr && (log != null <==> logged) &&
              old(list.trace) <= list.trace
      ensures Contents() == old(Contents()) && list.nodes == old(list.nodes) && bytes == old(bytes) && over == old(over)
      ensures log != null ==> log.ops == if old(log) == null then [] else old(log.ops)
    {
      hide TotalBytes, SkipList.Valid, SkipList.Contents;
      if log != null || !logged {
        return;
      }
      EmptyMapOf();
      log := new LogFile();
      Repr := Repr + {log};
    }

    /** list.put; bytes is not yet right. */
    method PutListed(kv: KeyValue, height: nat) returns (previous: KeyValue)
      requires Listed() && 1 <= height <= MAX_HEIGHT
      modifies `Repr, list, list.nodes
      ensures Listed() && old(Repr) <= Repr && fresh(Repr - old(Repr)) && old(list.trace) <= list.trace
      ensures list.Contents() == old(list.Contents())[kv.key := kv.value] && previous == old(list.Found(kv.key))
      ensures previous == if kv.key in old(list.Contents()) then KeyValue(kv.key, old(list.Contents())[kv.key])
              else EMPTY
      ensures TotalBytes(list.Contents()) ==
              old(TotalBytes(list.Contents())) + |kv.key| + |kv.value| - |previous.key| - |previous.value|
    {
      hide TotalBytes, SkipList.Valid, SkipList.Contents;
      TotalBytesAfterPut(list.Contents(), kv.key, kv.value);
      ghost var w;
      previous, w := list.Put(kv, height);
      Repr := Repr + list.nodes;
    }

    /** One put of a batch; the byte count is in unsigned 64-bit arithmetic. */
    method PutCounted(kv: KeyValue, height: nat) returns (previous: KeyValue)
      requires Counted() && 1 <= height <= MAX_HEIGHT
      modifies `bytes, `Repr, list, list.nodes
      ensures Counted() && old(Repr) <= Repr && fresh(Repr - old(Repr)) && old(list.trace) <= list.trace
      ensures list.Contents() == old(list.Contents())[kv.key := kv.value] && previous == old(list.Found(kv.key))
    {
      hide TotalBytes, SkipList.Valid, SkipList.Contents, SkipList.Found;
      previous := PutListed(kv, height);
      bytes := (bytes + |kv.key| + |kv.value| - |previous.key| - |previous.value|) % U64;
    }

    /** The list and the byte count of put, without the log. */
    method PutUnlogged(key: Bytes, value: Bytes, height: nat) returns (previous: Bytes)
      requires Counted() && 1 <= height <= MAX_HEIGHT
      modifies `bytes, `over, `Repr, list, list.nodes
      ensures Counted() && old(Repr) <= Repr && fresh(Repr - old(Repr)) && old(list.trace) <= list.trace
      ensures list.Contents() == old(list.Contents())[key := value]
      ensures previous == if key in old(list.Contents()) then old(list.Contents())[key] else []
      ensures over == old(over) + if key == [] then |previous| else 0
    {
      hide TotalBytes, SkipList.Valid, SkipList.Contents, SkipList.Found;
      ghost var total := TotalBytes(list.Contents());
      var prev := PutListed(KeyValue(key, value), height);
      ModularSum(total + over, |key| + |value| - if prev.key == [] then 0 else |prev.key| + |prev.value|);
      bytes := (bytes + |key| + |value| - if prev.key == [] then 0 else |prev.key| + |prev.value|) % U64;
      over := over + if key == [] then |prev.value| else 0;
      return prev.value;
    }

    /**
     Returns the value that the key had before. Only a put of the empty key over another one makes the byte count
     wrong.
     */
    method Put(key: Bytes, value: Bytes, height: nat) returns (previous: Bytes)
      requires Valid() && 1 <= height <= MAX_HEIGHT
      modifies Repr
      ensures Valid() && old(Repr) <= Repr && fresh(Repr - old(Repr)) && old(list.trace) <= list.trace
      ensures Contents() == old(Contents())[key := value]
      ensures previous == if key in old(Contents()) then old(Contents())[key] else []
      ensures over == old(over) + if key == [] then |previous| else 0
      ensures log != null ==>
              log.ops == (if old(log) == null then [] else old(log.ops)) + [Single(KeyValue(key, value))]
    {
      hide TotalBytes, SkipList.Valid, SkipList.Contents, SkipList.Found, LogFile.Valid, MapOf, Puts;
      MaybeCreateLogFile();
      previous := PutUnlogged(key, value, height);
      if log != null {
        LogGrows(log.ops, KeyValue(key, value));
        log.Write(key, value);
      }
    }

    /** A removal is a put of the empty value. */
    method Remove(key: Bytes, height: nat) returns (previous: Bytes)
      requires Valid() && 1 <= height <= MAX_HEIGHT
      modifies Repr
      ensures Valid() && old(Repr) <= Repr && fresh(Repr - old(Repr)) && old(list.trace) <= list.trace
      ensures Contents() == old(Contents())[key := []]
      ensures previous == if key in old(Contents()) then old(Contents())[key] else []
      ensures over == old(over) + if key == [] then |previous| else 0
    {
      previous := Put(key, [], height);
    }

    method Get(key: Bytes) returns (value: Bytes)
      requires Valid()
      ensures value == if key in Contents() then Contents()[key] else []
    {
      var kv := list.Get(key);
      value := kv.value;
    }

    /** MemorySegment::write */
    method Write(batch: seq<KeyValue>, height: KeyValue -> nat)
      requires Valid() && forall kv :: 1 <= height(kv) <= MAX_HEIGHT
      modifies Repr
      ensures Valid() && old(Repr) <= Repr && fresh(Repr - old(Repr)) && old(list.trace) <= list.trace
      ensures Contents() == old(Contents()) + MapOf(batch) && over == old(over)
      ensures log != null ==> log.ops == (if old(log) == null then [] else old(log.ops)) + [Batch(batch)]
    {
      hide TotalBytes, SkipList.Valid, SkipList.Contents, SkipList.Found, LogFile.Valid, MapOf, Puts;
      MaybeCreateLogFile();
      ghost var ops := if log == null then [] else log.ops;
      if log != null {
        log.StartBatch(|batch|);
      }
      WriteEach(batch, height, ops);
      PutsAppend(ops, Batch(batch));
      MapOfConcat(Puts(ops), batch);
      if log != null {
        log.EndBatch(|batch|);
      }
    }

    /** The puts of a batch, with the log's batch open. */
    method WriteEach(batch: seq<KeyValue>, height: KeyValue -> nat, ghost ops: seq<LogOp>)
      requires Counted() && forall kv :: 1 <= height(kv) <= MAX_HEIGHT
      requires log != null <==> logged
      requires log != null ==> log in Repr && LogOpen(log, |batch|, [], ops)
      modifies Repr
      ensures Counted() && old(Repr) <= Repr && fresh(Repr - old(Repr)) && old(list.trace) <= list.trace
      ensures list.Contents() == old(list.Contents()) + MapOf(batch) && over == old(over) && log == old(log)
      ensures log != null ==> log in Repr && LogOpen(log, |batch|, batch, ops)
    {
      hide TotalBytes, SkipList.Valid, SkipList.Contents, SkipList.Found, LogFile.Valid, MapOf, Puts;
      EmptyMapOf();
      assert batch[..0] == [];
      for i := 0 to |batch|
        invariant Counted() && old(Repr) <= Repr && fresh(Repr - old(Repr)) && old(list.trace) <= list.trace
        invariant list.Contents() == old(list.Contents()) + MapOf(batch[..i]) && over == old(over) && log == old(log)
        invariant log != null ==> log in Repr && LogOpen(log, |batch|, batch[..i], ops)
      {
        MapOfAppend(batch[..i], batch[i]);
        assert batch[..i + 1] == batch[..i] + [batch[i]];
        var _ := PutCounted(batch[i], height(batch[i]));
        if log != null {
          log.Write(batch[i].key, batch[i].value);
        }
      }
      assert batch[..|batch|] == batch;
    }

    /** MemorySegment::lookup. While the segment is written to, the iterator stays Live. */
    method Lookup(lower: Bytes, upper: Bytes) returns (itr: LookupIterator)
      requires Valid()
      ensures itr.Valid() && fresh(itr.Own()) && itr.Foot() <= itr.Own() + Repr
      ensures itr.Rem() == Range(Contents(), lower, upper)
      ensures itr.Memory? && itr.m.Live() && itr.m.itr.list == list
    {
      hide TotalBytes, SkipList.Valid, SkipList.Contents;
      ValidList(list);
      var m := new SkipListIterator(list, lower, upper);
      itr := Memory(m);
    }

    /** Replaying the log, in any mode that does not reject it, rebuilds the segment. */
    lemma ReplayRebuilds(mode: BatchReadMode)
      requires Valid() && log != null && LogFits(log.ops) && NoEmptyBatch(log.ops)
      ensures MapOf(ReadLog(log.file, 0, mode)) == Contents()
    {
      hide MapOf, ReadLog, Puts, SkipList.Valid, TotalBytes, EncodeLog;
      assert EncodeLog(log.ops) + [] == EncodeLog(log.ops);
      FullReplayExactlyWhen(log.ops, mode);
    }
  }

  /** A put beside an iterator leaves it where it is, and it may go on as SkipListIterator.Next says. */
  method PutBeside(seg: MemorySegment, m: SkipListIterator, key: Bytes, value: Bytes, height: nat)
    returns (previous: Bytes)
    requires seg.Valid() && 1 <= height <= MAX_HEIGHT
    requires m.Live() && m.itr.list == seg.list && m !in seg.Repr && m.itr !in seg.Repr
    modifies seg.Repr
    ensures seg.Valid() && seg.Contents() == old(seg.Contents())[key := value]
    ensures m.Live() && m.itr.node == old(m.itr.node) && m.itr.since == old(m.itr.since) && m.peek == old(m.peek)
  {
    hide TotalBytes, SkipList.Contents, LinkedAt, Quiescent, MapOf, Puts, LogFile.Valid;
    ghost var was := seg.list.trace;
    previous := seg.Put(key, value, height);
    LinkedLater(was, seg.list.trace, m.itr.since, m.itr.node);
  }
}
