/** What survives when a log is cut at any byte: complete records, and batches all or nothing unless asked otherwise. */
module LogReplay {
  import opened Bytes
  import opened KeyValues
  import opened LittleEndian
  import opened LogFormat

  /** Lengths and counts that the int fields of the format can hold. */
  ghost predicate PutFits(kv: KeyValue) {
    |kv.key| < INT_LIMIT && |kv.value| < INT_LIMIT
  }

  ghost predicate OpFits(op: LogOp) {
    match op
    case Single(kv) => PutFits(kv)
    case Batch(es) => |es| < INT_LIMIT && forall i :: 0 <= i < |es| ==> PutFits(es[i])
  }

  ghost predicate LogFits(ops: seq<LogOp>) {
    forall i :: 0 <= i < |ops| ==> OpFits(ops[i])
  }

  ghost predicate NoEmptyBatch(ops: seq<LogOp>) {
    forall i :: 0 <= i < |ops| ==> ops[i] != Batch([])
  }

  ghost function PutsOf(op: LogOp): seq<KeyValue> {
    match op
    case Single(kv) => [kv]
    case Batch(es) => es
  }

  /** All puts of a log, in order. */
  ghost function Puts(ops: seq<LogOp>): seq<KeyValue> {
    if ops == [] then [] else PutsOf(ops[0]) + Puts(ops[1..])
  }

  lemma {:induction false} PutsAppend(ops: seq<LogOp>, op: LogOp)
    ensures Puts(ops + [op]) == Puts(ops) + PutsOf(op)
  {
    if ops == [] {
      assert Puts([op]) == PutsOf(op) + Puts([]);
    } else {
      assert (ops + [op])[1..] == ops[1..] + [op];
      PutsAppend(ops[1..], op);
    }
  }

  /** How many puts of a batch lie completely within the first n bytes. */
  ghost function Fit(es: seq<KeyValue>, n: nat): (k: nat)
    ensures k <= |es|
  {
    if es == [] || n < |EncodePut(es[0])| then 0 else 1 + Fit(es[1..], n - |EncodePut(es[0])|)
  }

  /** How many records of a log lie completely within the first n bytes. */
  ghost function Complete(ops: seq<LogOp>, n: nat): (c: nat)
    ensures c <= |ops|
  {
    if ops == [] || n < |EncodeOp(ops[0])| then 0 else 1 + Complete(ops[1..], n - |EncodeOp(ops[0])|)
  }

  // ---- one integer, one put ----

  lemma WrittenInt(b: Bytes, pos: nat, v: int, rest: Bytes)
    requires pos <= |b| && -INT_LIMIT <= v < INT_LIMIT
    requires b[pos..] <= Write32(v) + rest
    ensures if pos + 4 <= |b| then ReadInt(b, pos) == Ok(v, pos + 4) && b[pos + 4..] <= rest else ReadInt(b, pos) == Eof
  {
    hide Read32, Write32;
    LengthOfInt(v);
    if pos + 4 <= |b| {
      PrefixSplit(b, pos, Write32(v), rest);
      RoundTrip32(v, b, pos);
    }
  }

  lemma LengthOfInt(v: int)
    ensures |Write32(v)| == 4
  {
  }

  /** A string that continues a known one: the part, and what is left. */
  lemma PrefixSplit(b: Bytes, pos: nat, a: Bytes, rest: Bytes)
    requires pos <= |b| && b[pos..] <= a + rest && pos + |a| <= |b|
    ensures b[pos..pos + |a|] == a && b[pos + |a|..] <= rest
  {
    var t := b[pos..];
    assert t[..|a|] == (a + rest)[..|a|] == a;
    assert t[|a|..] == b[pos + |a|..];
    assert (a + rest)[|a|..] == rest;
    assert t == (a + rest)[..|t|];
    assert t[|a|..] == rest[..|t| - |a|];
  }

  lemma WrittenBytes(b: Bytes, pos: nat, a: Bytes, rest: Bytes)
    requires pos <= |b| && b[pos..] <= a + rest
    ensures if pos + |a| <= |b| then ReadBytes(b, pos, |a|) == Ok(a, pos + |a|) && b[pos + |a|..] <= rest
            else ReadBytes(b, pos, |a|) == Eof
  {
    if pos + |a| <= |b| {
      PrefixSplit(b, pos, a, rest);
    }
  }

  lemma Regroup(kv: KeyValue, rest: Bytes)
    ensures EncodePut(kv) + rest == Write32(|kv.key|) + (kv.key + (Write32(|kv.value|) + (kv.value + rest)))
  {
    hide Write32;
  }

  lemma WrittenPut(b: Bytes, pos: nat, kv: KeyValue, rest: Bytes)
    requires pos <= |b| && PutFits(kv) && b[pos..] <= EncodePut(kv) + rest
    ensures var next := pos + |EncodePut(kv)|;
            if next <= |b| then ReadPut(b, pos) == Ok(kv, next) && b[next..] <= rest else ReadPut(b, pos) == Eof
  {
    hide Write32, ReadInt, ReadBytes, EncodePut;
    Regroup(kv, rest);
    WrittenInt(b, pos, |kv.key|, kv.key + (Write32(|kv.value|) + (kv.value + rest)));
    if pos + 4 <= |b| {
      WrittenBytes(b, pos + 4, kv.key, Write32(|kv.value|) + (kv.value + rest));
      var p := pos + 4 + |kv.key|;
      if p <= |b| {
        WrittenInt(b, p, |kv.value|, kv.value + rest);
        if p + 4 <= |b| {
          WrittenBytes(b, p + 4, kv.value, rest);
        }
      }
    }
  }

  // ---- a batch ----

  lemma {:induction false} WrittenPuts(b: Bytes, pos: nat, es: seq<KeyValue>, rest: Bytes)
    requires pos <= |b| && (forall i :: 0 <= i < |es| ==> PutFits(es[i])) && b[pos..] <= EncodePuts(es) + rest
    ensures var k := Fit(es, |b| - pos); var r := ReadPuts(b, pos, |es|);
            && r.entries == es[..k]
            && r.end == (if pos + |EncodePuts(es)| <= |b| then Ok((), pos + |EncodePuts(es)|) else Eof)
            && (k == |es| <==> pos + |EncodePuts(es)| <= |b|)
    ensures pos + |EncodePuts(es)| <= |b| ==> b[pos + |EncodePuts(es)|..] <= rest
    decreases |es|
  {
    hide ReadPut, EncodePut;
    if es == [] {
      assert EncodePuts(es) + rest == rest;
    } else {
      var tail := EncodePuts(es[1..]);
      assert EncodePuts(es) + rest == EncodePut(es[0]) + (tail + rest);
      WrittenPut(b, pos, es[0], tail + rest);
      var next := pos + |EncodePut(es[0])|;
      if next <= |b| {
        WrittenPuts(b, next, es[1..], rest);
        assert es[..Fit(es, |b| - pos)] == [es[0]] + es[1..][..Fit(es[1..], |b| - next)];
      }
    }
  }

  lemma WrittenBatch(b: Bytes, pos: nat, es: seq<KeyValue>, rest: Bytes)
    requires pos <= |b| && es != [] && OpFits(Batch(es)) && b[pos..] <= EncodePuts(es) + (Write32(-|es|) + rest)
    ensures var next := pos + |EncodePuts(es)| + 4; var r := ReadBatch(b, pos, -|es|);
            && r.entries == es[..Fit(es, |b| - pos)]
            && r.end == (if next <= |b| then Ok((), next) else Eof)
            && (next <= |b| ==> r.entries == es && b[next..] <= rest)
  {
    hide ReadPuts, EncodePuts, ReadInt, Write32;
    WrittenPuts(b, pos, es, Write32(-|es|) + rest);
    var p := pos + |EncodePuts(es)|;
    if p <= |b| {
      WrittenInt(b, p, -|es|, rest);
      assert es[..|es|] == es;
    }
  }

  // ---- a log ----

  /** The bytes left over after the complete records. */
  ghost function Leftover(ops: seq<LogOp>, n: nat): nat {
    if ops == [] || n < |EncodeOp(ops[0])| then n else Leftover(ops[1..], n - |EncodeOp(ops[0])|)
  }

  /** `Complete` counts the longest run of whole records: with one more the prefix would be too short. */
  lemma {:induction false} CompleteIsLongest(ops: seq<LogOp>, n: nat)
    ensures var c := Complete(ops, n);
            && |EncodeLog(ops[..c])| + Leftover(ops, n) == n
            && (c < |ops| ==> Leftover(ops, n) < |EncodeOp(ops[c])|)
            && (c == |ops| <==> n >= |EncodeLog(ops)|)
  {
    hide EncodeOp;
    if ops != [] && n >= |EncodeOp(ops[0])| {
      var m := n - |EncodeOp(ops[0])|;
      CompleteIsLongest(ops[1..], m);
      var c := Complete(ops[1..], m);
      assert ops[..c + 1] == [ops[0]] + ops[1..][..c];
      assert ops[..c + 1][1..] == ops[1..][..c];
    }
  }

  /** The whole puts of a batch that was cut after n of its bytes. */
  ghost function PartOf(op: LogOp, n: nat): seq<KeyValue> {
    if op.Batch? && n >= 4 then op.entries[..Fit(op.entries, n - 4)] else []
  }

  /** What must be replayed from the first n bytes of a log. */
  ghost function Survivors(ops: seq<LogOp>, n: nat, mode: BatchReadMode): seq<KeyValue> {
    var c := Complete(ops, n);
    Puts(ops[..c]) + if c < |ops| && mode == ApplyPartial then PartOf(ops[c], Leftover(ops, n)) else []
  }

  lemma SurvivorsStep(ops: seq<LogOp>, n: nat, mode: BatchReadMode)
    requires ops != []
    ensures n >= |EncodeOp(ops[0])| ==>
              Survivors(ops, n, mode) == PutsOf(ops[0]) + Survivors(ops[1..], n - |EncodeOp(ops[0])|, mode)
    ensures n < |EncodeOp(ops[0])| ==>
              Survivors(ops, n, mode) == if mode == ApplyPartial then PartOf(ops[0], n) else []
  {
    hide EncodeOp, PutsOf, PartOf;
    if n >= |EncodeOp(ops[0])| {
      var c := Complete(ops[1..], n - |EncodeOp(ops[0])|);
      assert ops[..c + 1][1..] == ops[1..][..c];
    } else {
      assert ops[..0] == [];
    }
  }

  lemma ReadOp(b: Bytes, pos: nat, op: LogOp, rest: Bytes, mode: BatchReadMode)
    requires pos <= |b| && OpFits(op) && op != Batch([]) && b[pos..] <= EncodeOp(op) + rest
    ensures var next := pos + |EncodeOp(op)|;
            if next <= |b| then ReadLog(b, pos, mode) == PutsOf(op) + ReadLog(b, next, mode) && b[next..] <= rest
            else ReadLog(b, pos, mode) == if mode == ApplyPartial then PartOf(op, |b| - pos) else []
  {
    hide ReadBatch, Write32, EncodePut, EncodePuts, ReadPutAfter, PutFits, ReadInt, Fit;
    match op
    case Single(kv) =>
      WrittenPut(b, pos, kv, rest) by { assert PutFits(kv); }
      WrittenLength(b, pos, kv, rest);
    case Batch(es) =>
      var more := EncodePuts(es) + (Write32(-|es|) + rest);
      assert EncodeOp(op) + rest == Write32(-|es|) + more;
      WrittenInt(b, pos, -|es|, more);
      if pos + 4 <= |b| {
        WrittenBatch(b, pos + 4, es, rest);
      }
  }

  lemma WrittenLength(b: Bytes, pos: nat, kv: KeyValue, rest: Bytes)
    requires pos <= |b| && PutFits(kv) && b[pos..] <= EncodePut(kv) + rest
    ensures ReadInt(b, pos) == if pos + 4 <= |b| then Ok(|kv.key|, pos + 4) else Eof
  {
    hide Write32, ReadInt, EncodePut;
    Regroup(kv, rest);
    WrittenInt(b, pos, |kv.key|, kv.key + (Write32(|kv.value|) + (kv.value + rest)));
  }

  lemma {:induction false} ReplayFrom(b: Bytes, pos: nat, ops: seq<LogOp>, mode: BatchReadMode)
    requires pos <= |b| && LogFits(ops) && NoEmptyBatch(ops) && b[pos..] <= EncodeLog(ops)
    ensures ReadLog(b, pos, mode) == Survivors(ops, |b| - pos, mode)
    decreases |ops|
  {
    hide ReadLog, EncodeOp, Survivors, PutsOf, PartOf, OpFits;
    if ops == [] {
      NothingLeft(b, pos, mode);
    } else {
      assert OpFits(ops[0]);
      ReadOp(b, pos, ops[0], EncodeLog(ops[1..]), mode);
      SurvivorsStep(ops, |b| - pos, mode);
      var next := pos + |EncodeOp(ops[0])|;
      if next <= |b| {
        ReplayFrom(b, next, ops[1..], mode);
      }
    }
  }

  lemma NothingLeft(b: Bytes, pos: nat, mode: BatchReadMode)
    requires pos <= |b| && b[pos..] <= []
    ensures ReadLog(b, pos, mode) == [] == Survivors([], |b| - pos, mode)
  {
    assert |b[pos..]| == 0;
  }

  /**
   Cut anywhere, a log of puts and non-empty batches replays the longest run of whole records; a batch that was
   cut contributes nothing, or with applyPartial the puts of it that are whole.
   */
  lemma TruncatedReplay(ops: seq<LogOp>, n: nat, mode: BatchReadMode)
    requires LogFits(ops) && NoEmptyBatch(ops) && n <= |EncodeLog(ops)|
    ensures var c := Complete(ops, n); var replayed := ReadLog(EncodeLog(ops)[..n], 0, mode);
            && |EncodeLog(ops[..c])| + Leftover(ops, n) == n && (c < |ops| ==> Leftover(ops, n) < |EncodeOp(ops[c])|)
            && (mode != ApplyPartial || c == |ops| ==> replayed == Puts(ops[..c]))
            && (mode == ApplyPartial && c < |ops| ==> replayed == Puts(ops[..c]) + PartOf(ops[c], Leftover(ops, n)))
  {
    var b := EncodeLog(ops)[..n];
    assert b[0..] == b;
    ReplayFrom(b, 0, ops, mode);
    CompleteIsLongest(ops, n);
    hide ReadLog, EncodeLog, EncodeOp, Puts, PartOf, Leftover, Complete;
  }

  // ---- a batch whose end mark is wrong ----

  lemma {:induction false} ReplayWhole(b: Bytes, pos: nat, ops: seq<LogOp>, tail: Bytes, mode: BatchReadMode)
    requires pos <= |b| && LogFits(ops) && NoEmptyBatch(ops) && b[pos..] == EncodeLog(ops) + tail
    ensures pos + |EncodeLog(ops)| <= |b| && b[pos + |EncodeLog(ops)|..] == tail
    ensures ReadLog(b, pos, mode) == Puts(ops) + ReadLog(b, pos + |EncodeLog(ops)|, mode)
    decreases |ops|
  {
    hide ReadLog, EncodeOp, PutsOf, PartOf, OpFits;
    if ops == [] {
      assert EncodeLog(ops) + tail == tail;
    } else {
      var more := EncodeLog(ops[1..]) + tail;
      var next := pos + |EncodeOp(ops[0])|;
      assert OpFits(ops[0]);
      SplitTail(b, pos, EncodeOp(ops[0]), more);
      assert EncodeLog(ops) + tail == EncodeOp(ops[0]) + more;
      ReadOp(b, pos, ops[0], more, mode);
      ReplayWhole(b, next, ops[1..], tail, mode);
    }
  }

  lemma SplitTail(b: Bytes, pos: nat, a: Bytes, rest: Bytes)
    requires pos <= |b|
    ensures b[pos..] == a + rest ==> pos + |a| <= |b| && b[pos + |a|..] == rest
  {
    if b[pos..] == a + rest {
      assert b[pos + |a|..] == b[pos..][|a|..];
    }
  }

  /**
   A batch is closed by the number that opened it. If another number stands there, whatever was written before
   is replayed, and of the batch and what follows nothing; with applyPartial its puts are, and reading goes on.
   */
  lemma WrongEndMark(ops: seq<LogOp>, es: seq<KeyValue>, mark: int, rest: Bytes, mode: BatchReadMode)
    requires LogFits(ops) && NoEmptyBatch(ops) && es != [] && OpFits(Batch(es))
    requires -INT_LIMIT <= mark < INT_LIMIT && mark != -|es|
    ensures var head := EncodeLog(ops) + (Write32(-|es|) + (EncodePuts(es) + Write32(mark)));
            ReadLog(head + rest, 0, mode) ==
            Puts(ops) + if mode == ApplyPartial then es + ReadLog(head + rest, |head|, mode) else []
  {
    hide EncodeLog, Puts, ReadLog, Write32, EncodePuts, LogFits, NoEmptyBatch, OpFits;
    var tail := Write32(-|es|) + (EncodePuts(es) + Write32(mark));
    var b := EncodeLog(ops) + tail + rest;
    var pos := |EncodeLog(ops)|;
    assert b[0..] == EncodeLog(ops) + (tail + rest);
    ReplayWhole(b, 0, ops, tail + rest, mode);
    assert tail + rest == Write32(-|es|) + (EncodePuts(es) + (Write32(mark) + rest));
    ReadWrongMark(b, pos, es, mark, rest, mode);
  }

  lemma ReadWrongMark(b: Bytes, pos: nat, es: seq<KeyValue>, mark: int, rest: Bytes, mode: BatchReadMode)
    requires pos <= |b| && es != [] && OpFits(Batch(es)) && -INT_LIMIT <= mark < INT_LIMIT && mark != -|es|
    requires b[pos..] == Write32(-|es|) + (EncodePuts(es) + (Write32(mark) + rest))
    ensures pos + 8 + |EncodePuts(es)| <= |b|
    ensures ReadLog(b, pos, mode) ==
            if mode == ApplyPartial then es + ReadLog(b, pos + 8 + |EncodePuts(es)|, mode) else []
  {
    hide ReadPuts, EncodePuts, ReadInt, Write32, EncodePut, ReadPutAfter, Fit;
    var p := pos + 4;
    var q := p + |EncodePuts(es)|;
    WrittenInt(b, pos, -|es|, EncodePuts(es) + (Write32(mark) + rest));
    SplitTail(b, pos, Write32(-|es|), EncodePuts(es) + (Write32(mark) + rest));
    SplitTail(b, p, EncodePuts(es), Write32(mark) + rest);
    SplitTail(b, q, Write32(mark), rest);
    WrittenPuts(b, p, es, Write32(mark) + rest);
    WrittenInt(b, q, mark, rest);
    assert es[..|es|] == es;
    assert ReadBatch(b, p, -|es|) == BatchRead(es, Illegal(q + 4));
  }

  // ---- empty batches ----

  /** An empty batch is written as the very bytes of a put of nothing under the empty key. */
  function Seen(op: LogOp): LogOp {
    if op == Batch([]) then Single(EMPTY) else op
  }

  ghost function SeenAll(ops: seq<LogOp>): seq<LogOp> {
    if ops == [] then [] else [Seen(ops[0])] + SeenAll(ops[1..])
  }

  lemma {:induction false} SeenIsWritten(ops: seq<LogOp>)
    ensures EncodeLog(SeenAll(ops)) == EncodeLog(ops) && NoEmptyBatch(SeenAll(ops)) && |SeenAll(ops)| == |ops|
    ensures LogFits(ops) ==> LogFits(SeenAll(ops))
    ensures |Puts(SeenAll(ops))| >= |Puts(ops)|
    ensures |Puts(SeenAll(ops))| == |Puts(ops)| <==> NoEmptyBatch(ops)
    ensures NoEmptyBatch(ops) ==> SeenAll(ops) == ops
  {
    hide EncodeOp, Write32, NoEmptyBatch, OpFits, LogFits, Seen;
    if ops == [] {
      NoOps();
    } else {
      SeenIsWritten(ops[1..]);
      SeenOp(ops[0]);
      assert ops == [ops[0]] + ops[1..];
      assert SeenAll(ops)[1..] == SeenAll(ops[1..]);
      OpsSplit(ops);
      OpsSplit(SeenAll(ops));
    }
  }

  lemma NoOps()
    ensures NoEmptyBatch([]) && LogFits([])
  {
  }

  lemma OpsSplit(ops: seq<LogOp>)
    requires ops != []
    ensures NoEmptyBatch(ops) <==> ops[0] != Batch([]) && NoEmptyBatch(ops[1..])
    ensures LogFits(ops) <==> OpFits(ops[0]) && LogFits(ops[1..])
  {
    hide OpFits;
    assert ops == [ops[0]] + ops[1..];
  }

  lemma SeenOp(op: LogOp)
    ensures EncodeOp(Seen(op)) == EncodeOp(op) && Seen(op) != Batch([])
    ensures |PutsOf(Seen(op))| == |PutsOf(op)| + if op == Batch([]) then 1 else 0
    ensures (OpFits(op) ==> OpFits(Seen(op))) && (op != Batch([]) ==> Seen(op) == op)
  {
    EmptyBatchIsEmptyPut();
    hide EncodeOp;
  }

  lemma EmptyBatchIsEmptyPut()
    ensures EncodeOp(Batch([])) == EncodeOp(Single(EMPTY))
  {
  }

  /** An uncut log replays every put, in every mode, exactly when no batch was empty. */
  lemma FullReplayExactlyWhen(ops: seq<LogOp>, mode: BatchReadMode)
    requires LogFits(ops)
    ensures ReadLog(EncodeLog(ops), 0, mode) == Puts(SeenAll(ops))
    ensures ReadLog(EncodeLog(ops), 0, mode) == Puts(ops) <==> NoEmptyBatch(ops)
  {
    SeenIsWritten(ops);
    var seen := SeenAll(ops);
    hide ReadLog, EncodeLog, EncodeOp, SeenAll, Puts, LogFits, NoEmptyBatch, PartOf;
    var n := |EncodeLog(seen)|;
    assert EncodeLog(seen)[..n] == EncodeLog(seen);
    TruncatedReplay(seen, n, mode);
    CompleteIsLongest(seen, n);
    assert seen[..|seen|] == seen;
  }
}
