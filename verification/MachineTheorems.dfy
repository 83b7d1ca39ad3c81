/** What holds of every run of the machine, and of exactly which steps. */
module MachineTheorems {
  import opened Bytes
  import opened KeyValues
  import opened KeyFormat
  import opened Views
  import opened Listings
  import opened Machine
  import opened MachineRuns

  // ---- the merger ----

  /**
   Whenever a merge is under way, the copied list is still a prefix of the current one, so "unexpected segment
   change" cannot happen.
   */
  lemma CommitFindsItsWindow(s: Db, steps: seq<Step>)
    requires Inv(s) && s.merge.Idle? && s.fault == NoFault && AllSound(steps)
    ensures var t := Run(s, steps);
            && t.fault != UnexpectedChange
            && (t.merge.Merging? ==>
               t.merge.read <= t.segments && t.merge.start + t.merge.count <= |t.merge.read| && WindowUnchanged(t))
  {
    hide RefsOk, IDsOk, Sound, Effects, ViewOfAll;
    RunIsFold(s, steps);
    hide Run;
  }

  /** The merger's steps for a window: the list, its segments one by one, the commit. */
  ghost function MergeSteps(start: nat, count: nat): seq<Step> {
    LoadSteps(start, count, count) + [MergeCommit]
  }

  ghost function LoadSteps(start: nat, count: nat, n: nat): (steps: seq<Step>)
    ensures |steps| == n + 1
  {
    if n == 0 then [MergeRead(start, count)] else LoadSteps(start, count, n - 1) + [MergeLoad(n - 1)]
  }

  lemma {:induction false} LoadsHappen(s: Db, start: nat, count: nat, n: nat)
    requires Inv(s) && s.fault == NoFault && s.merge.Idle? && 2 <= count && start + count <= |s.segments| && n <= count
    ensures var t := Run(s, LoadSteps(start, count, n));
            && Inv(t) && t.fault == NoFault && InHeap(s) && InHeap(t) && Listing(t) == Listing(s)
            && t.merge.Merging? && t.merge.start == start && t.merge.count == count
            && forall i :: 0 <= i < n ==> i in t.merge.loaded
    decreases n
  {
    hide Inv, Next;
    InvInHeap(s);
    var steps := LoadSteps(start, count, n);
    if n == 0 {
      assert steps[..0] == [];
      ReadBegins(s, start, count);
    } else {
      LoadsHappen(s, start, count, n - 1);
      assert steps[..n] == LoadSteps(start, count, n - 1);
      LoadsOne(Run(s, LoadSteps(start, count, n - 1)), n - 1);
    }
  }

  lemma ReadBegins(s: Db, start: nat, count: nat)
    requires Inv(s) && s.fault == NoFault && s.merge.Idle? && 2 <= count && start + count <= |s.segments|
    ensures var t := Next(s, MergeRead(start, count));
            && Inv(t) && t.fault == NoFault && InHeap(s) && InHeap(t) && Listing(t) == Listing(s)
            && t.merge == Merging(s.segments, start, count, map[])
  {
    MergeStepsKeep(s, MergeRead(start, count));
    hide RefsOk, IDsOk, MergeInv;
  }

  lemma LoadsOne(u: Db, i: nat)
    requires Inv(u) && u.fault == NoFault && u.merge.Merging? && i < u.merge.count
    ensures var t := Next(u, MergeLoad(i));
            && Inv(t) && t.fault == NoFault && InHeap(u) && InHeap(t) && Listing(t) == Listing(u)
            && t.merge.Merging? && t.merge.start == u.merge.start && t.merge.count == u.merge.count
            && t.merge.loaded.Keys == u.merge.loaded.Keys + {i}
  {
    MergeStepsKeep(u, MergeLoad(i));
    hide Fetch, Commit, Reopened, PutAll, Swap;
    assert Clean(u.heap[u.merge.read[u.merge.start + i]]);
  }

  /**
   A merge takes place: in whatever state and for whatever window, these steps put the merged segment in its
   place.
   */
  lemma MergeHappens(s: Db, start: nat, count: nat)
    requires Inv(s) && s.fault == NoFault && s.merge.Idle? && 2 <= count && start + count <= |s.segments|
    ensures var t := Run(s, MergeSteps(start, count));
            && Inv(t) && t.fault == NoFault && t.merge.Idle? && InHeap(s) && InHeap(t)
            && start + count < |Listing(s)| && Listing(t) == AfterMerge(Listing(s), start, count)
  {
    LoadsHappen(s, start, count, count);
    var steps := MergeSteps(start, count);
    var u := Run(s, LoadSteps(start, count, count));
    assert steps[..|steps| - 1] == LoadSteps(start, count, count);
    hide Inv, Run, AfterMerge;
    InvInHeap(s);
    AllAreLoaded(u);
    CommitKeeps(u);
    assert Able(u) by { InvIsAble(u); }
    InvInHeap(Commit(u));
    CommitEnds(u);
    RunLast(s, steps);
  }

  lemma RunLast(s: Db, steps: seq<Step>)
    requires steps != []
    ensures Run(s, steps) == Next(Run(s, steps[..|steps| - 1]), steps[|steps| - 1])
  {
    hide Next;
  }

  lemma AllAreLoaded(u: Db)
    requires u.merge.Merging? && forall i :: 0 <= i < u.merge.count ==> i in u.merge.loaded
    ensures AllLoaded(u)
  {
  }

  lemma InvIsAble(s: Db)
    requires Inv(s)
    ensures Able(s)
  {
  }

  lemma CommitEnds(u: Db)
    requires Inv(u) && AllLoaded(u) && u.fault == NoFault
    ensures Next(u, MergeCommit) == Commit(u) && Commit(u).merge.Idle?
  {
    hide MergedEntries, Loaded;
  }

  // ---- snapshots and iterators ----

  /** Frozen: in the heap, and not the segment that clients write to. */
  ghost predicate Frozen(s: Db, refs: seq<Ref>) {
    forall i :: 0 <= i < |refs| ==> refs[i] in s.heap && refs[i] != s.memory
  }

  lemma {:induction false} FrozenForever(s: Db, steps: seq<Step>, refs: seq<Ref>)
    requires Inv(s) && s.fault == NoFault && AllSound(steps) && Frozen(s, refs)
    ensures Frozen(Run(s, steps), refs) && Look(Run(s, steps).heap, refs) == Look(s.heap, refs)
    decreases |steps|
  {
    hide RefsOk, IDsOk, MergeInv, Able, Effect, Next, Sound, Look;
    if steps != [] {
      var front, last := steps[..|steps| - 1], steps[|steps| - 1];
      FrozenForever(s, front, refs);
      var u := Run(s, front);
      RunIsFold(s, front);
      if u.fault == NoFault {
        StepIsSound(u, last);
        LookFrame(u.heap, Next(u, last).heap, refs);
      } else {
        FaultStays(u, last);
      }
    }
  }

  /** The segments of a snapshot hold what they held when it was taken, whatever happens afterwards. */
  lemma SnapshotIsConstant(s: Db, steps: seq<Step>)
    requires Inv(s) && s.fault == NoFault && AllSound(steps)
    ensures var refs := s.segments + [s.memory]; var taken := Next(s, Snapshot);
            && Inv(taken) && taken.segments == refs
            && (forall i :: 0 <= i < |refs| ==> refs[i] in Run(taken, steps).heap)
            && Look(Run(taken, steps).heap, refs) == Listing(s)
            && ViewOfAll(Look(Run(taken, steps).heap, refs)) == View(s)
  {
    var refs, taken := s.segments + [s.memory], Next(s, Snapshot);
    StepIsSound(s, Snapshot);
    SwapFreezes(s);
    hide RefsOk, IDsOk, MergeInv, Able, Look, Run, ViewOfAll;
    FrozenForever(taken, steps, refs);
    LookFrame(s.heap, taken.heap, refs);
  }

  lemma SwapFreezes(s: Db)
    requires Inv(s) && s.fault == NoFault
    ensures var taken := Next(s, Snapshot); var refs := s.segments + [s.memory];
            && taken == Swap(s) && Frozen(taken, refs)
            && forall i :: 0 <= i < |refs| ==>
               refs[i] in s.heap && refs[i] in taken.heap && taken.heap[refs[i]] == s.heap[refs[i]]
  {
    InvMeans(s);
  }

  /** next of an iterator over some segments: the first pair of the merged range after the last key it delivered. */
  ghost function IterNext(items: seq<Item>, lower: Bytes, upper: Bytes, last: Option<Bytes>): KeyValue {
    var range := Range(Merged(EntriesOf(Seen(items))), lower, upper);
    First(map k | k in range && (last.None? || Less(last.value, k)) :: range[k])
  }

  ghost function LookIfThere(heap: map<Ref, Item>, refs: seq<Ref>): seq<Item> {
    if forall i :: 0 <= i < |refs| ==> refs[i] in heap then Look(heap, refs) else []
  }

  /** The pairs that an iterator over refs delivers when its i-th next comes after times[i] steps of the run. */
  ghost function Reads(s: Db, steps: seq<Step>, refs: seq<Ref>, lower: Bytes, upper: Bytes,
                       times: seq<nat>): (pairs: seq<KeyValue>)
    requires forall i :: 0 <= i < |times| ==> times[i] <= |steps|
    ensures |pairs| == |times|
  {
    if times == [] then []
    else
      var n := |times| - 1;
      var before := Reads(s, steps, refs, lower, upper, times[..n]);
      var last := if n == 0 then None else Some(before[n - 1].key);
      before + [IterNext(LookIfThere(Run(s, steps[..times[n]]).heap, refs), lower, upper, last)]
  }

  /** The same pairs, all read from the items of one moment. */
  ghost function ReadsAtOnce(items: seq<Item>, lower: Bytes, upper: Bytes, n: nat): (pairs: seq<KeyValue>)
    ensures |pairs| == n
  {
    if n == 0 then []
    else
      var before := ReadsAtOnce(items, lower, upper, n - 1);
      before + [IterNext(items, lower, upper, if n == 1 then None else Some(before[n - 2].key))]
  }

  /** An iterator over a snapshot delivers the same pairs whenever it is asked for them. */
  lemma {:induction false} IteratorIsConstant(s: Db, steps: seq<Step>, lower: Bytes, upper: Bytes, times: seq<nat>)
    requires Inv(s) && s.fault == NoFault && AllSound(steps) && forall i :: 0 <= i < |times| ==> times[i] <= |steps|
    ensures InHeap(s)
    ensures var refs := s.segments + [s.memory];
            Reads(Next(s, Snapshot), steps, refs, lower, upper, times) == ReadsAtOnce(Listing(s), lower, upper, |times|)
    decreases |times|
  {
    hide Inv, AllSound, Look, LookIfThere, Run, IterNext, Next;
    InvInHeap(s);
    if times != [] {
      var n := |times| - 1;
      IteratorIsConstant(s, steps, lower, upper, times[..n]);
      SnapshotSeen(s, steps, times[n]);
    }
  }

  lemma SnapshotSeen(s: Db, steps: seq<Step>, time: nat)
    requires Inv(s) && s.fault == NoFault && AllSound(steps) && time <= |steps|
    ensures InHeap(s) && LookIfThere(Run(Next(s, Snapshot), steps[..time]).heap, s.segments + [s.memory]) == Listing(s)
  {
    hide RefsOk, IDsOk, MergeInv, Look, Run, Next, Sound, ViewOfAll;
    SnapshotIsConstant(s, steps[..time]);
  }

  // ---- which steps are safe ----

  /** After the step, whatever sound steps follow, the database means what its clients did. */
  ghost predicate FoldsWith(s: Db, step: Step, rest: seq<Step>)
    requires InHeap(s)
  {
    var t := Run(s, [step] + rest);
    t.fault == NoFault ==> View(t) == Some(Effects(ViewOf(Listing(s)), [step] + rest))
  }

  ghost predicate SafeInEveryRun(step: Step) {
    forall s: Db, rest: seq<Step> {:trigger FoldsWith(s, step, rest)} ::
      Inv(s) && s.fault == NoFault && AllSound(rest) ==> FoldsWith(s, step, rest)
  }

  lemma SoundIsSafe(s: Db, step: Step, rest: seq<Step>)
    requires Sound(step) && Inv(s) && s.fault == NoFault && AllSound(rest)
    ensures FoldsWith(s, step, rest)
  {
    hide Sound, RefsOk, IDsOk, MergeInv, Able, Run, Effects;
    var steps := [step] + rest;
    assert AllSound(steps);
    RunIsFold(s, steps);
  }

  lemma RunStep(s: Db, steps: seq<Step>, i: nat)
    requires i < |steps|
    ensures Run(s, steps[..i + 1]) == Next(Run(s, steps[..i]), steps[i])
  {
    hide Next;
    assert steps[..i + 1][..i] == steps[..i];
  }

  lemma RunOfTwo(s: Db, a: Step, b: Step)
    ensures Run(s, [a, b]) == Next(Next(s, a), b)
  {
    hide Next;
    var steps := [a, b];
    assert Run(s, steps[..0]) == s;
    RunStep(s, steps, 0);
    RunStep(s, steps, 1);
    assert steps[..2] == steps;
  }

  /** A key over the limit makes the file that the next close writes unreadable. */
  lemma LongKeyEndsLookups(t: Db, k: Bytes)
    requires Able(t) && t.fault == NoFault && t.merge.Idle? && HeapBelow(t.heap, t.nextRef)
    requires k in t.heap[t.memory].entries && |k| > MAX_KEY_SIZE && [] !in t.heap[t.memory].entries
    ensures View(Next(t, Reopen)) == None
  {
    var items := Listing(t);
    var n := |items| - 1;
    var seen := Seen(items);
    var after := AfterReopen(seen);
    hide Seen;
    FlushedAll(seen);
    assert seen[n].entries == items[n].entries && items[n] == t.heap[t.memory];
    NewRefs(t.nextRef, |after|);
    PlacedListing(t.heap, Next(t, Reopen).heap, Refs(t.nextRef, |after| - 1), t.nextRef + |after| - 1, after,
      t.nextRef);
    var i := |Flushed(seen)| - 1;
    assert after[i].entries == items[n].entries && after[i].onDisk && k in after[i].entries;
    assert !Decodable(after[i]);
  }

  lemma FlushedAll(items: seq<Item>)
    requires items != [] && items[|items| - 1].entries != map[]
    ensures Flushed(items) != [] && Flushed(items)[|Flushed(items)| - 1] == items[|items| - 1].(onDisk := true)
  {
  }

  /** A new database after a first write. */
  lemma FirstWrite(es: seq<KeyValue>, swap: bool)
    ensures var t := PutAll(MaybeSwap(Fresh(), swap), es);
            && Able(t) && t.fault == NoFault && t.merge.Idle? && HeapBelow(t.heap, t.nextRef)
            && t.heap[t.memory].entries == MapOf(es)
            && (forall r :: r in t.heap ==> !t.heap[r].onDisk && (r == t.memory || t.heap[r].entries == map[]))
  {
    hide MapOf;
    assert map[] + MapOf(es) == MapOf(es);
  }

  lemma {:induction false} MapOfKeys(es: seq<KeyValue>, k: Bytes)
    ensures k in MapOf(es) <==> exists i :: 0 <= i < |es| && es[i].key == k
    decreases |es|
  {
    if es != [] {
      var front := es[..|es| - 1];
      MapOfKeys(front, k);
      hide MapOf;
      assert forall i :: 0 <= i < |front| ==> front[i] == es[i];
      if i :| 0 <= i < |es| && es[i].key == k {
        assert i < |front| ==> front[i].key == k;
      }
    }
  }

  /** A key of more than 1000 bytes, put or written: after the next close and open nothing can be iterated. */
  lemma LongKeyBreaksView(step: Step, es: seq<KeyValue>, k: Bytes)
    requires (step.Put? && CheckKey(step.key) && es == [KeyValue(step.key, step.value)]) ||
             (step.Write? && es == step.batch)
    requires k in MapOf(es) && |k| > MAX_KEY_SIZE && [] !in MapOf(es)
    ensures var t := Run(Fresh(), [step, Reopen]); View(t) == None && t.fault == NoFault
  {
    var t := PutAll(MaybeSwap(Fresh(), step.swap), es);
    FirstWrite(es, step.swap);
    RunOfTwo(Fresh(), step, Reopen);
    hide MapOf, ViewOfAll;
    assert Next(Fresh(), step) == t;
    LongKeyEndsLookups(t, k);
  }

  /** The same through a merge: a legal key of 1001 to 1024 bytes, and no iterator gets past the merged file. */
  lemma LongKeyBreaksMerge(k: Bytes, v: Bytes)
    requires CheckKey(k) && |k| > MAX_KEY_SIZE && v != []
    ensures var steps := [Put(k, v, false), Snapshot, Snapshot, MergeRead(0, 2), MergeLoad(0), MergeLoad(1),
                          MergeCommit];
            Run(Fresh(), steps).fault == NoFault && View(Run(Fresh(), steps)) == None
  {
    hide Next, Run, ViewOfAll;
    var steps := [Put(k, v, false), Snapshot, Snapshot, MergeRead(0, 2), MergeLoad(0), MergeLoad(1), MergeCommit];
    RunOfSeven(Fresh(), steps);
    var s := Next(Next(Next(Fresh(), steps[0]), Snapshot), Snapshot);
    var x := Item(1, 1, map[k := v], false);
    PutAndSnapshots(k, v);
    LoadsOfTwo(s, x);
    LongCommit(s.(merge := Merging([0, 1], 0, 2, map[0 := x.entries, 1 := map[]])), x, k);
  }

  lemma PutAndSnapshots(k: Bytes, v: Bytes)
    requires CheckKey(k)
    ensures var s := Next(Next(Next(Fresh(), Put(k, v, false)), Snapshot), Snapshot);
            && s.heap == map[0 := Item(1, 1, map[k := v], false), 1 := NewMemory(2), 2 := NewMemory(3)] &&
               s.segments == [0, 1] && s.memory == 2
            && s.nextRef == 3 && s.merge == Idle && s.fault == NoFault
  {
    var es := [KeyValue(k, v)];
    assert es[..0] == [];
    assert map[] + MapOf(es) == map[k := v];
    hide MapOf;
    var s := Next(Fresh(), Put(k, v, false));
    assert s.heap == map[0 := Item(1, 1, map[k := v], false)];
  }

  lemma LongCommit(s: Db, x: Item, k: Bytes)
    requires s.heap == map[0 := x, 1 := NewMemory(2), 2 := NewMemory(3)] && s.segments == [0, 1] && s.memory == 2 &&
             s.nextRef == 3
    requires s.merge == Merging([0, 1], 0, 2, map[0 := x.entries, 1 := map[]]) && s.fault == NoFault
    requires k in x.entries && x.entries[k] != [] && |k| > MAX_KEY_SIZE && [] !in x.entries
    ensures var t := Next(s, MergeCommit); t.fault == NoFault && View(t) == None
  {
    hide Merged, MergedEntries, Visible, Reopened, PutAll, Swap, Fetch, Decodable, ViewOf, Seen;
    var ms := Loaded(s.merge.loaded, 2);
    VisibleWithout(x.entries);
    VisibleWithout(map[]);
    assert ms == [x.entries] + [map[]];
    KeyIsMerged(x.entries, k);
    var t := Next(s, MergeCommit);
    assert t.segments == [3] && t.heap[3].onDisk && k in t.heap[3].entries;
    assert Listing(t)[0] == t.heap[3];
    LongIsUndecodable(t.heap[3], k);
  }

  lemma VisibleWithout(m: Entries)
    requires [] !in m
    ensures Visible(m) == m
  {
  }

  lemma KeyIsMerged(m: Entries, k: Bytes)
    requires k in m && m[k] != []
    ensures k in MergedEntries([m] + [map[]], true)
  {
    MergedConcat([m], [map[]]);
    SingleMerged(m);
    SingleMerged(map[]);
  }

  lemma LongIsUndecodable(x: Item, k: Bytes)
    requires x.onDisk && k in x.entries && |k| > MAX_KEY_SIZE
    ensures !Decodable(x)
  {
  }

  const ONE: Bytes := [1]

  /** A batch with the empty key: what is put next, in the same memory segment, cannot be seen. */
  lemma EmptyKeyHidesSegment(batch: seq<KeyValue>, swap: bool, i: nat)
    requires i < |batch| && batch[i].key == []
    ensures var t := Run(Fresh(), [Write(batch, swap), Put(ONE, ONE, false)]);
            t.fault == NoFault && View(t) == Some(map[]) &&
              ONE in Effects(map[], [Write(batch, swap), Put(ONE, ONE, false)])
  {
    var es := [KeyValue(ONE, ONE)];
    var u := PutAll(MaybeSwap(Fresh(), swap), batch);
    FirstWrite(batch, swap);
    MapOfKeys(batch, []);
    var t := PutAll(u, es);
    var steps := [Write(batch, swap), Put(ONE, ONE, false)];
    RunOfTwo(Fresh(), steps[0], steps[1]);
    assert [] in t.heap[t.memory].entries;
    assert Effects(map[], steps) == PutLive(Effects(map[], steps[..1]), ONE, ONE);
    hide MapOf, PutsLive, Effects;
    assert Next(Fresh(), steps[0]) == u && Next(u, steps[1]) == t;
    NothingVisible(t);
  }

  lemma NothingVisible(t: Db)
    requires InHeap(t) && forall r :: r in t.heap ==> !t.heap[r].onDisk && Visible(t.heap[r].entries) == map[]
    ensures View(t) == Some(map[])
  {
    var items := Seen(Listing(t));
    assert forall i :: 0 <= i < |items| ==> items[i].entries == map[];
    assert forall i :: 0 <= i < |items| ==> Decodable(Listing(t)[i]);
    hide Seen;
    AllEmpty(items);
  }

  lemma {:induction false} AllEmpty(items: seq<Item>)
    requires forall i :: 0 <= i < |items| ==> items[i].entries == map[]
    ensures Merged(EntriesOf(items)) == map[] && ViewOf(items) == map[]
    decreases |items|
  {
    if items != [] {
      AllEmpty(items[..|items| - 1]);
    }
  }

  /**
   Exactly which steps are safe in every state and before every continuation: a put, if checkKey lets its key
   pass, must have a key of at most 1000 bytes, and so must a batch, which in addition must not have the empty one.
   */
  lemma StepIsSafeExactlyWhen(step: Step)
    ensures SafeInEveryRun(step) <==> Sound(step)
  {
    hide FoldsWith, Sound, AllSound, Inv;
    if Sound(step) {
      forall s: Db, rest: seq<Step> | Inv(s) && s.fault == NoFault && AllSound(rest)
        ensures InHeap(s) && FoldsWith(s, step, rest)
      {
        InvInHeap(s);
        SoundIsSafe(s, step, rest);
      }
    } else {
      var rest := UnsoundBreaks(step);
      assert !FoldsWith(Fresh(), step, rest);
    }
  }

  lemma UnsoundBreaks(step: Step) returns (rest: seq<Step>)
    requires !Sound(step)
    ensures Inv(Fresh()) && Fresh().fault == NoFault && AllSound(rest) && !FoldsWith(Fresh(), step, rest)
  {
    FreshIsSound();
    FreshView();
    hide MapOf, ViewOfAll, Inv, ViewOf, Next, Run, Effects;
    var es := if step.Put? then [KeyValue(step.key, step.value)] else step.batch;
    if i :| 0 <= i < |es| && es[i].key == [] {
      rest := [Put(ONE, ONE, false)];
      EmptyKeyHidesSegment(step.batch, step.swap, i);
      assert step.Write? && [step] + rest == [step, Put(ONE, ONE, false)];
    } else {
      rest := [Reopen];
      var i :| 0 <= i < |es| && |es[i].key| > MAX_KEY_SIZE;
      MapOfKeys(es, es[i].key);
      MapOfKeys(es, []);
      LongKeyBreaksView(step, es, es[i].key);
      assert [step] + rest == [step, Reopen];
    }
  }

  lemma FreshView()
    ensures InHeap(Fresh()) && ViewOf(Listing(Fresh())) == map[]
  {
    AllEmpty(Listing(Fresh()));
  }

  // ---- empty files ----

  /**
   Two snapshots of an idle database, a merge of the empty memory segments they left, and a remove: get reads
   where nothing is mapped.
   */
  lemma EmptyMergeFaults(k: Bytes)
    requires CheckKey(k)
    ensures var steps := [Snapshot, Snapshot, MergeRead(0, 2), MergeLoad(0), MergeLoad(1), MergeCommit,
                          Remove(k, false)];
            AllSound(steps) && Run(Fresh(), steps).fault == BadRead
  {
    hide Next, Run;
    var steps := [Snapshot, Snapshot, MergeRead(0, 2), MergeLoad(0), MergeLoad(1), MergeCommit, Remove(k, false)];
    RunOfSeven(Fresh(), steps);
    var s2 := Next(Next(Fresh(), Snapshot), Snapshot);
    TwoSnapshots();
    LoadsOfTwo(s2, NewMemory(1));
    EmptyCommit(s2.(merge := Merging([0, 1], 0, 2, map[0 := map[], 1 := map[]])), k);
  }

  lemma TwoSnapshots()
    ensures var s := Next(Next(Fresh(), Snapshot), Snapshot);
            && s.segments == [0, 1] && s.memory == 2 &&
               s.heap == map[0 := NewMemory(1), 1 := NewMemory(2), 2 := NewMemory(3)] && s.nextRef == 3
            && s.merge == Idle && s.fault == NoFault
  {
  }

  lemma RunOfSeven(s: Db, steps: seq<Step>)
    requires |steps| == 7
    ensures var s4 := Next(Next(Next(Next(s, steps[0]), steps[1]), steps[2]), steps[3]);
            Run(s, steps) == Next(Next(Next(s4, steps[4]), steps[5]), steps[6])
  {
    hide Next;
    assert Run(s, steps[..0]) == s;
    RunStep(s, steps, 0);
    RunStep(s, steps, 1);
    RunStep(s, steps, 2);
    RunStep(s, steps, 3);
    RunStep(s, steps, 4);
    RunStep(s, steps, 5);
    RunStep(s, steps, 6);
    assert steps[..7] == steps;
  }

  lemma LoadsOfTwo(s: Db, x: Item)
    requires s.heap == map[0 := x, 1 := NewMemory(2), 2 := NewMemory(3)] && !x.onDisk && s.segments == [0, 1] &&
             s.memory == 2
    requires s.merge == Idle && s.fault == NoFault
    ensures Next(Next(Next(s, MergeRead(0, 2)), MergeLoad(0)), MergeLoad(1)) ==
            s.(merge := Merging([0, 1], 0, 2, map[0 := x.entries, 1 := map[]]))
  {
    var s3 := Next(s, MergeRead(0, 2));
    assert s3 == s.(merge := Merging([0, 1], 0, 2, map[]));
    var s4 := Next(s3, MergeLoad(0));
    assert s4 == s.(merge := Merging([0, 1], 0, 2, map[0 := x.entries]));
  }

  lemma EmptyCommit(s: Db, k: Bytes)
    requires s.heap == map[0 := NewMemory(1), 1 := NewMemory(2), 2 := NewMemory(3)] && s.segments == [0, 1] &&
             s.memory == 2 && s.nextRef == 3
    requires s.merge == Merging([0, 1], 0, 2, map[0 := map[], 1 := map[]]) && s.fault == NoFault && CheckKey(k)
    ensures Next(Next(s, MergeCommit), Remove(k, false)).fault == BadRead
  {
    var t := Next(s, MergeCommit);
    var ms := Loaded(s.merge.loaded, 2);
    assert ms == [map[]] + [map[]];
    MergedConcat([map[]], [map[]]);
    SingleMerged(map[]);
    assert MergedEntries(ms, true) == map[];
    hide Merged, MergedEntries;
    assert t.segments == [3] && t.heap[3] == Item(1, 2, map[], true) && t.memory == 2 && t.heap[2] == NewMemory(3);
    var items := Listing(t);
    assert items[..1][..0] == [];
    assert Fetch(items[..1], k) == UnmappedRead;
  }
}
