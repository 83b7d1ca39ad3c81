/**
 What clients read while others go on. A get takes no lock: it captures the segment list and then reads one
 segment after the other, newest first, while puts, swaps, merges and commits happen in between.
 */
module MachineReads {
  import opened Bytes
  import opened KeyValues
  import opened Views
  import opened Listings
  import opened Machine
  import opened MachineRuns
  import opened MachineTheorems

  // ---- a get among the steps of a run ----

  /**
   What a get finds in the segments it has captured, segment i being read after times[i] steps. It reads
   the last one first, and stops at the first value that is not empty.
   */
  ghost function ReadsBack(s: Db, steps: seq<Step>, refs: seq<Ref>, k: Bytes, times: seq<nat>): Fetched
    requires |times| == |refs| && forall i :: 0 <= i < |times| ==> times[i] <= |steps|
  {
    if refs == [] then Value([])
    else
      var n := |refs| - 1;
      match Fetch(LookIfThere(Run(s, steps[..times[n]]).heap, [refs[n]]), k)
      case UnmappedRead => UnmappedRead
      case Value(v) => if v != [] then Value(v) else ReadsBack(s, steps, refs[..n], k, times[..n])
  }

  lemma FetchStep(items: seq<Item>, k: Bytes)
    requires items != []
    ensures var n := |items| - 1;
            Fetch(items, k) == match Fetch([items[n]], k)
                               case UnmappedRead => UnmappedRead
                               case Value(v) => if v != [] then Value(v) else Fetch(items[..n], k)
  {
    var one := [items[|items| - 1]];
    assert one[..0] == [];
  }

  lemma {:induction false} FrozenReads(s: Db, steps: seq<Step>, refs: seq<Ref>, k: Bytes, times: seq<nat>)
    requires Inv(s) && s.fault == NoFault && AllSound(steps) && Frozen(s, refs)
    requires |times| == |refs| && forall i :: 0 <= i < |times| ==> times[i] <= |steps|
    ensures ReadsBack(s, steps, refs, k, times) == Fetch(Look(s.heap, refs), k)
    decreases |refs|
  {
    hide Inv, Run, Fetch, Sound;
    if refs == [] {
      NothingRead(k);
    } else {
      var n := |refs| - 1;
      FrozenForever(s, steps[..times[n]], [refs[n]]);
      FrozenReads(s, steps, refs[..n], k, times[..n]);
      FetchStep(Look(s.heap, refs), k);
      assert Look(s.heap, refs)[..n] == Look(s.heap, refs[..n]);
      assert LookIfThere(Run(s, steps[..times[n]]).heap, [refs[n]]) == [Look(s.heap, refs)[n]];
    }
  }

  lemma NothingRead(k: Bytes)
    ensures Fetch([], k) == Value([])
  {
  }

  lemma CapturedFrozen(s: Db)
    requires Inv(s)
    ensures Frozen(s, s.segments) && s.memory in s.heap
  {
  }

  /**
   However its reads are spread over the run, a get answers from its segments as they were when it read the first
   of them.
   */
  lemma GetReadsOneMoment(s: Db, steps: seq<Step>, k: Bytes, times: seq<nat>)
    requires Inv(s) && s.fault == NoFault && AllSound(steps)
    requires |times| == |s.segments| + 1 && forall i :: 0 <= i < |times| ==> times[i] <= |steps|
    ensures var refs := s.segments + [s.memory];
            ReadsBack(s, steps, refs, k, times) ==
              Fetch(LookIfThere(Run(s, steps[..times[|s.segments|]]).heap, refs), k)
  {
    hide Inv, Run, Fetch, Sound, Frozen;
    var refs, n := s.segments + [s.memory], |s.segments|;
    var heap := Run(s, steps[..times[n]]).heap;
    CapturedFrozen(s);
    FrozenForever(s, steps[..times[n]], s.segments);
    FrozenReads(s, steps, s.segments, k, times[..n]);
    StaysInHeap(s, steps[..times[n]]);
    FrozenInHeap(Run(s, steps[..times[n]]), s.segments);
    assert LookIfThere(heap, refs) == Look(heap, s.segments) + [heap[s.memory]];
    var items := Look(heap, s.segments) + [heap[s.memory]];
    FetchStep(items, k);
    assert items[..n] == Look(s.heap, s.segments) && items[n] == heap[s.memory];
    assert refs[..n] == s.segments && LookIfThere(heap, [refs[n]]) == [items[n]];
  }

  lemma FrozenInHeap(s: Db, refs: seq<Ref>)
    requires Frozen(s, refs)
    ensures forall i :: 0 <= i < |refs| ==> refs[i] in s.heap
  {
  }

  lemma {:induction false} StaysInHeap(s: Db, steps: seq<Step>)
    requires Inv(s) && s.fault == NoFault && AllSound(steps)
    ensures s.memory in Run(s, steps).heap
    decreases |steps|
  {
    hide RefsOk, IDsOk, MergeInv, Able, Next, Sound, Effects, ViewOf;
    if steps == [] {
      CapturedFrozen(s);
    } else {
      var front, last := steps[..|steps| - 1], steps[|steps| - 1];
      StaysInHeap(s, front);
      RunIsFold(s, front);
      var u := Run(s, front);
      if u.fault == NoFault {
        StepIsSound(u, last);
      } else {
        FaultStays(u, last);
      }
    }
  }

  // ---- which moment that is ----

  ghost predicate NoCommit(steps: seq<Step>) {
    forall i :: 0 <= i < |steps| ==> !steps[i].MergeCommit?
  }

  ghost predicate NoReopen(steps: seq<Step>) {
    forall i :: 0 <= i < |steps| ==> !steps[i].Reopen?
  }

  /** The memory segment is still the same, and so is the list but for commits. */
  ghost predicate Stays(s: Db, t: Db, step: Step) {
    t.memory == s.memory && (step.MergeCommit? || t.segments == s.segments)
  }

  /** The memory segment has been set aside as it was. */
  ghost predicate Leaves(s: Db, t: Db) {
    t.memory !in s.heap && s.memory in s.heap && s.memory in t.heap && t.heap[s.memory] == s.heap[s.memory]
  }

  lemma PutStaysOrLeaves(s: Db, swap: bool, es: seq<KeyValue>, step: Step)
    requires Inv(s) && FormatKeys(es)
    ensures var t := PutAll(MaybeSwap(s, swap), es); Stays(s, t, step) || Leaves(s, t)
  {
    hide MapOf, IDsOk, MergeInv, Able, Clean;
    CapturedFrozen(s);
    assert s.nextRef !in s.heap;
  }

  lemma SwapLeaves(s: Db)
    requires Inv(s)
    ensures Leaves(s, Swap(s))
  {
    CapturedFrozen(s);
    assert s.nextRef !in s.heap;
  }

  lemma CommitStays(s: Db)
    requires Inv(s) && s.fault == NoFault
    ensures Next(s, MergeCommit).memory == s.memory
  {
  }

  lemma StaysOrLeaves(s: Db, step: Step)
    requires Inv(s) && Sound(step) && s.fault == NoFault && !step.Reopen?
    ensures var t := Next(s, step); Stays(s, t, step) || Leaves(s, t)
  {
    hide MapOf, PutAll, RefsOk, IDsOk, MergeInv, Fetch, Leaves, Commit;
    match step
    case Put(key, value, swap) =>
      if CheckKey(key) {
        PutStaysOrLeaves(s, swap, [KeyValue(key, value)], step);
      }
    case Remove(key, swap) =>
      if CheckKey(key) && Fetch(Listing(s), key).Value? && Fetch(Listing(s), key).value != [] {
        InvMeans(s);
        CleanFetch(Listing(s), key);
        RemovableKey(Listing(s), key);
        PutStaysOrLeaves(s, swap, [KeyValue(key, [])], step);
      }
    case Write(batch, swap) =>
      PutStaysOrLeaves(s, swap, batch, step);
    case Snapshot =>
      SwapLeaves(s);
    case MergeCommit =>
      CommitStays(s);
    case _ =>
  }

  ghost predicate Captured(s: Db, u: Db) {
    forall r :: r in s.segments + [s.memory] ==> r in u.heap
  }

  /** At u, the segments captured at s mean what the whole list meant at `was`; without a commit they are the same. */
  ghost predicate Means(s: Db, u: Db, was: Db, plain: bool) {
    && Captured(s, u) && InHeap(u) && InHeap(was)
    && var refs := s.segments + [s.memory];
       ViewOf(Look(u.heap, refs)) == ViewOf(Listing(was)) && u.heap[s.memory] == Listing(was)[|was.segments|]
       && (plain ==> Look(u.heap, refs) == Listing(was))
  }

  ghost predicate StillCurrent(s: Db, u: Db, plain: bool) {
    && Captured(s, u) && InHeap(u) && u.memory == s.memory && Frozen(u, s.segments)
    && ViewOf(Look(u.heap, s.segments)) == ViewOf(Look(u.heap, u.segments)) && (plain ==> u.segments == s.segments)
  }

  ghost predicate SetAside(s: Db, u: Db) {
    Frozen(u, s.segments + [s.memory])
  }

  lemma CurrentMeans(s: Db, u: Db, plain: bool)
    requires StillCurrent(s, u, plain)
    ensures Means(s, u, u, plain)
  {
    hide ViewOf;
    assert forall i :: 0 <= i < |s.segments| ==> s.segments[i] in u.heap;
    assert Look(u.heap, s.segments + [s.memory]) == Look(u.heap, s.segments) + [u.heap[u.memory]];
    assert Listing(u) == Look(u.heap, u.segments) + [u.heap[u.memory]];
    SameOnTop(Look(u.heap, s.segments), Look(u.heap, u.segments), u.heap[u.memory]);
  }

  lemma SameOnTop(a: seq<Item>, b: seq<Item>, x: Item)
    requires ViewOf(a) == ViewOf(b)
    ensures ViewOf(a + [x]) == ViewOf(b + [x])
  {
    hide LiveView;
    EntriesConcat(a, [x]);
    EntriesConcat(b, [x]);
    EntriesOfOne(x);
    SameViewThenSameView(EntriesOf(a), EntriesOf(b), x.entries);
  }

  /** While the memory segment stays, what the captured list means and what the current one means go together. */
  lemma CurrentStays(s: Db, u: Db, plain: bool, step: Step)
    requires Inv(u) && Sound(step) && u.fault == NoFault && !step.Reopen? && StillCurrent(s, u, plain) &&
             Stays(u, Next(u, step), step)
    ensures StillCurrent(s, Next(u, step), plain && !step.MergeCommit?)
  {
    hide ViewOf, RefsOk, IDsOk, MergeInv, Able, Effect, Next, Sound, AfterMerge, Faults, View;
    var v := Next(u, step);
    StepIsSound(u, step);
    CapturedFrozen(u);
    FrozenStays(u, v, s.segments);
    FrozenStays(u, v, u.segments);
    if step.MergeCommit? {
      CommitKeepsSegmentsView(u);
    }
  }

  lemma FrozenStays(u: Db, v: Db, refs: seq<Ref>)
    requires Frozen(u, refs) && OnlyMemoryChanges(u, v)
    ensures Frozen(v, refs) && Look(v.heap, refs) == Look(u.heap, refs)
  {
  }

  lemma CommitKeepsSegmentsView(u: Db)
    requires Inv(u) && u.fault == NoFault
    ensures var v := Next(u, MergeCommit);
            InHeap(u) && InHeap(v) && ViewOf(Look(v.heap, v.segments)) == ViewOf(Look(u.heap, u.segments))
  {
    hide ViewOf, RefsOk, IDsOk, MergeInv, AfterMerge, Commit;
    InvMeans(u);
    var v := Next(u, MergeCommit);
    if AllLoaded(u) {
      var start, count := u.merge.start, u.merge.count;
      AbleMeans(u);
      CommitKeeps(u);
      InvMeans(v);
      var a := Look(u.heap, u.segments);
      assert Listing(u) == a + [u.heap[u.memory]];
      assert Listing(v) == Look(v.heap, v.segments) + [v.heap[v.memory]];
      MergeBelow(a, [u.heap[u.memory]], start, count);
      CutLast(AfterMerge(a, start, count), u.heap[u.memory], Look(v.heap, v.segments), v.heap[v.memory]);
      MergeView(a, start, count);
    }
  }

  lemma CutLast(a: seq<Item>, x: Item, b: seq<Item>, y: Item)
    requires a + [x] == b + [y]
    ensures a == b
  {
    assert (a + [x])[..|a|] == a && (b + [y])[..|b|] == b;
    assert |a + [x]| == |b + [y]|;
  }

  lemma CurrentLeaves(s: Db, u: Db, v: Db, plain: bool)
    requires StillCurrent(s, u, plain) && OnlyMemoryChanges(u, v) && Leaves(u, v) && InHeap(v)
    ensures SetAside(s, v) && Means(s, v, u, plain)
  {
    hide ViewOf;
    CurrentMeans(s, u, plain);
    var refs := s.segments + [s.memory];
    forall i | 0 <= i < |refs|
      ensures refs[i] in v.heap && refs[i] != v.memory && v.heap[refs[i]] == u.heap[refs[i]]
    {
      assert refs[i] in refs;
      assert i < |s.segments| ==> refs[i] == s.segments[i] && s.segments[i] != u.memory;
    }
    LookFrame(u.heap, v.heap, refs);
  }

  lemma AsideStays(s: Db, u: Db, v: Db, was: Db, plain: bool)
    requires SetAside(s, u) && Means(s, u, was, plain) && OnlyMemoryChanges(u, v) && InHeap(v)
    ensures SetAside(s, v) && forall less: bool :: (less ==> plain) ==> Means(s, v, was, less)
  {
    hide ViewOf;
    var refs := s.segments + [s.memory];
    assert refs[|s.segments|] == s.memory;
    FrozenStays(u, v, refs);
  }

  lemma CaptureIsCurrent(s: Db)
    requires Inv(s)
    ensures StillCurrent(s, s, true)
  {
    hide ViewOf;
    CapturedFrozen(s);
  }

  /** One step more: either the memory segment has stayed, or the moment before stays the one that is meant. */
  lemma StepMeans(s: Db, u: Db, was: Db, plain: bool, step: Step) returns (stays: bool)
    requires Inv(u) && Sound(step) && !step.Reopen?
    requires (StillCurrent(s, u, plain) && was == u) || (SetAside(s, u) && Means(s, u, was, plain))
    ensures var v, p := Next(u, step), plain && !step.MergeCommit?;
            if stays then StillCurrent(s, v, p) else SetAside(s, v) && Means(s, v, was, p)
  {
    hide RefsOk, IDsOk, MergeInv, Able, Next, Sound, Effect, ViewOf, Means, StillCurrent, SetAside, Stays, Leaves, View;
    hide Faults;
    var v := Next(u, step);
    if u.fault != NoFault {
      FaultStays(u, step);
      LessPlain(s, u, was, plain, plain && !step.MergeCommit?);
      stays := StillCurrent(s, u, plain);
    } else {
      StepIsSound(u, step);
      InvInHeap(v);
      if StillCurrent(s, u, plain) {
        NotBoth(s, u, plain);
        StaysOrLeaves(u, step);
        stays := Stays(u, v, step);
        if stays {
          CurrentStays(s, u, plain, step);
        } else {
          CurrentLeaves(s, u, v, plain);
          LessPlain(s, v, u, plain, plain && !step.MergeCommit?);
        }
      } else {
        stays := false;
        AsideStays(s, u, v, was, plain);
      }
    }
  }

  lemma NotBoth(s: Db, u: Db, plain: bool)
    requires StillCurrent(s, u, plain)
    ensures !SetAside(s, u)
  {
    var refs := s.segments + [s.memory];
    assert refs[|s.segments|] == u.memory;
  }

  lemma LessPlain(s: Db, u: Db, was: Db, plain: bool, less: bool)
    requires less ==> plain
    ensures Means(s, u, was, plain) ==> Means(s, u, was, less)
    ensures StillCurrent(s, u, plain) ==> StillCurrent(s, u, less)
  {
    hide ViewOf;
  }

  /**
   For every list that has been captured there is a moment since, at which the database meant what that list
   means now.
   */
  lemma {:induction false} CapturedMeansAMoment(s: Db, steps: seq<Step>) returns (m: nat)
    requires Inv(s) && s.fault == NoFault && AllSound(steps) && NoReopen(steps)
    ensures m <= |steps| && Means(s, Run(s, steps), Run(s, steps[..m]), NoCommit(steps))
    ensures (m == |steps| && StillCurrent(s, Run(s, steps), NoCommit(steps))) || SetAside(s, Run(s, steps))
    decreases |steps|
  {
    hide RefsOk, IDsOk, MergeInv, Able, Next, Sound, Effects, ViewOf, Means, StillCurrent, SetAside, View;
    if steps == [] {
      m := 0;
      CaptureIsCurrent(s);
      CurrentMeans(s, s, true);
      assert steps[..0] == [];
    } else {
      var n := |steps| - 1;
      var front, last := steps[..n], steps[n];
      m := CapturedMeansAMoment(s, front);
      assert front[..m] == steps[..m] && front[..n] == front && steps[..n + 1] == steps;
      RunIsFold(s, front);
      assert NoCommit(steps) == (NoCommit(front) && !last.MergeCommit?);
      var stays := StepMeans(s, Run(s, front), Run(s, front[..m]), NoCommit(front), last);
      if stays {
        m := n + 1;
        CurrentMeans(s, Run(s, steps), NoCommit(steps));
      }
    }
  }

  lemma LookThere(s: Db, u: Db)
    requires Captured(s, u)
    ensures var refs := s.segments + [s.memory];
            (forall i :: 0 <= i < |refs| ==> refs[i] in u.heap) && LookIfThere(u.heap, refs) == Look(u.heap, refs)
  {
  }

  /**
   With no commit between the capture of the list and the first read, a get answers as it would have at some
   moment of its call, whatever comes after that read.
   */
  lemma GetLinearizes(s: Db, steps: seq<Step>, k: Bytes, times: seq<nat>) returns (m: nat)
    requires Inv(s) && s.fault == NoFault && AllSound(steps) && NoReopen(steps)
    requires |times| == |s.segments| + 1 && forall i :: 0 <= i < |times| ==> times[i] <= |steps|
    requires NoCommit(steps[..times[|s.segments|]])
    ensures m <= times[|s.segments|] && InHeap(Run(s, steps[..m]))
    ensures ReadsBack(s, steps, s.segments + [s.memory], k, times) == FetchedFrom(Listing(Run(s, steps[..m])), k)
  {
    hide Inv, Run, Fetch, FetchedFrom, Sound, ViewOf;
    var first := steps[..times[|s.segments|]];
    GetReadsOneMoment(s, steps, k, times);
    m := CapturedMeansAMoment(s, first);
    assert first[..m] == steps[..m];
    LookThere(s, Run(s, first));
    FetchIsFetchedFrom(s, first[..m], k);
  }

  lemma FetchIsFetchedFrom(s: Db, steps: seq<Step>, k: Bytes)
    requires Inv(s) && s.fault == NoFault && AllSound(steps)
    ensures InHeap(Run(s, steps)) && Fetch(Listing(Run(s, steps)), k) == FetchedFrom(Listing(Run(s, steps)), k)
  {
    hide RefsOk, IDsOk, MergeInv, Able, Run, Fetch, FetchedFrom, Sound, ViewOf, Effects, View;
    RunIsFold(s, steps);
    InvMeans(Run(s, steps));
    CleanFetch(Listing(Run(s, steps)), k);
  }

  // ---- keys that are never removed ----

  /** No segment has the key with an empty value. */
  ghost predicate NeverEmpty(items: seq<Item>, k: Bytes) {
    forall i :: 0 <= i < |items| && k in items[i].entries ==> items[i].entries[k] != []
  }

  /** The step does not remove the key, nor give it an empty value. */
  ghost predicate Spares(step: Step, k: Bytes) {
    match step
    case Put(key, value, _) => CheckKey(key) && key == k ==> value != []
    case Remove(key, _) => CheckKey(key) ==> key != k
    case Write(batch, _) => k in MapOf(batch) ==> MapOf(batch)[k] != []
    case _ => true
  }

  ghost predicate AllSpare(steps: seq<Step>, k: Bytes) {
    forall i :: 0 <= i < |steps| ==> Spares(steps[i], k)
  }

  lemma WriteSpares(items: seq<Item>, swap: bool, es: seq<KeyValue>, k: Bytes)
    requires items != [] && NeverEmpty(items, k) && (k in MapOf(es) ==> MapOf(es)[k] != [])
    ensures NeverEmpty(AfterWrite(if swap then AfterSwap(items) else items, es), k)
  {
    hide MapOf;
  }

  lemma MapOfOne(key: Bytes, value: Bytes)
    ensures MapOf([KeyValue(key, value)]) == map[key := value]
  {
    assert [KeyValue(key, value)][..0] == [];
  }

  lemma MergeSpares(items: seq<Item>, start: nat, count: nat, k: Bytes)
    requires NeverEmpty(items, k) && 1 <= count && start + count <= |items|
    ensures NeverEmpty(AfterMerge(items, start, count), k)
  {
    var w := items[start..start + count];
    MergedSpares(w, k);
    hide EntriesOf, Merged;
    var t := AfterMerge(items, start, count);
    forall i | 0 <= i < |t| && k in t[i].entries
      ensures t[i].entries[k] != []
    {
      if i != start {
        assert t[i] == items[if i < start then i else i + count - 1];
      }
    }
  }

  lemma {:induction false} MergedSpares(items: seq<Item>, k: Bytes)
    requires NeverEmpty(items, k)
    ensures k in Merged(EntriesOf(items)) ==> Merged(EntriesOf(items))[k] != []
    decreases |items|
  {
    if items != [] {
      var n := |items| - 1;
      MergedSpares(items[..n], k);
      MergedOfMore(items[..n], items[n]);
      assert items == items[..n] + [items[n]];
    }
  }

  lemma {:induction false} FlushSpares(items: seq<Item>, k: Bytes)
    requires NeverEmpty(items, k)
    ensures NeverEmpty(Flushed(items), k) && NeverEmpty(AfterReopen(items), k)
    decreases |items|
  {
    if items != [] {
      FlushSpares(items[..|items| - 1], k);
    }
  }

  lemma StepSpares(s: Db, step: Step, k: Bytes)
    requires InHeap(s) && Listing(s) != [] && NeverEmpty(Listing(s), k) && Spares(step, k)
    ensures NeverEmpty(ListingAfter(s, step), k)
  {
    hide MapOf, NeverEmpty, AfterWrite, AfterSwap, AfterMerge, AfterReopen, FetchedFrom, Listing;
    var items := Listing(s);
    match step
    case Put(key, value, swap) =>
      MapOfOne(key, value);
      if CheckKey(key) {
        WriteSpares(items, swap, [KeyValue(key, value)], k);
      }
    case Remove(key, swap) =>
      MapOfOne(key, []);
      if CheckKey(key) {
        WriteSpares(items, swap, [KeyValue(key, [])], k);
      }
    case Write(batch, swap) =>
      WriteSpares(items, swap, batch, k);
    case Snapshot =>
      SwapSpares(items, k);
    case MergeCommit =>
      if AllLoaded(s) && InList(Pass(s.merge.start, s.merge.count), items) {
        MergeSpares(items, s.merge.start, s.merge.count, k);
      }
    case Reopen =>
      FlushSpares(items, k);
    case _ =>
  }

  lemma SwapSpares(items: seq<Item>, k: Bytes)
    requires items != [] && NeverEmpty(items, k)
    ensures NeverEmpty(AfterSwap(items), k)
  {
  }

  lemma {:induction false} RunSpares(s: Db, steps: seq<Step>, k: Bytes)
    requires Inv(s) && s.fault == NoFault && AllSound(steps) && AllSpare(steps, k)
    requires InHeap(s) && NeverEmpty(Listing(s), k)
    ensures InHeap(Run(s, steps)) && NeverEmpty(Listing(Run(s, steps)), k)
    decreases |steps|
  {
    hide RefsOk, IDsOk, MergeInv, Able, Next, Sound, Spares, Effects, ViewOf, NeverEmpty, Listing, View, ListingAfter;
    hide Faults;
    if steps != [] {
      var front, last := steps[..|steps| - 1], steps[|steps| - 1];
      RunSpares(s, front, k);
      RunIsFold(s, front);
      var u := Run(s, front);
      if u.fault == NoFault {
        StepIsSound(u, last);
        InvInHeap(Next(u, last));
        StepSpares(u, last, k);
      } else {
        FaultStays(u, last);
      }
    }
  }

  lemma NeverEmptyIsLive(items: seq<Item>, k: Bytes)
    requires NeverEmpty(items, k)
    ensures FetchedFrom(items, k) == UnmappedRead || FetchedFrom(items, k) == Value(ValueIn(ViewOf(items), k))
  {
    FetchedExactly(items, k);
    MergedSpares(items, k);
    GetIsLiveExactlyWhen(EntriesOf(items), k);
  }

  /**
   In every run, get has for a key that nobody removes what the clients' operations make of it, or it reads in an
   empty file.
   */
  lemma GetIsFold(s: Db, steps: seq<Step>, k: Bytes)
    requires Inv(s) && s.fault == NoFault && AllSound(steps) && AllSpare(steps, k)
    requires InHeap(s) && NeverEmpty(Listing(s), k)
    ensures var t := Run(s, steps);
            && InHeap(t)
            && (t.fault == NoFault && FetchedFrom(Listing(t), k) != UnmappedRead ==>
                  FetchedFrom(Listing(t), k) == Value(ValueIn(Effects(ViewOf(Listing(s)), steps), k)))
  {
    hide RefsOk, IDsOk, MergeInv, Able, Run, Sound, Spares, Effects, ViewOf, NeverEmpty, FetchedFrom, View, ViewOfAll;
    RunSpares(s, steps, k);
    RunIsFold(s, steps);
    var t := Run(s, steps);
    InvMeans(t);
    NeverEmptyIsLive(Listing(t), k);
  }

  lemma CleanHeap(u: Db, refs: seq<Ref>)
    requires Inv(u) && forall i :: 0 <= i < |refs| ==> refs[i] in u.heap
    ensures AllClean(Look(u.heap, refs))
  {
    hide Clean;
  }

  lemma SparedLook(s: Db, u: Db, was: Db, plain: bool, k: Bytes)
    requires Captured(s, u) && InHeap(s) && InHeap(was) && NeverEmpty(Listing(s), k) && NeverEmpty(Listing(was), k)
    requires Means(s, u, was, plain) && (forall i :: 0 <= i < |s.segments| ==> s.segments[i] in u.heap)
    requires Look(u.heap, s.segments) == Look(s.heap, s.segments)
    ensures NeverEmpty(LookIfThere(u.heap, s.segments + [s.memory]), k)
  {
    hide ViewOf;
    var refs := s.segments + [s.memory];
    LookThere(s, u);
    var items := Look(u.heap, refs);
    forall i | 0 <= i < |items| && k in items[i].entries
      ensures items[i].entries[k] != []
    {
      if i < |s.segments| {
        assert items[i] == Look(u.heap, s.segments)[i] == Listing(s)[i];
      } else {
        assert items[i] == Listing(was)[|was.segments|];
      }
    }
  }

  lemma SparedCapture(s: Db, steps: seq<Step>, m: nat, k: Bytes)
    requires Inv(s) && s.fault == NoFault && AllSound(steps) && AllSpare(steps, k) && m <= |steps|
    requires InHeap(s) && NeverEmpty(Listing(s), k) && Means(s, Run(s, steps), Run(s, steps[..m]), NoCommit(steps))
    ensures var was := Run(s, steps[..m]); var f := Fetch(LookIfThere(Run(s, steps).heap, s.segments + [s.memory]), k);
            InHeap(was) && (f == UnmappedRead || f == Value(ValueIn(ViewOf(Listing(was)), k)))
  {
    hide RefsOk, IDsOk, MergeInv, Able, Run, Sound, Spares, Effects, ViewOf, NeverEmpty, FetchedFrom, Fetch, View;
    hide LookIfThere;
    var u, was := Run(s, steps), Run(s, steps[..m]);
    RunIsFold(s, steps);
    RunSpares(s, steps[..m], k);
    CapturedFrozen(s);
    FrozenForever(s, steps, s.segments);
    FrozenInHeap(u, s.segments);
    LookThere(s, u);
    SparedLook(s, u, was, NoCommit(steps), k);
    var items := LookIfThere(u.heap, s.segments + [s.memory]);
    CleanHeap(u, s.segments + [s.memory]);
    CleanFetch(items, k);
    NeverEmptyIsLive(items, k);
  }

  /**
   For such a key the same holds of a get among the steps, whatever is committed meanwhile: it answers for a
   moment of its call.
   */
  lemma GetAmongIsFold(s: Db, steps: seq<Step>, k: Bytes, times: seq<nat>) returns (m: nat)
    requires Inv(s) && s.fault == NoFault && AllSound(steps) && NoReopen(steps) && AllSpare(steps, k)
    requires InHeap(s) && NeverEmpty(Listing(s), k)
    requires |times| == |s.segments| + 1 && forall i :: 0 <= i < |times| ==> times[i] <= |steps|
    ensures m <= times[|s.segments|]
    ensures var answer := ReadsBack(s, steps, s.segments + [s.memory], k, times);
            Run(s, steps[..m]).fault == NoFault && answer != UnmappedRead ==>
              answer == Value(ValueIn(Effects(ViewOf(Listing(s)), steps[..m]), k))
  {
    hide RefsOk, IDsOk, MergeInv, Able, Run, Sound, Spares, Effects, ViewOf, NeverEmpty, FetchedFrom, Fetch, View;
    hide ViewOfAll, Means, ReadsBack, LookIfThere;
    var first := steps[..times[|s.segments|]];
    GetReadsOneMoment(s, steps, k, times);
    m := CapturedMeansAMoment(s, first);
    assert first[..m] == steps[..m];
    RunSpares(s, first[..m], k);
    RunIsFold(s, first[..m]);
    InvMeans(Run(s, first[..m]));
    SparedCapture(s, first, m, k);
  }
}
