/** A get without the lock that answers as it would have at no moment of its call. */
module StaleReads {
  import opened Bytes
  import opened KeyValues
  import opened Views
  import opened Listings
  import opened Machine
  import opened MachineRuns
  import opened MachineTheorems
  import opened MachineReads

  /** Four segments in memory: another key, the key with a value, its removal, and a new value for it. */
  ghost function Four(j: Bytes, k: Bytes, older: Bytes, newer: Bytes): seq<Item> {
    [ Item(1, 1, map[j := [1]], false), Item(2, 2, map[k := older], false),
      Item(3, 3, map[k := []], false), Item(4, 4, map[k := newer], false) ]
  }

  ghost predicate FourThere(s: Db, j: Bytes, k: Bytes, older: Bytes, newer: Bytes) {
    && Inv(s) && s.fault == NoFault && s.merge == Idle && InHeap(s) && Listing(s) == Four(j, k, older, newer)
    && j != k && older != [] && newer != [] && older != newer && CheckKey(k)
  }

  lemma FourFetched(j: Bytes, k: Bytes, older: Bytes, newer: Bytes)
    requires j != k && older != [] && newer != []
    ensures FetchedFrom(Four(j, k, older, newer), k) == Value(newer)
    ensures FetchedFrom(Four(j, k, older, []), k) == Value(older)
  {
    var items := Four(j, k, older, []);
    assert items[..3][..2] == items[..2];
    assert FetchedFrom(items[..2], k) == Value(older);
    assert FetchedFrom(items[..3], k) == Value(older);
  }

  /** The two segments in the middle have been merged. */
  ghost function Three(j: Bytes, k: Bytes, newer: Bytes): seq<Item> {
    [Item(1, 1, map[j := [1]], false), Item(2, 3, map[k := []], true), Item(4, 4, map[k := newer], false)]
  }

  lemma ThreeFetched(j: Bytes, k: Bytes, newer: Bytes)
    requires j != k
    ensures FetchedFrom(Three(j, k, newer), k) == Value(newer)
  {
    var items := Three(j, k, newer);
    assert items[..2][..1] == items[..1] && items[..1][..0] == [];
    assert FetchedFrom(items[..1], k) == Value([]);
    assert FetchedFrom(items[..2], k) == Value([]);
  }

  lemma FourMerged(j: Bytes, k: Bytes, older: Bytes, newer: Bytes)
    ensures AfterMerge(Four(j, k, older, newer), 1, 2) == Three(j, k, newer)
  {
    var items := Four(j, k, older, newer);
    var b, c := items[1], items[2];
    assert items[1..3] == [b] + [c];
    EntriesConcat([b], [c]);
    EntriesOfOne(b);
    EntriesOfOne(c);
    MergedConcat([b.entries], [c.entries]);
    SingleMerged(b.entries);
    SingleMerged(c.entries);
    hide EntriesOf, Merged;
    assert Merged(EntriesOf(items[1..3])) == map[k := []];
  }

  ghost function AcrossCommit(k: Bytes): seq<Step> {
    [MergeRead(1, 2), MergeLoad(0), MergeLoad(1), MergeCommit, Remove(k, false)]
  }

  lemma MergeOfTheMiddle(s: Db)
    requires Inv(s) && s.fault == NoFault && s.merge == Idle && |s.segments| == 3
    ensures var u := Next(Next(Next(s, MergeRead(1, 2)), MergeLoad(0)), MergeLoad(1));
            u.fault == NoFault && AllLoaded(u) && u.merge.start == 1 && u.merge.count == 2
  {
    hide RefsOk, IDsOk, MergeInv;
    var s1 := Next(s, MergeRead(1, 2));
    MergeStepsKeep(s, MergeRead(1, 2));
    assert s1 == s.(merge := Merging(s.segments, 1, 2, map[]));
    CapturedFrozen(s);
    assert Clean(s.heap[s.segments[1]]) && Clean(s.heap[s.segments[2]]) by { ListedClean(s); }
  }

  lemma ListedClean(s: Db)
    requires Inv(s)
    ensures forall i :: 0 <= i < |s.segments| ==> s.segments[i] in s.heap && Clean(s.heap[s.segments[i]])
  {
    hide Clean;
  }

  /** The listings of the run, moment by moment. */
  lemma AcrossCommitListings(s: Db, j: Bytes, k: Bytes, older: Bytes, newer: Bytes)
    requires FourThere(s, j, k, older, newer)
    ensures var steps := AcrossCommit(k);
            && (forall i :: 0 <= i <= 5 ==> Sane(Run(s, steps[..i])))
            && (forall i :: 0 <= i <= 3 ==> ListsAs(Run(s, steps[..i]), Four(j, k, older, newer)))
            && ListsAs(Run(s, steps[..4]), Three(j, k, newer)) && ListsAs(Run(s, steps[..5]), Three(j, k, []))
  {
    hide Inv, Able, Next, ListingAfter, Faults, FetchedFrom, AfterMerge, Run, Four, Three, FourThere;
    var steps := AcrossCommit(k);
    RunNothing(s, steps);
    FiveSteps(s, steps);
    var s1, s2, s3, s4 := Run(s, steps[..1]), Run(s, steps[..2]), Run(s, steps[..3]), Run(s, steps[..4]);
    assert s1 == Next(s, steps[0]) && s2 == Next(s1, steps[1]) && s3 == Next(s2, steps[2]);
    assert s4 == Next(s3, steps[3]) && Run(s, steps[..5]) == Next(s4, steps[4]);
    FourIsThere(s, j, k, older, newer);
    MergeOfTheMiddle(s);
    MergerStep(s, steps[0]);
    MergerStep(s1, steps[1]);
    MergerStep(s2, steps[2]);
    MergerStep(s3, steps[3]);
    FourMerged(j, k, older, newer);
    CommitOfMiddle(s3, j, k, older, newer);
    RemoveOfNewest(s4, j, k, newer);
    Upto(s, steps, j, k, older, newer);
  }

  lemma Upto(s: Db, steps: seq<Step>, j: Bytes, k: Bytes, older: Bytes, newer: Bytes)
    requires |steps| == 5
    requires Sane(Run(s, steps[..0])) && Sane(Run(s, steps[..1])) && Sane(Run(s, steps[..2]))
    requires Sane(Run(s, steps[..3])) && Sane(Run(s, steps[..4])) && Sane(Run(s, steps[..5]))
    requires ListsAs(Run(s, steps[..0]), Four(j, k, older, newer)) &&
             ListsAs(Run(s, steps[..1]), Four(j, k, older, newer))
    requires ListsAs(Run(s, steps[..2]), Four(j, k, older, newer)) &&
             ListsAs(Run(s, steps[..3]), Four(j, k, older, newer))
    ensures forall i :: 0 <= i <= 5 ==> Sane(Run(s, steps[..i]))
    ensures forall i :: 0 <= i <= 3 ==> ListsAs(Run(s, steps[..i]), Four(j, k, older, newer))
  {
    hide Sane, ListsAs, Run, Four;
    forall i | 0 <= i <= 5
      ensures Sane(Run(s, steps[..i]))
      ensures i <= 3 ==> ListsAs(Run(s, steps[..i]), Four(j, k, older, newer))
    {
      assert i == 0 || i == 1 || i == 2 || i == 3 || i == 4 || i == 5;
    }
  }

  ghost predicate Sane(s: Db) {
    Inv(s) && s.fault == NoFault
  }

  ghost predicate ListsAs(s: Db, items: seq<Item>) {
    InHeap(s) && Listing(s) == items
  }

  lemma FourIsThere(s: Db, j: Bytes, k: Bytes, older: Bytes, newer: Bytes)
    requires FourThere(s, j, k, older, newer)
    ensures Sane(s) && ListsAs(s, Four(j, k, older, newer)) && |s.segments| == 3 && s.merge == Idle
    ensures j != k && newer != [] && CheckKey(k)
  {
    FourLength(s, j, k, older, newer);
  }

  lemma MergerStep(s: Db, step: Step)
    requires Sane(s) && (step.MergeRead? || step.MergeLoad? || step.MergeCommit?)
    ensures var t := Next(s, step); Sane(t) && InHeap(s) && Listing(s) != [] && ListsAs(t, ListingAfter(s, step))
    ensures !step.MergeCommit? ==> ListingAfter(s, step) == Listing(s)
  {
    hide RefsOk, IDsOk, MergeInv, Able, Next, Effect, ViewOf, AfterMerge;
    StepIsSound(s, step);
    InvInHeap(s);
    InvInHeap(Next(s, step));
  }

  lemma CommitOfMiddle(s: Db, j: Bytes, k: Bytes, older: Bytes, newer: Bytes)
    requires Sane(s) && ListsAs(s, Four(j, k, older, newer)) && AllLoaded(s) && s.merge.start == 1 && s.merge.count == 2
    ensures Listing(s) != [] && ListingAfter(s, MergeCommit) == Three(j, k, newer)
  {
    FourMerged(j, k, older, newer);
    hide Inv, AfterMerge, AllLoaded;
    assert InList(Pass(1, 2), Four(j, k, older, newer));
  }

  lemma RemoveOfNewest(s: Db, j: Bytes, k: Bytes, newer: Bytes)
    requires Sane(s) && ListsAs(s, Three(j, k, newer)) && j != k && newer != [] && CheckKey(k)
    ensures Sane(Next(s, Remove(k, false))) && ListsAs(Next(s, Remove(k, false)), Three(j, k, []))
  {
    hide RefsOk, IDsOk, MergeInv, Able, Next, Effect, ViewOf, FetchedFrom, AfterWrite;
    ThreeFetched(j, k, newer);
    RemovedFromThree(j, k, newer);
    StepIsSound(s, Remove(k, false));
    InvInHeap(Next(s, Remove(k, false)));
  }

  lemma FourLength(s: Db, j: Bytes, k: Bytes, older: Bytes, newer: Bytes)
    requires InHeap(s) && Listing(s) == Four(j, k, older, newer)
    ensures |s.segments| == 3
  {
    assert |Listing(s)| == 4;
  }

  lemma RunNothing(s: Db, steps: seq<Step>)
    ensures Run(s, steps[..0]) == s
  {
  }

  lemma FiveSteps(s: Db, steps: seq<Step>)
    requires |steps| == 5
    ensures forall i {:trigger steps[i]} :: 0 <= i < 5 ==> Run(s, steps[..i + 1]) == Next(Run(s, steps[..i]), steps[i])
  {
    forall i | 0 <= i < 5
      ensures Run(s, steps[..i + 1]) == Next(Run(s, steps[..i]), steps[i])
    {
      RunStep(s, steps, i);
    }
  }

  lemma RemovedFromThree(j: Bytes, k: Bytes, newer: Bytes)
    ensures AfterWrite(Three(j, k, newer), [KeyValue(k, [])]) == Three(j, k, [])
  {
    MapOfOne(k, []);
    hide MapOf;
    assert map[k := newer] + map[k := []] == map[k := []];
  }

  lemma SameMemory(u: Db, step: Step)
    requires step.MergeRead? || step.MergeLoad? || step.MergeCommit? || (step.Remove? && !step.swap)
    ensures Next(u, step).memory == u.memory
  {
    hide Fetch, MapOf, MergedEntries;
  }

  lemma MemoryStays(s: Db, k: Bytes)
    ensures Run(s, AcrossCommit(k)).memory == s.memory
  {
    hide Next, Run;
    var steps := AcrossCommit(k);
    RunNothing(s, steps);
    FiveSteps(s, steps);
    SameMemory(s, steps[0]);
    SameMemory(Run(s, steps[..1]), steps[1]);
    SameMemory(Run(s, steps[..2]), steps[2]);
    SameMemory(Run(s, steps[..3]), steps[3]);
    SameMemory(Run(s, steps[..4]), steps[4]);
    assert steps[..5] == steps;
  }

  lemma FourSeen(s: Db, u: Db, j: Bytes, k: Bytes, older: Bytes, newer: Bytes)
    requires InHeap(s) && Listing(s) == Four(j, k, older, newer) && InHeap(u) && Listing(u) == Three(j, k, [])
    requires u.memory == s.memory && Captured(s, u) && forall i :: 0 <= i < |s.segments| ==> s.segments[i] in u.heap
    requires Look(u.heap, s.segments) == Look(s.heap, s.segments)
    ensures LookIfThere(u.heap, s.segments + [s.memory]) == Four(j, k, older, [])
  {
    var refs := s.segments + [s.memory];
    LookThere(s, u);
    FourLength(s, j, k, older, newer);
    assert |Listing(u)| == 3 && |u.segments| == 2;
    assert u.heap[s.memory] == Listing(u)[2];
    var items := Look(u.heap, refs);
    assert forall i :: 0 <= i < 3 ==> items[i] == Look(u.heap, s.segments)[i] == Listing(s)[i];
    assert items[3] == Item(4, 4, map[k := []], false);
    assert items == Four(j, k, older, []);
  }

  /**
   A get captures its list; then a merge commits and drops the value that its removal hid, and the new value is
   removed; then the get reads. It answers with the hidden value, as it would have at no moment of its call.
   */
  lemma GetAcrossCommit(s: Db, j: Bytes, k: Bytes, older: Bytes, newer: Bytes)
    requires FourThere(s, j, k, older, newer)
    ensures |s.segments| == 3 && AllSound(AcrossCommit(k))
    ensures ReadsBack(s, AcrossCommit(k), s.segments + [s.memory], k, [5, 5, 5, 5]) == Value(older)
    ensures forall m :: 0 <= m <= 5 ==>
              InHeap(Run(s, AcrossCommit(k)[..m])) &&
                FetchedFrom(Listing(Run(s, AcrossCommit(k)[..m])), k) != Value(older)
  {
    hide Inv, Able, Next, FetchedFrom, Fetch, Run, ReadsBack, LookIfThere, Four, Three;
    var steps := AcrossCommit(k);
    FourIsThere(s, j, k, older, newer);
    AcrossCommitListings(s, j, k, older, newer);
    AcrossCommitAnswers(s, j, k, older, newer);
    assert AllSound(steps);
    GetReadsOneMoment(s, steps, k, [5, 5, 5, 5]);
    assert steps[..5] == steps;
    var u := Run(s, steps);
    CapturedFrozen(s);
    FrozenForever(s, steps, s.segments);
    FrozenInHeap(u, s.segments);
    StaysInHeap(s, steps);
    MemoryStays(s, k);
    AllCaptured(s, u);
    LookThere(s, u);
    FourSeen(s, u, j, k, older, newer);
    CleanHeap(u, s.segments + [s.memory]);
    CleanFetch(Four(j, k, older, []), k);
    FourFetched(j, k, older, newer);
  }

  lemma AllCaptured(s: Db, u: Db)
    requires s.memory in u.heap && forall i :: 0 <= i < |s.segments| ==> s.segments[i] in u.heap
    ensures Captured(s, u)
  {
  }

  lemma AcrossCommitAnswers(s: Db, j: Bytes, k: Bytes, older: Bytes, newer: Bytes)
    requires FourThere(s, j, k, older, newer)
    ensures forall m :: 0 <= m <= 5 ==>
              InHeap(Run(s, AcrossCommit(k)[..m])) &&
                FetchedFrom(Listing(Run(s, AcrossCommit(k)[..m])), k) != Value(older)
  {
    hide Inv, FetchedFrom, Run, Four, Three;
    AcrossCommitListings(s, j, k, older, newer);
    FourFetched(j, k, older, newer);
    ThreeFetched(j, k, newer);
    ThreeFetched(j, k, []);
    forall m | 0 <= m <= 5
      ensures InHeap(Run(s, AcrossCommit(k)[..m])) &&
              FetchedFrom(Listing(Run(s, AcrossCommit(k)[..m])), k) != Value(older)
    {
      var t := Run(s, AcrossCommit(k)[..m]);
      assert m <= 3 ==> ListsAs(t, Four(j, k, older, newer));
      assert m == 4 || m == 5 ==> ListsAs(t, Three(j, k, newer)) || ListsAs(t, Three(j, k, []));
    }
  }

  // ---- such a state is reached ----

  ghost function FourPuts(j: Bytes, k: Bytes, older: Bytes, newer: Bytes): seq<Step> {
    [Put(j, [1], false), Put(k, older, true), Put(k, [], true), Put(k, newer, true)]
  }

  lemma PutStep(s: Db, items: seq<Item>, key: Bytes, value: Bytes, swap: bool)
    requires Sane(s) && s.merge == Idle && ListsAs(s, items) && CheckKey(key) && Sound(Put(key, value, swap))
    requires items != [] && (!swap ==> items == [NewMemory(1)])
    ensures var t := Next(s, Put(key, value, swap)); var id := items[|items| - 1].upper + 1;
            && Sane(t) && t.merge == Idle
            && ListsAs(t, if swap then items + [Item(id, id, map[key := value], false)]
               else [Item(1, 1, map[key := value], false)])
  {
    hide RefsOk, IDsOk, MergeInv, Able, Next, Effect, ViewOf, FetchedFrom, MapOf;
    StepIsSound(s, Put(key, value, swap));
    InvInHeap(Next(s, Put(key, value, swap)));
    MapOfOne(key, value);
    assert map[] + map[key := value] == map[key := value];
    PutStaysIdle(s, key, value, swap);
  }

  lemma PutStaysIdle(s: Db, key: Bytes, value: Bytes, swap: bool)
    requires s.merge == Idle
    ensures Next(s, Put(key, value, swap)).merge == Idle
  {
    hide MapOf;
  }

  lemma FourReached(j: Bytes, k: Bytes, older: Bytes, newer: Bytes)
    requires CheckKey(j) && CheckKey(k) && |j| <= 1000 && |k| <= 1000 && j != k && older != [] && newer != [] &&
             older != newer
    ensures FourThere(Run(Fresh(), FourPuts(j, k, older, newer)), j, k, older, newer)
  {
    hide Inv, Next, Run, Fresh, Sane, ListsAs, Four, FourThere;
    var s, steps := Fresh(), FourPuts(j, k, older, newer);
    FreshIsThere();
    FourGrows(j, k, older, newer);
    RunNothing(s, steps);
    RunStep(s, steps, 0);
    RunStep(s, steps, 1);
    RunStep(s, steps, 2);
    RunStep(s, steps, 3);
    assert steps[..4] == steps;
    var four := Four(j, k, older, newer);
    PutStep(s, [NewMemory(1)], j, [1], false);
    PutStep(Run(s, steps[..1]), four[..1], k, older, true);
    PutStep(Run(s, steps[..2]), four[..2], k, [], true);
    PutStep(Run(s, steps[..3]), four[..3], k, newer, true);
    FourIs(Run(s, steps), j, k, older, newer);
  }

  lemma FourGrows(j: Bytes, k: Bytes, older: Bytes, newer: Bytes)
    ensures var four := Four(j, k, older, newer);
            && |four| == 4 && four[0].upper == 1 && four[1].upper == 2 && four[2].upper == 3
            && four[..1] == [Item(1, 1, map[j := [1]], false)]
            && four[..1] + [Item(2, 2, map[k := older], false)] == four[..2]
            && four[..2] + [Item(3, 3, map[k := []], false)] == four[..3]
            && four[..3] + [Item(4, 4, map[k := newer], false)] == four
  {
  }

  lemma FourIs(s: Db, j: Bytes, k: Bytes, older: Bytes, newer: Bytes)
    requires Sane(s) && s.merge == Idle && ListsAs(s, Four(j, k, older, newer))
    requires j != k && older != [] && newer != [] && older != newer && CheckKey(k)
    ensures FourThere(s, j, k, older, newer)
  {
    hide Inv;
  }

  lemma FreshIsThere()
    ensures Sane(Fresh()) && Fresh().merge == Idle && ListsAs(Fresh(), [NewMemory(1)])
  {
    FreshIsSound();
  }
}
