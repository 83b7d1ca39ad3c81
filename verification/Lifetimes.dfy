/** Sessions with closing and opening in between, and one life of a database from end to end. */
module Lifetimes {
  import opened Bytes
  import opened KeyValues
  import opened KeyFormat
  import opened SkipLinks
  import opened MemorySegments
  import opened Views
  import opened Listings
  import opened Merger
  import opened Compaction
  import opened Databases
  import opened Sessions
  import M = Machine

  /** A session, and the compaction asked for when it is closed. */
  datatype Chapter = Chapter(requests: seq<Request>, segmentCount: int)

  function AllRequests(chapters: seq<Chapter>): seq<Request> {
    if chapters == [] then [] else AllRequests(chapters[..|chapters| - 1]) + chapters[|chapters| - 1].requests
  }

  ghost predicate ChaptersFit(chapters: seq<Chapter>) {
    forall i :: 0 <= i < |chapters| ==> AllFitting(chapters[i].requests)
  }

  ghost function ChaptersLoad(chapters: seq<Chapter>): nat {
    if chapters == [] then 0 else TotalLoad(chapters[0].requests) + ChaptersLoad(chapters[1..])
  }

  /** The requests of the chapters that have ended, and the first ones of the next. */
  function Asked(chapters: seq<Chapter>, ended: nat, served: nat): seq<Request>
    requires ended <= |chapters| && (ended < |chapters| ==> served <= |chapters[ended].requests|)
  {
    AllRequests(chapters[..ended]) + if ended < |chapters| then chapters[ended].requests[..served] else []
  }

  // ---- folds ----

  lemma {:induction false} EffectsConcat(v: Entries, a: seq<M.Step>, b: seq<M.Step>)
    ensures M.Effects(v, a + b) == M.Effects(M.Effects(v, a), b)
    decreases |b|
  {
    hide M.Effect;
    if b == [] {
      assert a + b == a;
    } else {
      assert (a + b)[..|a + b| - 1] == a + b[..|b| - 1];
      EffectsConcat(v, a, b[..|b| - 1]);
    }
  }

  lemma {:induction false} StepsConcat(a: seq<Request>, b: seq<Request>)
    ensures Steps(a + b) == Steps(a) + Steps(b)
    decreases |b|
  {
    if b == [] {
      assert a + b == a;
    } else {
      assert (a + b)[..|a + b| - 1] == a + b[..|b| - 1];
      StepsConcat(a, b[..|b| - 1]);
    }
  }

  lemma OneMoreChapter(v: Entries, chapters: seq<Chapter>, i: nat)
    requires i < |chapters|
    ensures M.Effects(v, Steps(AllRequests(chapters[..i + 1]))) ==
            M.Effects(M.Effects(v, Steps(AllRequests(chapters[..i]))), Steps(chapters[i].requests))
    ensures ChaptersLoad(chapters[i..]) == TotalLoad(chapters[i].requests) + ChaptersLoad(chapters[i + 1..])
  {
    hide M.Effects, Steps, TotalLoad;
    assert chapters[..i + 1][..i] == chapters[..i] && chapters[i..][1..] == chapters[i + 1..];
    StepsConcat(AllRequests(chapters[..i]), chapters[i].requests);
    EffectsConcat(v, Steps(AllRequests(chapters[..i])), Steps(chapters[i].requests));
  }

  lemma AskedSoFar(v: Entries, chapters: seq<Chapter>, ended: nat, served: nat)
    requires ended < |chapters| && served <= |chapters[ended].requests|
    ensures M.Effects(v, Steps(Asked(chapters, ended, served))) ==
            M.Effects(M.Effects(v, Steps(AllRequests(chapters[..ended]))), Steps(chapters[ended].requests[..served]))
  {
    hide M.Effects, Steps;
    StepsConcat(AllRequests(chapters[..ended]), chapters[ended].requests[..served]);
    EffectsConcat(v, Steps(AllRequests(chapters[..ended])), Steps(chapters[ended].requests[..served]));
  }

  lemma NoChapters(v: Entries, chapters: seq<Chapter>)
    ensures chapters[0..] == chapters && M.Effects(v, Steps(AllRequests(chapters[..0]))) == v
  {
  }

  // ---- room ----

  lemma {:induction false} FlushedFits(items: seq<Item>)
    requires FitsDisk(EntriesOf(items))
    ensures FitsDisk(EntriesOf(Flushed(items))) && Weight(EntriesOf(Flushed(items))) <= Weight(EntriesOf(items))
    decreases |items|
  {
    hide TotalBytes, KeysFit, FitsDisk, Weight;
    if items != [] {
      var n := |items| - 1;
      var front, last := items[..n], items[n];
      FitsParts(EntriesOf(front), [last.entries]);
      FlushedFits(front);
      var out := last.(onDisk := true);
      EntriesConcat(Flushed(front), [out]);
      EntriesOfOne(out);
      WeightConcat(EntriesOf(front), [last.entries]);
      WeightConcat(EntriesOf(Flushed(front)), [last.entries]);
      WeightOfOne(last.entries);
      FitsTogether(EntriesOf(Flushed(front)), last.entries, EntriesOf(front));
      assert Flushed(front) + [] == Flushed(front);
    }
  }

  lemma FitsTogether(ms: seq<Entries>, m: Entries, was: seq<Entries>)
    requires FitsDisk(ms) && FitsDisk(was + [m]) && Weight(ms + [m]) <= Weight(was + [m])
    ensures FitsDisk(ms + [m])
  {
    hide KeysFit, Weight;
    assert (was + [m])[|was|] == m;
    forall i | 0 <= i < |ms + [m]|
      ensures KeysFit((ms + [m])[i])
    {
      assert i < |ms| ==> (ms + [m])[i] == ms[i];
    }
  }

  lemma RoomAfterReopen(items: seq<Item>, n: nat)
    requires Room(items, n)
    ensures Room(AfterReopen(items), n)
  {
    hide TotalBytes, KeysFit, Flushed;
    var f := Flushed(items);
    var x := NewMemory(LastID(f) + 1);
    FlushedFits(items);
    EntriesConcat(f, [x]);
    EntriesOfOne(x);
    WeightConcat(EntriesOf(f), [map[]]);
    WeightOfOne(map[]);
    NoBytes();
    assert KeysFit(map[]) by { EmptyFits(); }
    hide EntriesOf, Weight;
  }

  // ---- lifetimes ----

  method EndChapter(db: Database, segmentCount: int, ghost room: nat) returns (again: Database)
    requires db.Valid() && db.open && Room(db.listing, room)
    modifies db
    ensures again.Valid() && again.open && Room(again.listing, room) && again.View() == old(db.View())
    ensures fresh(again) && fresh(again.repr) && fresh(again.memory.Repr)
  {
    hide Database.Valid, Database.View, FitsDisk, EntriesOf, Weight, AfterPasses, AfterReopen, Lively, Searchable;
    ghost var was := db.listing;
    ghost var passes;
    again, passes := CloseAndReopen(db, segmentCount);
    RoomAfterPasses(was, passes, room);
    RoomAfterReopen(AfterPasses(was, passes), room);
  }

  /**
   Session after session, the database being closed and opened after each: the view is everything that has been
   asked of it so far, folded in order. It ends early only where a get comes upon an empty file.
   */
  method Lifetime(db: Database, chapters: seq<Chapter>, height: KeyValue -> nat)
    returns (last: Database, ended: nat, served: nat)
    requires db.Valid() && db.open && ChaptersFit(chapters) && forall kv :: 1 <= height(kv) <= MAX_HEIGHT
    requires Room(db.listing, ChaptersLoad(chapters))
    modifies db, db.memory.Repr
    ensures last.Valid() && last.open && ended <= |chapters|
    ensures ended < |chapters| ==>
            served < |chapters[ended].requests| && Crashes(last.listing, chapters[ended].requests[served])
    ensures last.View() == M.Effects(old(db.View()), Steps(Asked(chapters, ended, served)))
  {
    hide Database.Valid, Database.View, Room, M.Effects, Steps, Crashes, AllFitting, ChaptersLoad, TotalLoad;
    last, ended, served := db, 0, 0;
    NoChapters(db.View(), chapters);
    while ended < |chapters|
      invariant ended <= |chapters| && last.Valid() && last.open && Room(last.listing, ChaptersLoad(chapters[ended..]))
      invariant last.View() == M.Effects(old(db.View()), Steps(AllRequests(chapters[..ended])))
      invariant (last == db || fresh(last)) && fresh(last.memory.Repr - old(db.memory.Repr))
    {
      OneMoreChapter(old(db.View()), chapters, ended);
      var requests := chapters[ended].requests;
      served := Session(last, requests, height, ChaptersLoad(chapters[ended + 1..]));
      AskedSoFar(old(db.View()), chapters, ended, served);
      if served < |requests| {
        return;
      }
      NothingLeft(requests);
      assert requests[..served] == requests;
      last := EndChapter(last, chapters[ended].segmentCount, ChaptersLoad(chapters[ended + 1..]));
      ended := ended + 1;
    }
    assert AllRequests(chapters[..ended]) + [] == AllRequests(chapters[..ended]);
  }

  lemma NothingLeft(requests: seq<Request>)
    ensures TotalLoad(requests[|requests|..]) == 0
  {
  }

  // ---- from end to end ----

  lemma RoomAtFirst(n: nat)
    requires n < DISK_LIMIT
    ensures Room([NewMemory(1)], n) && EntriesOf([NewMemory(1)]) == [map[]]
  {
    EntriesOfOne(NewMemory(1));
    WeightOfOne(map[]);
    NoBytes();
  }

  /** In a searchable listing get finds what is live. */
  lemma LiveIsFound(items: seq<Item>, key: Bytes)
    requires Searchable(items) && key in ViewOf(items)
    ensures FetchedFrom(items, key) == Value(ViewOf(items)[key])
  {
    SearchableFetches(items, key);
    hide FetchedFrom, Searchable, EntriesOf, Merged;
    NewestNonEmptyIsMerged(EntriesOf(items), key);
  }

  lemma WrittenIsSearchable(items: seq<Item>, es: seq<KeyValue>)
    requires items == [NewMemory(1)] || items == AfterSwap([NewMemory(1)])
    ensures Searchable(AfterWrite(items, es)) && AfterPasses(AfterWrite(items, es), []) == AfterWrite(items, es)
  {
    hide MapOf;
  }

  lemma AlonePair(key: Bytes, value: Bytes)
    ensures value != [] ==> PutLive(map[], key, value) == map[key := value]
    ensures Range(map[key := value], [], []) == map[key := value]
  {
  }

  lemma OneLoad(key: Bytes, value: Bytes)
    ensures Load([KeyValue(key, value)]) == |key| + |value|
  {
    assert [KeyValue(key, value)][..0] == [];
  }

  lemma RoomFits(items: seq<Item>, n: nat)
    requires Room(items, n)
    ensures FitsDisk(EntriesOf(items))
  {
  }

  /** In a new database nothing is found, and nothing can be removed. */
  method NothingInNew(key: Bytes, maxMemoryBytes: nat, height: nat) returns (got: Result<Bytes>, removed: Result<Bytes>)
    requires 1 <= |key| <= 1024 && 1 <= height <= MAX_HEIGHT
    ensures got == Ok([]) && removed == Ok([])
  {
    hide Database.Valid, ViewOf, FetchedFrom, AfterWrite, AfterSwap;
    var db := Create(maxMemoryBytes, true);
    AbsentIsNotFetched(db.listing, key);
    got := db.Get(key);
    removed := db.Remove(key, height);
  }

  /** Create, put, close without compaction, open, get, and read everything. */
  method PutReopenGet(key: Bytes, value: Bytes, maxMemoryBytes: nat, height: KeyValue -> nat)
    returns (got: Result<Bytes>, read: seq<KeyValue>)
    requires 1 <= |key| <= MAX_KEY_SIZE && 0 < |value| < 0x8000_0000 && forall kv :: 1 <= height(kv) <= MAX_HEIGHT
    ensures got == Ok(value)
    ensures Ascending(read) && Live(MapOf(read)) == map[key := value]
  {
    hide Database.Valid, ViewOf, Room, FitsDisk, FetchedFrom, Searchable, AfterWrite, AfterPasses, AfterReopen;
    hide EntriesOf;
    hide MapOf, Ascending, Live, Range, Lively;
    var es := [KeyValue(key, value)];
    OneLoad(key, value);
    NothingLeft([]);
    var db := Create(maxMemoryBytes, true);
    RoomAtFirst(|key| + |value|);
    WriteKeepsRoom(db, es, |key| + |value|);
    WrittenIsSearchable(db.Readied(), es);
    var _ := db.Put(key, value, height(es[0]));
    AlonePair(key, value);
    ghost var was, passes := db.listing, [];
    RoomFits(was, 0);
    RoomAfterReopen(was, 0);
    var again;
    again, passes := CloseAndReopen(db, 0);
    LiveIsFound(again.listing, key);
    got := again.Get(key);
    var served;
    read, served := ReadAmong(again, [], [], [], height);
  }
}
