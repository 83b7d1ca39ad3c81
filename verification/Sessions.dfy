/**
 Whole sessions on a database object: any sequence of requests folds into the view, and an iterator taken
 before them delivers the range of the view at that moment, whenever it is asked.
 */
module Sessions {
  import opened Bytes
  import opened KeyValues
  import opened KeyFormat
  import opened SkipLinks
  import opened DiskIterators
  import opened MemorySegments
  import opened MultiSegments
  import opened Segments
  import opened Views
  import opened Listings
  import opened Merger
  import opened Compaction
  import opened Databases
  import M = Machine

  datatype Request =
    | PutRequest(key: Bytes, value: Bytes)
    | RemoveRequest(key: Bytes)
    | WriteRequest(batch: seq<KeyValue>)
    | SnapshotRequest
    | MergeRequest(maxSegments: nat)

  /** The machine's step for a request; a merge as a whole does what a commit does to the view. */
  function StepOf(request: Request): M.Step {
    match request
    case PutRequest(key, value) => M.Put(key, value, false)
    case RemoveRequest(key) => M.Remove(key, false)
    case WriteRequest(batch) => M.Write(batch, false)
    case SnapshotRequest => M.Snapshot
    case MergeRequest(_) => M.MergeCommit
  }

  function Steps(requests: seq<Request>): (steps: seq<M.Step>)
    ensures |steps| == |requests|
  {
    if requests == [] then [] else Steps(requests[..|requests| - 1]) + [StepOf(requests[|requests| - 1])]
  }

  // ---- what fits on disk ----

  ghost predicate PairsFit(es: seq<KeyValue>) {
    forall i :: 0 <= i < |es| ==> 1 <= |es[i].key| <= MAX_KEY_SIZE && |es[i].value| < 0x8000_0000
  }

  ghost function Load(es: seq<KeyValue>): nat {
    if es == [] then 0 else Load(es[..|es| - 1]) + |es[|es| - 1].key| + |es[|es| - 1].value|
  }

  /** What a request adds at most. */
  ghost function Pairs(request: Request): seq<KeyValue> {
    match request
    case PutRequest(key, value) => [KeyValue(key, value)]
    case RemoveRequest(key) => [KeyValue(key, [])]
    case WriteRequest(batch) => batch
    case _ => []
  }

  /** Keys of at most 1000 bytes where they are not rejected, as files need them. */
  ghost predicate Fitting(request: Request) {
    match request
    case PutRequest(key, value) => Checked(true, key) == None ==> PairsFit([KeyValue(key, value)])
    case WriteRequest(batch) => PairsFit(batch)
    case MergeRequest(maxSegments) => maxSegments >= 1
    case _ => true
  }

  ghost function TotalLoad(requests: seq<Request>): nat {
    if requests == [] then 0 else Load(Pairs(requests[0])) + TotalLoad(requests[1..])
  }

  /** The listing fits on disk, and so will whatever else is put, up to n bytes. */
  ghost predicate Room(items: seq<Item>, n: nat) {
    FitsDisk(EntriesOf(items)) && Weight(EntriesOf(items)) + n < DISK_LIMIT
  }

  lemma {:induction false} LoadOfMap(es: seq<KeyValue>)
    requires PairsFit(es)
    ensures TotalBytes(MapOf(es)) <= Load(es) && KeysFit(MapOf(es))
    decreases |es|
  {
    hide TotalBytes;
    if es == [] {
      NoBytes();
    } else {
      var n := |es| - 1;
      LoadOfMap(es[..n]);
      TotalBytesAfterPut(MapOf(es[..n]), es[n].key, es[n].value);
    }
  }

  lemma NoBytes()
    ensures TotalBytes(map[]) == 0
  {
  }

  lemma RoomOnTop(items: seq<Item>, x: Item, y: Item, load: nat, n: nat)
    requires Room(items + [x], n) && KeysFit(y.entries) && TotalBytes(y.entries) <= TotalBytes(x.entries) + load &&
             load <= n
    ensures Room(items + [y], n - load)
  {
    hide TotalBytes, KeysFit;
    EntriesConcat(items, [x]);
    EntriesConcat(items, [y]);
    EntriesOfOne(x);
    EntriesOfOne(y);
    var ms := EntriesOf(items);
    WeightConcat(ms, [x.entries]);
    WeightConcat(ms, [y.entries]);
    WeightOfOne(x.entries);
    WeightOfOne(y.entries);
    FitsParts(ms, [x.entries]);
    hide EntriesOf, Weight;
    assert forall i :: 0 <= i < |ms| ==> (ms + [y.entries])[i] == ms[i];
  }

  lemma RoomAfterWrite(items: seq<Item>, es: seq<KeyValue>, n: nat)
    requires items != [] && Room(items, n) && PairsFit(es) && Load(es) <= n
    ensures Room(AfterWrite(items, es), n - Load(es))
  {
    hide TotalBytes, MapOf, EntriesOf, Weight;
    var k := |items| - 1;
    var x := items[k];
    var y := x.(entries := x.entries + MapOf(es));
    assert items == items[..k] + [x];
    LoadOfMap(es);
    TotalBytesOfUnion(x.entries, MapOf(es));
    LastFits(items, n);
    RoomOnTop(items[..k], x, y, Load(es), n);
  }

  lemma LastFits(items: seq<Item>, n: nat)
    requires items != [] && Room(items, n)
    ensures KeysFit(items[|items| - 1].entries)
  {
    EntriesAt(items, |items| - 1);
    hide KeysFit, EntriesOf;
    assert EntriesOf(items)[|items| - 1] == items[|items| - 1].entries;
  }

  lemma RoomAfterSwap(items: seq<Item>, n: nat)
    requires items != [] && Room(items, n)
    ensures Room(AfterSwap(items), n)
  {
    hide TotalBytes, KeysFit;
    var x := NewMemory(items[|items| - 1].upper + 1);
    EntriesConcat(items, [x]);
    EntriesOfOne(x);
    WeightConcat(EntriesOf(items), [map[]]);
    WeightOfOne(map[]);
    NoBytes();
    assert KeysFit(map[]) by { EmptyFits(); }
    hide EntriesOf, Weight;
  }

  lemma EmptyFits()
    ensures KeysFit(map[])
  {
  }

  lemma RoomAfterMerge(items: seq<Item>, start: nat, count: nat, n: nat)
    requires Room(items, n) && 1 <= count && start + count <= |items|
    ensures Room(AfterMerge(items, start, count), n)
  {
    hide TotalBytes, KeysFit, MergedEntries, EntriesOf, Weight;
    var a, w, b := items[..start], items[start..start + count], items[start + count..];
    assert items == a + w + b;
    EntriesConcat(a + w, b);
    EntriesConcat(a, w);
    EntriesAround(a, MergeOf(w, start == 0), b);
    MergeWeighsLess(EntriesOf(a), EntriesOf(w), EntriesOf(b), start == 0);
  }

  lemma MergeWeighsLess(a: seq<Entries>, w: seq<Entries>, b: seq<Entries>, purge: bool)
    requires FitsDisk(a + w + b)
    ensures FitsDisk(a + [MergedEntries(w, purge)] + b) &&
            Weight(a + [MergedEntries(w, purge)] + b) <= Weight(a + w + b)
  {
    FitsAfterMerge(a, w, b, purge);
    FitsParts(a + w, b);
    FitsParts(a, w);
    FitsMerged(w, purge);
    WeightConcat(a + w, b);
    WeightConcat(a, w);
    WeightConcat(a + [MergedEntries(w, purge)], b);
    WeightConcat(a, [MergedEntries(w, purge)]);
    WeightOfOne(MergedEntries(w, purge));
  }

  lemma {:induction false} RoomAfterPasses(items: seq<Item>, passes: seq<Pass>, n: nat)
    requires Room(items, n)
    ensures Room(AfterPasses(items, passes), n)
    decreases |passes|
  {
    hide Room, AfterMerge;
    if passes != [] {
      var t, p := AfterPasses(items, passes[..|passes| - 1]), passes[|passes| - 1];
      RoomAfterPasses(items, passes[..|passes| - 1], n);
      if InList(p, t) {
        RoomAfterMerge(t, p.start, p.count, n);
      }
    }
  }

  // ---- one request ----

  /** A remove whose get comes upon an empty file. */
  ghost predicate Crashes(items: seq<Item>, request: Request) {
    request.RemoveRequest? && Checked(true, request.key) == None && FetchedFrom(items, request.key) == UnmappedRead
  }

  lemma RoomReadied(db: Database, n: nat)
    requires Room(db.listing, n)
    ensures Room(db.Readied(), n)
  {
    hide Room, AfterSwap;
    if db.listing != [] {
      RoomAfterSwap(db.listing, n);
    }
  }

  lemma FoundKeyFits(items: seq<Item>, key: Bytes)
    requires FitsDisk(EntriesOf(items)) && FetchedFrom(items, key) != UnmappedRead &&
             FetchedFrom(items, key) != Value([])
    ensures PairsFit([KeyValue(key, [])])
  {
    var ms := EntriesOf(items);
    FetchedExactly(items, key);
    hide FetchedFrom, EntriesOf, Weight;
    NewestNonEmptyIsSomewhere(ms, key);
    hide NewestNonEmpty;
    var i :| 0 <= i < |ms| && key in ms[i] && ms[i][key] != [];
    assert KeysFit(ms[i]);
  }

  lemma WriteKeepsRoom(db: Database, es: seq<KeyValue>, n: nat)
    requires Room(db.listing, n) && db.Readied() != [] && PairsFit(es) && Load(es) <= n
    ensures Room(AfterWrite(db.Readied(), es), n - Load(es))
  {
    hide Room, PairsFit, Load, AfterWrite, Database.Readied;
    RoomReadied(db, n);
    RoomAfterWrite(db.Readied(), es, n);
  }

  method ServePut(db: Database, key: Bytes, value: Bytes, height: nat, ghost room: nat)
    requires db.Valid() && db.open && 1 <= height <= MAX_HEIGHT
    requires Checked(true, key) == None ==> PairsFit([KeyValue(key, value)])
    requires Room(db.listing, room) && Load([KeyValue(key, value)]) <= room
    modifies db, db.memory.Repr
    ensures db.Valid() && db.open && Room(db.listing, room - Load([KeyValue(key, value)]))
    ensures old(db.repr) <= db.repr <= old(db.repr + db.memory.Repr) && fresh(db.memory.Repr - old(db.memory.Repr))
    ensures db.View() == M.Effect(old(db.View()), M.Put(key, value, false))
  {
    hide Database.Valid, Database.View, Database.Readied, Room, PairsFit, Load, AfterWrite, AfterSwap;
    LessRoom(db.listing, room, Load([KeyValue(key, value)]));
    if Checked(true, key) == None && db.Readied() != [] {
      WriteKeepsRoom(db, [KeyValue(key, value)], room);
    }
    var _ := db.Put(key, value, height);
  }

  lemma LessRoom(items: seq<Item>, n: nat, m: nat)
    requires Room(items, n) && m <= n
    ensures Room(items, n - m)
  {
  }

  method ServeRemove(db: Database, key: Bytes, height: nat, ghost room: nat) returns (ok: bool)
    requires db.Valid() && db.open && 1 <= height <= MAX_HEIGHT
    requires Room(db.listing, room) && Load([KeyValue(key, [])]) <= room
    modifies db, db.memory.Repr
    ensures db.Valid() && db.open && Room(db.listing, room - Load([KeyValue(key, [])]))
    ensures old(db.repr) <= db.repr <= old(db.repr + db.memory.Repr) && fresh(db.memory.Repr - old(db.memory.Repr))
    ensures ok <==> !Crashes(old(db.listing), RemoveRequest(key))
    ensures !ok ==> db.listing == old(db.listing)
    ensures db.View() == if ok then M.Effect(old(db.View()), M.Remove(key, false)) else old(db.View())
  {
    hide Database.Valid, Database.View, Database.Readied, PairsFit, Load, AfterWrite, AfterSwap, FetchedFrom, FitsDisk;
    hide EntriesOf, Weight;
    LessRoom(db.listing, room, Load([KeyValue(key, [])]));
    if FetchedFrom(db.listing, key) != UnmappedRead && FetchedFrom(db.listing, key) != Value([]) {
      FoundKeyFits(db.listing, key);
      if db.Readied() != [] {
        WriteKeepsRoom(db, [KeyValue(key, [])], room);
      }
    }
    var r := db.Remove(key, height);
    ok := r != Err(NullRead);
  }

  method ServeWrite(db: Database, batch: seq<KeyValue>, height: KeyValue -> nat, ghost room: nat)
    requires db.Valid() && db.open && PairsFit(batch) && forall kv :: 1 <= height(kv) <= MAX_HEIGHT
    requires Room(db.listing, room) && Load(batch) <= room
    modifies db, db.memory.Repr
    ensures db.Valid() && db.open && Room(db.listing, room - Load(batch))
    ensures old(db.repr) <= db.repr <= old(db.repr + db.memory.Repr) && fresh(db.memory.Repr - old(db.memory.Repr))
    ensures db.View() == PutsLive(old(db.View()), batch)
  {
    hide Database.Valid, Database.View, Database.Readied, Room, PairsFit, Load, AfterWrite, AfterSwap, PutsLive;
    hide NoEmptyKeyIn;
    NoneEmpty(batch);
    if db.Readied() != [] {
      WriteKeepsRoom(db, batch, room);
    }
    var _ := db.Write(batch, height);
  }

  lemma NoneEmpty(es: seq<KeyValue>)
    requires PairsFit(es)
    ensures NoEmptyKeyIn(es)
  {
  }

  method ServeSnapshot(db: Database, ghost room: nat)
    requires db.Valid() && db.open && Room(db.listing, room)
    modifies db
    ensures db.Valid() && db.open && Room(db.listing, room) && db.View() == old(db.View())
    ensures old(db.listing) != [] && db.listing == AfterSwap(old(db.listing))
    ensures old(db.repr) <= db.repr <= old(db.repr + db.memory.Repr) && fresh(db.memory.Repr - old(db.memory.Repr))
  {
    hide Database.Valid, Database.View, Room, AfterSwap;
    OpenIsListed(db);
    RoomAfterSwap(db.listing, room);
    var _ := db.TakeSnapshot();
  }

  lemma OpenIsListed(db: Database)
    requires db.Valid() && db.open
    ensures db.listing != []
  {
  }

  method ServeMerge(db: Database, maxSegments: nat, ghost room: nat)
    requires db.Valid() && db.open && Room(db.listing, room) && maxSegments >= 1
    modifies db
    ensures db.Valid() && db.open && Room(db.listing, room) && db.View() == old(db.View())
    ensures db.repr == old(db.repr) && db.memory == old(db.memory) && |db.segments| <= maxSegments
  {
    hide Database.Valid, Database.View, AfterPasses, PassesOk, PassesChosen, FitsDisk, EntriesOf, Weight, Lively;
    hide Searchable;
    ghost var was := db.listing;
    ghost var passes := db.Merge(maxSegments);
    RoomAfterPasses(was, passes, room);
  }

  /** Serves one request. Only a get in an empty file can go wrong, and then nothing has been changed. */
  method Serve(db: Database, request: Request, height: KeyValue -> nat, ghost room: nat) returns (ok: bool)
    requires db.Valid() && db.open && Fitting(request) && forall kv :: 1 <= height(kv) <= MAX_HEIGHT
    requires Room(db.listing, room) && Load(Pairs(request)) <= room
    modifies db, db.memory.Repr
    ensures db.Valid() && db.open && Room(db.listing, room - Load(Pairs(request)))
    ensures old(db.repr) <= db.repr <= old(db.repr + db.memory.Repr) && fresh(db.memory.Repr - old(db.memory.Repr))
    ensures ok <==> !Crashes(old(db.listing), request)
    ensures !ok ==> db.listing == old(db.listing)
    ensures db.View() == if ok then M.Effect(old(db.View()), StepOf(request)) else old(db.View())
    ensures request.SnapshotRequest? ==> old(db.listing) != [] && db.listing == AfterSwap(old(db.listing))
    ensures request.MergeRequest? ==> |db.segments| <= request.maxSegments
  {
    hide Database.Valid, Database.View, Room, PairsFit, FetchedFrom, PutsLive, AfterSwap;
    ok := true;
    match request
    case PutRequest(key, value) =>
      ServePut(db, key, value, height(KeyValue(key, value)), room);
    case RemoveRequest(key) =>
      ok := ServeRemove(db, key, height(KeyValue(key, [])), room);
    case WriteRequest(batch) =>
      ServeWrite(db, batch, height, room);
    case SnapshotRequest =>
      ServeSnapshot(db, room);
    case MergeRequest(maxSegments) =>
      ServeMerge(db, maxSegments, room);
  }

  // ---- sessions ----

  ghost predicate AllFitting(requests: seq<Request>) {
    forall i :: 0 <= i < |requests| ==> Fitting(requests[i])
  }

  /**
   Serves requests until one crashes. Whatever they are, merges included, the view is the clients' operations
   folded in order, the same fold as that of the machine.
   */
  method Session(db: Database, requests: seq<Request>, height: KeyValue -> nat, ghost spare: nat) returns (served: nat)
    requires db.Valid() && db.open && AllFitting(requests) && forall kv :: 1 <= height(kv) <= MAX_HEIGHT
    requires Room(db.listing, TotalLoad(requests) + spare)
    modifies db, db.memory.Repr
    ensures db.Valid() && db.open && served <= |requests| && Room(db.listing, TotalLoad(requests[served..]) + spare)
    ensures db.View() == M.Effects(old(db.View()), Steps(requests[..served]))
    ensures served < |requests| ==> Crashes(db.listing, requests[served])
    ensures old(db.repr) <= db.repr && fresh(db.memory.Repr - old(db.memory.Repr)) &&
            fresh(db.repr - old(db.repr + db.memory.Repr))
  {
    hide Database.Valid, Database.View, Room, Fitting, M.Effect, M.Effects, Steps, Crashes, Load, Pairs;
    served := 0;
    NothingServed(db.View(), requests);
    while served < |requests|
      invariant served <= |requests| && db.Valid() && db.open && Room(db.listing, TotalLoad(requests[served..]) + spare)
      invariant db.View() == M.Effects(old(db.View()), Steps(requests[..served]))
      invariant old(db.repr) <= db.repr && fresh(db.memory.Repr - old(db.memory.Repr)) &&
                fresh(db.repr - old(db.repr + db.memory.Repr))
    {
      NextLoad(requests, served);
      OneMoreServed(old(db.View()), requests, served);
      var ok := Serve(db, requests[served], height, TotalLoad(requests[served..]) + spare);
      if !ok {
        return;
      }
      served := served + 1;
    }
  }

  lemma NothingServed(v: Entries, requests: seq<Request>)
    ensures requests[0..] == requests && M.Effects(v, Steps(requests[..0])) == v
  {
  }

  lemma NextLoad(requests: seq<Request>, i: nat)
    requires i < |requests|
    ensures TotalLoad(requests[i..]) == Load(Pairs(requests[i])) + TotalLoad(requests[i + 1..])
  {
    assert requests[i..][1..] == requests[i + 1..];
  }

  lemma OneMoreServed(v: Entries, requests: seq<Request>, i: nat)
    requires i < |requests|
    ensures M.Effects(v, Steps(requests[..i + 1])) == M.Effect(M.Effects(v, Steps(requests[..i])), StepOf(requests[i]))
  {
    hide M.Effect;
    assert requests[..i + 1][..i] == requests[..i];
    var steps := Steps(requests[..i + 1]);
    assert steps[..i] == Steps(requests[..i]);
  }

  // ---- an iterator among requests ----

  /** The iterator shares nothing with what requests write to. */
  ghost predicate Detached(itr: MultiIterator, db: Database)
    reads db, db.memory
  {
    && itr.repr <= itr.own + db.repr
    && itr.own !! db.repr && itr !in db.repr
    && itr.own !! db.memory.Repr && itr !in db.memory.Repr
    && db !in itr.own && db.memory !in itr.own
  }

  lemma Separate(db: Database)
    requires db.Valid() && db.open
    ensures db.memory.Repr !! db.repr && db !in db.repr && db !in db.memory.Repr && db.memory in db.memory.Repr
  {
  }

  /** Serving a request leaves an iterator taken before as it was. */
  method ServeBeside(db: Database, itr: MultiIterator, request: Request, height: KeyValue -> nat, ghost room: nat)
    returns (ok: bool)
    requires db.Valid() && db.open && Fitting(request) && forall kv :: 1 <= height(kv) <= MAX_HEIGHT
    requires Room(db.listing, room) && Load(Pairs(request)) <= room
    requires itr.Valid() && Detached(itr, db)
    modifies db, db.memory.Repr
    ensures db.Valid() && db.open && Room(db.listing, room - Load(Pairs(request)))
    ensures old(db.repr) <= db.repr <= old(db.repr + db.memory.Repr) && fresh(db.memory.Repr - old(db.memory.Repr))
    ensures ok <==> !Crashes(old(db.listing), request)
    ensures db.View() == if ok then M.Effect(old(db.View()), StepOf(request)) else old(db.View())
    ensures !ok ==> db.listing == old(db.listing)
    ensures itr.Valid() && itr.rems == old(itr.rems) && Detached(itr, db)
  {
    hide Database.Valid, Database.View, MultiIterator.Valid, Room, Fitting, M.Effect, Crashes, Load, Pairs;
    Separate(db);
    ok := Serve(db, request, height, room);
    Separate(db);
  }

  /** What an iterator has delivered so far and what is still to come make up `all`. */
  ghost predicate Reading(itr: MultiIterator, all: Entries, out: seq<KeyValue>, done: bool)
    reads itr, itr.repr
  {
    && itr.Valid() && NoEmptyKey(itr.rems)
    && if done then Ascending(out) && MapOf(out) == all else Drained(all, out, Merged(itr.rems))
  }

  /** One request, and one pair. */
  method ServeAndRead(db: Database, itr: MultiIterator, request: Request, height: KeyValue -> nat, ghost room: nat,
                      ghost all: Entries, out: seq<KeyValue>, done: bool)
    returns (ok: bool, out': seq<KeyValue>, done': bool)
    requires db.Valid() && db.open && Fitting(request) && forall kv :: 1 <= height(kv) <= MAX_HEIGHT
    requires Room(db.listing, room) && Load(Pairs(request)) <= room
    requires Reading(itr, all, out, done) && Detached(itr, db)
    modifies db, db.memory.Repr, itr`rems, itr.own
    ensures db.Valid() && db.open && Room(db.listing, room - Load(Pairs(request)))
    ensures fresh(db.memory.Repr - old(db.memory.Repr))
    ensures ok <==> !Crashes(old(db.listing), request)
    ensures !ok ==> db.listing == old(db.listing)
    ensures db.View() == if ok then M.Effect(old(db.View()), StepOf(request)) else old(db.View())
    ensures Reading(itr, all, out', done') && Detached(itr, db)
  {
    hide Database.Valid, Database.View, MultiIterator.Valid, Room, Fitting, M.Effect, Crashes, Load, Pairs;
    hide NoEmptyKey, Ascending, MapOf, Drained, Merged;
    ok := ServeBeside(db, itr, request, height, room);
    out', done' := out, done;
    Separate(db);
    if ok && !done {
      out', done' := ReadOne(itr, all, out);
    }
  }

  /**
   An iterator is taken; then requests are served, one pair being read after each; then the rest is read.
   What has been read in all is the range of the view as it was when the iterator was taken.
   */
  method ReadAmong(db: Database, lower: Bytes, upper: Bytes, requests: seq<Request>, height: KeyValue -> nat)
    returns (out: seq<KeyValue>, served: nat)
    requires db.Valid() && db.open && AllFitting(requests) && forall kv :: 1 <= height(kv) <= MAX_HEIGHT
    requires Room(db.listing, TotalLoad(requests))
    modifies db, db.memory.Repr
    ensures db.Valid() && db.open && served <= |requests|
    ensures db.View() == M.Effects(old(db.View()), Steps(requests[..served]))
    ensures served < |requests| ==> Crashes(db.listing, requests[served])
    ensures Ascending(out) && (!Crossed(lower, upper) ==> Live(MapOf(out)) == Range(old(db.View()), lower, upper))
  {
    hide Database.Valid, Database.View, Room, Fitting, M.Effect, M.Effects, Steps, Crashes, Load, Pairs;
    hide Crossed, Merged, MapOf, Ascending, Range, Reading, Detached;
    NothingServed(db.View(), requests);
    var itr := TakeIterator(db, lower, upper, TotalLoad(requests));
    ghost var all := Merged(itr.rems);
    out, served := [], 0;
    var ok, done := true, false;
    while served < |requests| && ok
      invariant served <= |requests| && db.Valid() && db.open && Room(db.listing, TotalLoad(requests[served..]))
      invariant db.View() == M.Effects(old(db.View()), Steps(requests[..served]))
      invariant fresh(db.memory.Repr - old(db.memory.Repr)) && fresh(itr) && fresh(itr.own)
      invariant Reading(itr, all, out, done) && Detached(itr, db)
      invariant !ok ==> served < |requests| && Crashes(db.listing, requests[served])
      decreases |requests| - served, ok
    {
      NextLoad(requests, served);
      OneMoreServed(old(db.View()), requests, served);
      ok, out, done := ServeAndRead(db, itr, requests[served], height, TotalLoad(requests[served..]), all, out, done);
      if ok {
        served := served + 1;
      }
    }
    Separate(db);
    IsDetached(itr, db);
    out := ReadRest(itr, all, out, done);
  }

  lemma IsDetached(itr: MultiIterator, db: Database)
    requires Detached(itr, db)
    ensures itr.own !! db.repr && itr !in db.repr && itr.own !! db.memory.Repr && itr !in db.memory.Repr &&
            db !in itr.own && db.memory !in itr.own
  {
  }

  method TakeIterator(db: Database, lower: Bytes, upper: Bytes, ghost room: nat) returns (itr: MultiIterator)
    requires db.Valid() && db.open && Room(db.listing, room)
    modifies db
    ensures db.Valid() && db.open && Room(db.listing, room) && db.View() == old(db.View()) && fresh(db.memory.Repr)
    ensures fresh(itr) && fresh(itr.own) && Detached(itr, db) && Reading(itr, Merged(itr.rems), [], false)
    ensures !Crossed(lower, upper) ==> Live(Merged(itr.rems)) == Range(old(db.View()), lower, upper)
  {
    hide Database.Valid, Database.View, MultiIterator.Valid, Room, DeliveredAll, EntriesOf, Crossed, Merged, MapOf;
    hide Ascending, Range, AfterSwap, NoEmptyKey, Drained;
    OpenIsListed(db);
    RoomAfterSwap(db.listing, room);
    Separate(db);
    var lookup := db.Lookup(lower, upper);
    itr := lookup.value;
    Separate(db);
    DrainStarts(Merged(itr.rems));
  }

  method ReadOne(itr: MultiIterator, ghost all: Entries, out: seq<KeyValue>) returns (out': seq<KeyValue>, done: bool)
    requires itr.Valid() && NoEmptyKey(itr.rems) && Drained(all, out, Merged(itr.rems))
    modifies itr`rems, itr.own
    ensures itr.Valid() && NoEmptyKey(itr.rems)
    ensures if done then Ascending(out') && MapOf(out') == all
            else Drained(all, out', Merged(itr.rems)) && |Merged(itr.rems)| < |Merged(old(itr.rems))|
    ensures done ==> |Merged(itr.rems)| == |Merged(old(itr.rems))|
  {
    hide Merged, Less, MultiIterator.Valid, NoEmptyKey, MapOf, Ascending, Drained;
    ghost var rem := Merged(itr.rems);
    MergedHasNoEmptyKey(itr.rems);
    var kv := itr.Next();
    DrainStep(all, out, rem, kv);
    if kv.key == [] {
      assert rem - {[]} == rem;
      return out, true;
    }
    return out + [kv], false;
  }

  method ReadRest(itr: MultiIterator, ghost all: Entries, out: seq<KeyValue>, done: bool) returns (out': seq<KeyValue>)
    requires Reading(itr, all, out, done)
    modifies itr`rems, itr.own
    ensures Ascending(out') && MapOf(out') == all
  {
    hide Merged, MultiIterator.Valid, NoEmptyKey, MapOf, Ascending, Drained;
    out' := out;
    var done' := done;
    while !done'
      invariant Reading(itr, all, out', done')
      decreases |Merged(itr.rems)|, !done'
    {
      out', done' := ReadOne(itr, all, out');
    }
  }
}
