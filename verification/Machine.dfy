/**
 The database as a state machine. Clients act under the database lock, one step each; the merger copies
 the segment list without the lock, reads the segments of its window at its own pace, and commits later.
 Segments are reached through references, so that what a copied list means depends on what others do
 to the objects behind it.
 */
module Machine {
  import opened Bytes
  import opened KeyValues
  import opened KeyFormat
  import opened Views
  import opened Listings

  type Ref = nat

  /**
   The merger between its read and its commit: the list it copied, its window, and what it has read of the window
   so far.
   */
  datatype Merge = Idle | Merging(read: seq<Ref>, start: nat, count: nat, loaded: map<nat, Entries>)

  /** What ends a run: the merger's "unexpected segment change", or a get that reads where nothing is mapped. */
  datatype Fault = NoFault | UnexpectedChange | BadRead

  datatype Db = Db(
    heap: map<Ref, Item>, nextRef: Ref,
    segments: seq<Ref>, memory: Ref, nextSegID: nat,
    merge: Merge, fault: Fault)

  /** `swap` tells whether the memory segment was over its limit when the step began. */
  datatype Step =
    | Put(key: Bytes, value: Bytes, swap: bool)
    | Remove(key: Bytes, swap: bool)
    | Write(batch: seq<KeyValue>, swap: bool)
    | Snapshot
    | MergeRead(start: nat, count: nat)
    | MergeLoad(i: nat)
    | MergeCommit
    | Reopen

  predicate CheckKey(key: Bytes) {
    key != [] && |key| <= 1024
  }

  // ---- what a state means ----

  /** What an iterator sees of a segment: the empty key sorts first and ends the iteration at once. */
  ghost function Visible(m: Entries): Entries {
    if [] in m then map[] else m
  }

  /** Both readers of a key file fail on a key of more than 1000 bytes. */
  ghost predicate Decodable(x: Item) {
    x.onDisk ==> forall k :: k in x.entries ==> |k| <= MAX_KEY_SIZE
  }

  ghost function Seen(items: seq<Item>): (seen: seq<Item>)
    ensures |seen| == |items| && forall i :: 0 <= i < |seen| ==>
            seen[i] == items[i].(entries := Visible(items[i].entries))
  {
    seq(|items|, i requires 0 <= i < |items| => items[i].(entries := Visible(items[i].entries)))
  }

  ghost function Look(heap: map<Ref, Item>, refs: seq<Ref>): (items: seq<Item>)
    requires forall i :: 0 <= i < |refs| ==> refs[i] in heap
    ensures |items| == |refs| && forall i :: 0 <= i < |items| ==> items[i] == heap[refs[i]]
  {
    seq(|refs|, i requires 0 <= i < |refs| => heap[refs[i]])
  }

  ghost predicate InHeap(s: Db) {
    s.memory in s.heap && forall i :: 0 <= i < |s.segments| ==> s.segments[i] in s.heap
  }

  ghost function Listing(s: Db): seq<Item>
    requires InHeap(s)
  {
    Look(s.heap, s.segments + [s.memory])
  }

  /** What an iterator over everything delivers, removals left out; None when it throws on the way. */
  ghost function ViewOfAll(items: seq<Item>): Option<Entries> {
    if forall i :: 0 <= i < |items| ==> Decodable(items[i]) then Some(ViewOf(Seen(items))) else None
  }

  ghost function View(s: Db): Option<Entries> {
    if InHeap(s) then ViewOfAll(Listing(s)) else None
  }

  /**
   get goes to the segments themselves, not through their iterators. Whether it comes upon an undecodable
   key depends on the block it scans; here every lookup in such a file counts as a bad read.
   */
  ghost function Fetch(items: seq<Item>, k: Bytes): Fetched {
    if items == [] then Value([])
    else
      var last := items[|items| - 1];
      if last.onDisk && (last.entries == map[] || !Decodable(last)) then UnmappedRead
      else
        var v := ValueIn(last.entries, k);
        if v != [] then Value(v) else Fetch(items[..|items| - 1], k)
  }

  // ---- the steps ----

  /** The current memory segment joins the list and a new, empty one takes its place. */
  ghost function Swap(s: Db): Db {
    var id := s.nextSegID + 1;
    s.(heap := s.heap[s.nextRef := NewMemory(id)], nextRef := s.nextRef + 1,
       segments := s.segments + [s.memory], memory := s.nextRef, nextSegID := id)
  }

  ghost function MaybeSwap(s: Db, swap: bool): Db {
    if swap then Swap(s) else s
  }

  ghost function PutAll(s: Db, es: seq<KeyValue>): Db
    requires s.memory in s.heap
  {
    var m := s.heap[s.memory];
    s.(heap := s.heap[s.memory := m.(entries := m.entries + MapOf(es))])
  }

  /** Every reference of the window is still where the merger found it. */
  ghost predicate WindowUnchanged(s: Db)
    requires s.merge.Merging? && s.merge.start + s.merge.count <= |s.merge.read|
  {
    forall i :: s.merge.start <= i < s.merge.start + s.merge.count ==>
      i < |s.segments| && s.segments[i] == s.merge.read[i]
  }

  ghost predicate AllLoaded(s: Db) {
    s.merge.Merging? && forall i :: 0 <= i < s.merge.count ==> i in s.merge.loaded
  }

  /** What the merger has read of its window, segment by segment. */
  ghost function Loaded(loaded: map<nat, Entries>, count: nat): (ms: seq<Entries>)
    requires forall i :: 0 <= i < count ==> i in loaded
    ensures |ms| == count && forall i :: 0 <= i < count ==> ms[i] == Visible(loaded[i])
  {
    seq(count, i requires 0 <= i < count => Visible(loaded[i]))
  }

  ghost function Commit(s: Db): Db
    requires Able(s) && AllLoaded(s)
  {
    var Merging(read, start, count, loaded) := s.merge;
    if !WindowUnchanged(s) then s.(merge := Idle, fault := UnexpectedChange)
    else
      var x := Item(s.heap[read[start]].lower, s.heap[read[start + count - 1]].upper,
        MergedEntries(Loaded(loaded, count), start == 0), true);
      s.(heap := s.heap[s.nextRef := x], nextRef := s.nextRef + 1,
         segments := s.segments[..start] + [s.nextRef] + s.segments[start + count..], merge := Idle)
  }

  ghost function Refs(first: Ref, n: nat): (refs: seq<Ref>)
    ensures |refs| == n && forall i :: 0 <= i < n ==> refs[i] == first + i
  {
    seq(n, i => first + i)
  }

  ghost function Placed(items: seq<Item>, first: Ref): (heap: map<Ref, Item>)
    ensures forall r :: r in heap <==> first <= r < first + |items|
    ensures forall r :: r in heap ==> heap[r] == items[r - first]
  {
    if items == [] then map[]
    else
      var n := |items| - 1;
      Placed(items[..n], first)[first + n := items[n]]
  }

  /** Closing waits for the merger and writes out what is in memory; opening makes new objects of the files. */
  ghost function Reopened(s: Db): Db
    requires InHeap(s)
  {
    var items := AfterReopen(Seen(Listing(s)));
    var n := |items|;
    s.(heap := s.heap + Placed(items, s.nextRef),
       nextRef := s.nextRef + n, segments := Refs(s.nextRef, n - 1), memory := s.nextRef + n - 1,
       nextSegID := items[n - 1].upper)
  }

  ghost predicate Able(s: Db) {
    && InHeap(s)
    && (s.merge.Merging? ==>
          && s.merge.count >= 2 && s.merge.start + s.merge.count <= |s.merge.read|
          && forall i :: 0 <= i < |s.merge.read| ==> s.merge.read[i] in s.heap)
  }

  /** One step; a step that is not possible changes nothing, and nothing happens after a fault. */
  ghost function Next(s: Db, step: Step): Db {
    if s.fault != NoFault || !Able(s) then s
    else
      match step
      case Put(key, value, swap) =>
        if CheckKey(key) then PutAll(MaybeSwap(s, swap), [KeyValue(key, value)]) else s
      case Remove(key, swap) =>
        if !CheckKey(key) then s
        else
          (match Fetch(Listing(s), key)
           case UnmappedRead => s.(fault := BadRead)
           case Value(v) => if v == [] then s else PutAll(MaybeSwap(s, swap), [KeyValue(key, [])]))
      case Write(batch, swap) =>
        PutAll(MaybeSwap(s, swap), batch)
      case Snapshot =>
        Swap(s)
      case MergeRead(start, count) =>
        if s.merge.Idle? && count >= 2 && start + count <= |s.segments|
        then s.(merge := Merging(s.segments, start, count, map[])) else s
      case MergeLoad(i) =>
        if s.merge.Merging? && i < s.merge.count then
          var x := s.heap[s.merge.read[s.merge.start + i]];
          s.(merge := if Decodable(x) then s.merge.(loaded := s.merge.loaded[i := x.entries]) else Idle)
        else s
      case MergeCommit =>
        if AllLoaded(s) then Commit(s) else s
      case Reopen =>
        if s.merge.Idle? then Reopened(s) else s
  }

  ghost function Run(s: Db, steps: seq<Step>): Db {
    if steps == [] then s else Next(Run(s, steps[..|steps| - 1]), steps[|steps| - 1])
  }

  // ---- the clients' own account: a plain map ----

  /** What a step does to the map its caller has in mind. */
  function Effect(v: Entries, step: Step): Entries {
    match step
    case Put(key, value, _) => if CheckKey(key) then PutLive(v, key, value) else v
    case Remove(key, _) => if CheckKey(key) then v - {key} else v
    case Write(batch, _) => PutsLive(v, batch)
    case _ => v
  }

  function Effects(v: Entries, steps: seq<Step>): Entries {
    if steps == [] then v else Effect(Effects(v, steps[..|steps| - 1]), steps[|steps| - 1])
  }
}
