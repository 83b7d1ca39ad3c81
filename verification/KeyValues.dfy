/** Key/value pairs, ascending lists of them, and the finite maps they stand for. */
module KeyValues {
  import opened Bytes

  datatype KeyValue = KeyValue(key: Bytes, value: Bytes)

  /** KeyValue::EMPTY(), the end marker of every iterator. */
  const EMPTY := KeyValue([], [])

  /** What a segment holds: a value for each key, the empty value marking a removed key. */
  type Entries = map<Bytes, Bytes>

  ghost predicate IsLeast(m: Entries, k: Bytes) {
    k in m && forall j :: j in m ==> !Less(j, k)
  }

  lemma {:induction false} LeastExists(m: Entries)
    requires m != map[]
    ensures exists k :: IsLeast(m, k)
    decreases |m|
  {
    LessIsStrictTotalOrder();
    hide Less;
    var k :| k in m;
    var rest := m - {k};
    assert forall j :: j in m ==> j == k || j in rest;
    if rest == map[] {
      assert IsLeast(m, k);
    } else {
      assert |rest| < |m| by {
        assert rest.Keys == m.Keys - {k};
      }
      LeastExists(rest);
      var j :| IsLeast(rest, j);
      assert IsLeast(m, if Less(j, k) then j else k);
    }
  }

  /** The pair an iterator over m delivers first; EMPTY when there is none. */
  ghost function First(m: Entries): (kv: KeyValue)
    ensures m == map[] ==> kv == EMPTY
    ensures m != map[] ==> IsLeast(m, kv.key) && kv.value == m[kv.key]
  {
    if m == map[] then EMPTY
    else
      LeastExists(m);
      var k :| IsLeast(m, k);
      KeyValue(k, m[k])
  }

  lemma FirstIs(m: Entries, k: Bytes)
    requires IsLeast(m, k)
    ensures First(m) == KeyValue(k, m[k])
  {
    LessIsStrictTotalOrder();
    hide Less;
  }

  predicate InRange(k: Bytes, lower: Bytes, upper: Bytes) {
    (lower == [] || !Less(k, lower)) && (upper == [] || !Less(upper, k))
  }

  /** The entries with lower <= key <= upper, an empty bound leaving that side open. */
  ghost function Range(m: Entries, lower: Bytes, upper: Bytes): Entries {
    map k | k in m && InRange(k, lower, upper) :: m[k]
  }

  lemma RangeOfAll(m: Entries)
    ensures Range(m, [], []) == m
  {
  }

  ghost predicate Ascending(es: seq<KeyValue>) {
    forall i, j :: 0 <= i < j < |es| ==> Less(es[i].key, es[j].key)
  }

  /** Both bounds are part of the range. */
  lemma BoundsAreIncluded(m: Entries, k: Bytes)
    requires k in m && k != []
    ensures Range(m, k, k) == map[k := m[k]]
  {
    LessIsStrictTotalOrder();
    hide Less;
  }

  /** The entries after putting es one after the other into an empty map. */
  ghost function MapOf(es: seq<KeyValue>): Entries {
    if es == [] then map[] else MapOf(es[..|es| - 1])[es[|es| - 1].key := es[|es| - 1].value]
  }

  lemma {:induction false} MapOfConcat(a: seq<KeyValue>, b: seq<KeyValue>)
    ensures MapOf(a + b) == MapOf(a) + MapOf(b)
    decreases |b|
  {
    if b == [] {
      assert a + b == a;
    } else {
      var front := b[..|b| - 1];
      assert (a + b)[..|a + b| - 1] == a + front;
      MapOfConcat(a, front);
    }
  }

  lemma MapOfAppend(es: seq<KeyValue>, kv: KeyValue)
    ensures MapOf(es + [kv]) == MapOf(es)[kv.key := kv.value]
  {
    assert (es + [kv])[..|es|] == es;
  }
}
