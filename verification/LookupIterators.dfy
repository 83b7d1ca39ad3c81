/** The iterators a segment hands out, behind one interface: peekKey never consumes, next delivers in key order. */
module LookupIterators {
  import opened Bytes
  import opened KeyValues
  import opened SkipIterators
  import opened DiskIterators

  datatype LookupIterator =
    | Memory(m: SkipListIterator)
    | Disk(d: DiskIterator)
    | Empty
  {
    /** The objects that peekKey and next write to. */
    ghost function Own(): set<object> {
      match this
      case Memory(m) => {m, m.itr}
      case Disk(d) => {d}
      case Empty => {}
    }

    /** Everything the iterator depends on: in addition, the list that a memory segment's iterator walks. */
    ghost function Foot(): set<object> {
      match this
      case Memory(m) => {m, m.itr, m.itr.list} + m.nodes
      case Disk(d) => {d}
      case Empty => {}
    }

    ghost predicate Valid()
      reads Foot()
    {
      match this
      case Memory(m) => m.Valid()
      case Disk(d) => d.Valid()
      case Empty => true
    }

    /** What is still to be delivered. */
    ghost function Rem(): Entries
      requires Valid()
      reads Foot()
    {
      match this
      case Memory(m) => m.Rem()
      case Disk(d) => d.Rem()
      case Empty => map[]
    }

    method PeekKey() returns (key: Bytes)
      requires Valid()
      modifies Own()
      ensures Valid() && Rem() == old(Rem()) && key == First(Rem()).key
    {
      match this
      case Memory(m) => key := m.PeekKey();
      case Disk(d) => key := d.PeekKey();
      case Empty => key := [];
    }

    method Next() returns (kv: KeyValue)
      requires Valid()
      modifies Own()
      ensures Valid() && Rem() == old(Rem()) - {kv.key}
      ensures kv.key == old(First(Rem())).key && (old(Rem()) != map[] ==> kv == old(First(Rem())))
    {
      match this
      case Memory(m) => kv := m.Next();
      case Disk(d) => kv := d.Next();
      case Empty => kv := EMPTY;
    }
  }
}
