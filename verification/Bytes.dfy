/**
 The byte strings of the store and the order in which everything is sorted:
 bytewise lexicographic, a proper prefix coming first.
 */
module Bytes {

  type byte = x: int | 0 <= x < 256

  type Bytes = seq<byte>

  datatype Option<+T> = None | Some(value: T)

  /** memcmp over two runs of equal length. */
  function MemCmp(a: Bytes, b: Bytes): int
    requires |a| == |b|
  {
    if a == [] then 0
    else if a[0] != b[0] then a[0] - b[0]
    else MemCmp(a[1..], b[1..])
  }

  /** Slice::compareTo */
  function CompareTo(a: Bytes, b: Bytes): int {
    var min := if |a| <= |b| then |a| else |b|;
    var result := MemCmp(a[..min], b[..min]);
    if result != 0 then result else |a| - |b|
  }

  /** Slice::less */
  predicate Less(a: Bytes, b: Bytes) {
    CompareTo(a, b) < 0
  }

  lemma CompareToTail(a: Bytes, b: Bytes)
    requires a != [] && b != [] && a[0] == b[0]
    ensures CompareTo(a, b) == CompareTo(a[1..], b[1..])
  {
    var min := if |a| <= |b| then |a| else |b|;
    assert a[..min][1..] == a[1..][..min - 1];
    assert b[..min][1..] == b[1..][..min - 1];
  }

  lemma {:induction false} CompareToSigns(a: Bytes, b: Bytes)
    ensures CompareTo(a, b) == 0 <==> a == b
    ensures CompareTo(a, b) < 0 <==> CompareTo(b, a) > 0
    decreases |a|
  {
    if a != [] && b != [] && a[0] == b[0] {
      CompareToTail(a, b);
      CompareToTail(b, a);
      CompareToSigns(a[1..], b[1..]);
      assert a == [a[0]] + a[1..] && b == [b[0]] + b[1..];
    }
  }

  lemma {:induction false} LessTransitive(a: Bytes, b: Bytes, c: Bytes)
    requires Less(a, b) && Less(b, c)
    ensures Less(a, c)
    decreases |a|
  {
    if a != [] && b != [] && c != [] && a[0] == b[0] && b[0] == c[0] {
      CompareToTail(a, b);
      CompareToTail(b, c);
      CompareToTail(a, c);
      LessTransitive(a[1..], b[1..], c[1..]);
    }
  }

  /**
   Every search of the store relies on this: `Less` is a strict total order with the empty string as its least
   element.
   */
  lemma LessIsStrictTotalOrder()
    ensures forall a, b, c :: Less(a, b) && Less(b, c) ==> Less(a, c)
    ensures forall a, b :: Less(a, b) ==> a != b && !Less(b, a)
    ensures forall a, b :: Less(a, b) || a == b || Less(b, a)
    ensures forall a :: Less([], a) <==> a != []
  {
    forall a, b, c | Less(a, b) && Less(b, c)
      ensures Less(a, c)
    {
      LessTransitive(a, b, c);
    }
    forall a, b
      ensures Less(a, b) ==> a != b && !Less(b, a)
      ensures Less(a, b) || a == b || Less(b, a)
    {
      CompareToSigns(a, b);
      CompareToSigns(b, a);
    }
  }

  /** What `Less` means without memcmp: a common prefix, and then either the end of `a` or a smaller byte. */
  lemma {:induction false} LessMeaning(a: Bytes, b: Bytes)
    ensures Less(a, b) <==>
            exists n ::
              0 <= n <= |a| && n <= |b| && a[..n] == b[..n] &&
              if n == |a| then n < |b| else n < |b| && a[n] < b[n]
    decreases |a|
  {
    if a != [] && b != [] && a[0] == b[0] {
      CompareToTail(a, b);
      LessMeaning(a[1..], b[1..]);
      var at, bt := a[1..], b[1..];
      forall n | 0 <= n <= |at| && n <= |bt|
        ensures at[..n] == bt[..n] <==> a[..n + 1] == b[..n + 1]
      {
        assert a[..n + 1] == [a[0]] + at[..n];
        assert b[..n + 1] == [b[0]] + bt[..n];
        assert a[..n + 1][1..] == at[..n] && b[..n + 1][1..] == bt[..n];
      }
      if n :| 0 <= n <= |a| && n <= |b| && a[..n] == b[..n] && if n == |a| then n < |b| else n < |b| && a[n] < b[n] {
        assert n != 0;
        assert at[..n - 1] == bt[..n - 1];
      }
      if n :| 0 <= n <= |at| && n <= |bt| && at[..n] == bt[..n] &&
              if n == |at| then n < |bt| else n < |bt| && at[n] < bt[n] {
        assert a[..n + 1] == b[..n + 1];
      }
    } else if a == [] || b == [] || a[0] < b[0] {
      assert a[..0] == b[..0];
    } else {
      forall n | 0 < n <= |a| && n <= |b|
        ensures a[..n] != b[..n]
      {
        assert a[..n][0] != b[..n][0];
      }
    }
  }
}
