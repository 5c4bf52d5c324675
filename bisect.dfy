/**
 * Bisection on sorted sequences, after CPython's `bisect` module
 * (lib/bisect.js). The searches are binary searches over `lo`/`hi`; each is
 * proved equal to a linear-scan reference definition of the insertion point
 * whenever the sequence is sorted, and the partition properties are proved
 * about that reference definition.
 */
module Bisect {
  import opened Wrappers

  /** The only error the searches throw: a negative lower bound. */
  datatype BisectError = NegativeLo

  predicate Sorted(a: seq<int>) {
    forall i, j :: 0 <= i < j < |a| ==> a[i] <= a[j]
  }

  predicate StrictlySorted(a: seq<int>) {
    forall i, j :: 0 <= i < j < |a| ==> a[i] < a[j]
  }

  /**
   * The upper bound a search actually uses: `hi || a.length`, so an omitted
   * `hi` and an explicit `hi` of 0 both mean the whole sequence.
   */
  function EffectiveHi(a: seq<int>, hi: Option<int>): (h: int)
    ensures hi == None || hi == Some(0) ==> h == |a|
    ensures hi.Some? && hi.value != 0 ==> h == hi.value
  {
    match hi
    case None => |a|
    case Some(h) => if h == 0 then |a| else h
  }

  /** Reference definition: the first index in [lo, hi) whose element exceeds x, else lo or hi. */
  function RightInsertionPoint(a: seq<int>, x: int, lo: nat, hi: int): (i: nat)
    requires hi <= |a|
    ensures lo <= i
    ensures lo <= hi ==> i <= hi
    decreases hi - lo
  {
    if lo >= hi then lo
    else if x < a[lo] then lo
    else RightInsertionPoint(a, x, lo + 1, hi)
  }

  /** Reference definition: the first index in [lo, hi) whose element is at least x, else lo or hi. */
  function LeftInsertionPoint(a: seq<int>, x: int, lo: nat, hi: int): (i: nat)
    requires hi <= |a|
    ensures lo <= i
    ensures lo <= hi ==> i <= hi
    decreases hi - lo
  {
    if lo >= hi then lo
    else if a[lo] < x then LeftInsertionPoint(a, x, lo + 1, hi)
    else lo
  }

  /** Every element of a[lo..i) is at most x and every element of a[i..hi) exceeds x. */
  predicate IsRightPartition(a: seq<int>, x: int, lo: int, hi: int, i: int) {
    0 <= lo <= i <= hi <= |a|
    && (forall k :: lo <= k < i ==> a[k] <= x)
    && (forall k :: i <= k < hi ==> x < a[k])
  }

  /** Every element of a[lo..i) is below x and every element of a[i..hi) is at least x. */
  predicate IsLeftPartition(a: seq<int>, x: int, lo: int, hi: int, i: int) {
    0 <= lo <= i <= hi <= |a|
    && (forall k :: lo <= k < i ==> a[k] < x)
    && (forall k :: i <= k < hi ==> x <= a[k])
  }

  lemma {:induction false} RightInsertionPointPartitions(a: seq<int>, x: int, lo: nat, hi: int)
    requires Sorted(a) && lo <= hi <= |a|
    ensures IsRightPartition(a, x, lo, hi, RightInsertionPoint(a, x, lo, hi))
    decreases hi - lo
  {
    if lo < hi && !(x < a[lo]) {
      RightInsertionPointPartitions(a, x, lo + 1, hi);
    }
  }

  lemma {:induction false} LeftInsertionPointPartitions(a: seq<int>, x: int, lo: nat, hi: int)
    requires Sorted(a) && lo <= hi <= |a|
    ensures IsLeftPartition(a, x, lo, hi, LeftInsertionPoint(a, x, lo, hi))
    decreases hi - lo
  {
    if lo < hi && a[lo] < x {
      LeftInsertionPointPartitions(a, x, lo + 1, hi);
    }
  }

  /** A right partition point is unique: it is the reference insertion point. */
  lemma {:induction false} RightPartitionIsInsertionPoint(a: seq<int>, x: int, lo: nat, hi: int, i: int)
    requires IsRightPartition(a, x, lo, hi, i)
    ensures i == RightInsertionPoint(a, x, lo, hi)
    decreases hi - lo
  {
    if lo < i {
      RightPartitionIsInsertionPoint(a, x, lo + 1, hi, i);
    }
  }

  /** A left partition point is unique: it is the reference insertion point. */
  lemma {:induction false} LeftPartitionIsInsertionPoint(a: seq<int>, x: int, lo: nat, hi: int, i: int)
    requires IsLeftPartition(a, x, lo, hi, i)
    ensures i == LeftInsertionPoint(a, x, lo, hi)
    decreases hi - lo
  {
    if lo < i {
      LeftPartitionIsInsertionPoint(a, x, lo + 1, hi, i);
    }
  }

  /** With the same arguments, the left insertion point never lies after the right one. */
  lemma {:induction false} LeftPointAtMostRightPoint(a: seq<int>, x: int, lo: nat, hi: int)
    requires hi <= |a|
    ensures LeftInsertionPoint(a, x, lo, hi) <= RightInsertionPoint(a, x, lo, hi)
    decreases hi - lo
  {
    if lo < hi && a[lo] < x {
      LeftPointAtMostRightPoint(a, x, lo + 1, hi);
    }
  }

  /**
   * bisectRight: the rightmost insertion point for x in a[lo..hi).
   * Throws on a negative lo; otherwise halves [lo, hi) until it is empty.
   */
  method BisectRight(a: seq<int>, x: int, lo: int, hi: Option<int>) returns (r: Result<nat, BisectError>)
    requires EffectiveHi(a, hi) <= |a|
    ensures lo < 0 ==> r == Failure(NegativeLo)
    ensures 0 <= lo ==> r.Success? && lo <= r.value
    ensures 0 <= lo <= EffectiveHi(a, hi) ==> r.value <= EffectiveHi(a, hi)
    ensures 0 <= lo && Sorted(a) ==> r.value == RightInsertionPoint(a, x, lo, EffectiveHi(a, hi))
    ensures 0 <= lo <= EffectiveHi(a, hi) && Sorted(a) ==> IsRightPartition(a, x, lo, EffectiveHi(a, hi), r.value)
  {
    if lo < 0 {
      return Failure(NegativeLo);
    }
    var h := EffectiveHi(a, hi);
    var low, high := lo, h;
    while low < high
      invariant lo <= low
      invariant lo <= h ==> low <= high <= h
      invariant h < lo ==> low == lo && high == h
      invariant Sorted(a) ==> forall k :: lo <= k < low ==> a[k] <= x
      invariant Sorted(a) ==> forall k :: high <= k < h ==> x < a[k]
      decreases high - low
    {
      // Math.floor((lo + hi) / 2): both bounds are non-negative here
      var mid := (low + high) / 2;
      if x < a[mid] {
        high := mid;
      } else {
        low := mid + 1;
      }
    }
    if Sorted(a) && lo <= h {
      RightPartitionIsInsertionPoint(a, x, lo, h, low);
    }
    return Success(low);
  }

  /**
   * bisectLeft: the leftmost insertion point for x in a[lo..hi).
   * Throws on a negative lo; otherwise halves [lo, hi) until it is empty.
   */
  method BisectLeft(a: seq<int>, x: int, lo: int, hi: Option<int>) returns (r: Result<nat, BisectError>)
    requires EffectiveHi(a, hi) <= |a|
    ensures lo < 0 ==> r == Failure(NegativeLo)
    ensures 0 <= lo ==> r.Success? && lo <= r.value
    ensures 0 <= lo <= EffectiveHi(a, hi) ==> r.value <= EffectiveHi(a, hi)
    ensures 0 <= lo && Sorted(a) ==> r.value == LeftInsertionPoint(a, x, lo, EffectiveHi(a, hi))
    ensures 0 <= lo <= EffectiveHi(a, hi) && Sorted(a) ==> IsLeftPartition(a, x, lo, EffectiveHi(a, hi), r.value)
  {
    if lo < 0 {
      return Failure(NegativeLo);
    }
    var h := EffectiveHi(a, hi);
    var low, high := lo, h;
    while low < high
      invariant lo <= low
      invariant lo <= h ==> low <= high <= h
      invariant h < lo ==> low == lo && high == h
      invariant Sorted(a) ==> forall k :: lo <= k < low ==> a[k] < x
      invariant Sorted(a) ==> forall k :: high <= k < h ==> x <= a[k]
      decreases high - low
    {
      var mid := (low + high) / 2;
      if a[mid] < x {
        low := mid + 1;
      } else {
        high := mid;
      }
    }
    if Sorted(a) && lo <= h {
      LeftPartitionIsInsertionPoint(a, x, lo, h, low);
    }
    return Success(low);
  }

  /** `a.splice(start, 0, x)`: a start beyond the end is clamped to the end. */
  function SpliceInsert(a: seq<int>, start: nat, x: int): (b: seq<int>)
    ensures |b| == |a| + 1
    ensures multiset(b) == multiset(a) + multiset{x}
  {
    var j := if start <= |a| then start else |a|;
    assert a == a[..j] + a[j..];
    a[..j] + [x] + a[j..]
  }

  /** `a.splice(start, 1)`: removes the element at start, or nothing when start is at or past the end. */
  function SpliceRemove(a: seq<int>, start: nat): (b: seq<int>)
    ensures start < |a| ==> |b| == |a| - 1 && multiset(b) == multiset(a) - multiset{a[start]}
    ensures |a| <= start ==> b == a
  {
    if start < |a| then
      assert a == a[..start] + [a[start]] + a[start + 1..];
      a[..start] + a[start + 1..]
    else a
  }

  /** Where each element of a sequence lands when x is spliced in at index i. */
  lemma SpliceInsertAt(a: seq<int>, i: nat, x: int)
    requires i <= |a|
    ensures var b := SpliceInsert(a, i, x);
            b[i] == x
            && (forall k :: 0 <= k < i ==> b[k] == a[k])
            && (forall k :: i < k < |b| ==> b[k] == a[k - 1])
            && (forall y :: y in b <==> y in a || y == x)
  {
    var b := SpliceInsert(a, i, x);
    assert a == a[..i] + a[i..];
    assert forall y :: y in a <==> y in a[..i] || y in a[i..];
  }

  /**
   * Inserting x at its right insertion point keeps a sorted sequence sorted,
   * with x after every element equal to it and before every larger one.
   */
  lemma InsertAtRightPoint(a: seq<int>, x: int)
    requires Sorted(a)
    ensures var i := RightInsertionPoint(a, x, 0, |a|);
            var b := SpliceInsert(a, i, x);
            Sorted(b) && b[i] == x
            && (forall k :: 0 <= k < i ==> b[k] <= x)
            && (forall k :: i < k < |b| ==> x < b[k])
  {
    var i := RightInsertionPoint(a, x, 0, |a|);
    RightInsertionPointPartitions(a, x, 0, |a|);
    SpliceInsertAt(a, i, x);
    var b := SpliceInsert(a, i, x);
    forall p, q | 0 <= p < q < |b|
      ensures b[p] <= b[q]
    {
      if q < i || p > i {
      } else if p == i || q == i {
      } else {
        assert b[p] <= x < b[q];
      }
    }
  }

  /**
   * Inserting x at its left insertion point keeps a sorted sequence sorted,
   * with x before every element equal to it and after every smaller one.
   */
  lemma InsertAtLeftPoint(a: seq<int>, x: int)
    requires Sorted(a)
    ensures var i := LeftInsertionPoint(a, x, 0, |a|);
            var b := SpliceInsert(a, i, x);
            Sorted(b) && b[i] == x
            && (forall k :: 0 <= k < i ==> b[k] < x)
            && (forall k :: i < k < |b| ==> x <= b[k])
  {
    var i := LeftInsertionPoint(a, x, 0, |a|);
    LeftInsertionPointPartitions(a, x, 0, |a|);
    SpliceInsertAt(a, i, x);
    var b := SpliceInsert(a, i, x);
    forall p, q | 0 <= p < q < |b|
      ensures b[p] <= b[q]
    {
      if q < i || p > i {
      } else if p == i || q == i {
      } else {
        assert b[p] < x <= b[q];
      }
    }
  }

  /** Inserting a new value at its right insertion point keeps a strictly ascending sequence strictly ascending. */
  lemma InsertKeepsStrictlySorted(a: seq<int>, x: int)
    requires StrictlySorted(a) && x !in a
    ensures var b := SpliceInsert(a, RightInsertionPoint(a, x, 0, |a|), x);
            StrictlySorted(b) && (forall y :: y in b <==> y in a || y == x)
  {
    var i := RightInsertionPoint(a, x, 0, |a|);
    RightInsertionPointPartitions(a, x, 0, |a|);
    SpliceInsertAt(a, i, x);
    var b := SpliceInsert(a, i, x);
    forall p, q | 0 <= p < q < |b|
      ensures b[p] < b[q]
    {
      if q < i || p > i {
      } else if p == i {
      } else if q == i {
        assert b[p] == a[p] && a[p] <= x && a[p] != x;
      } else {
        assert b[p] < x < b[q];
      }
    }
  }

  /** Removing one element keeps a sorted sequence sorted. */
  lemma SpliceRemoveKeepsSorted(a: seq<int>, start: nat)
    requires Sorted(a)
    ensures Sorted(SpliceRemove(a, start))
  {
    if start < |a| {
      var b := SpliceRemove(a, start);
      forall p, q | 0 <= p < q < |b|
        ensures b[p] <= b[q]
      {
        var p' := if p < start then p else p + 1;
        var q' := if q < start then q else q + 1;
        assert b[p] == a[p'] && b[q] == a[q'] && p' < q';
      }
    }
  }

  /** Removing the element at index i of a strictly ascending sequence removes exactly that value. */
  lemma SpliceRemoveAt(a: seq<int>, i: nat)
    requires StrictlySorted(a) && i < |a|
    ensures StrictlySorted(SpliceRemove(a, i))
    ensures forall y :: y in SpliceRemove(a, i) <==> y in a && y != a[i]
  {
    var b := SpliceRemove(a, i);
    assert forall m :: 0 <= m < i ==> b[m] == a[m];
    assert forall m :: i <= m < |b| ==> b[m] == a[m + 1];
    forall y
      ensures y in b <==> y in a && y != a[i]
    {
      if y in b {
        var m :| 0 <= m < |b| && b[m] == y;
        if m < i { assert a[m] < a[i]; } else { assert a[i] < a[m + 1]; }
      }
      if y in a && y != a[i] {
        var m :| 0 <= m < |a| && a[m] == y;
        if m < i { assert b[m] == y; } else { assert b[m - 1] == y; }
      }
    }
  }

  /**
   * In a strictly ascending sequence that holds x, the left insertion point of
   * x is x's own index, so splicing there removes exactly x.
   */
  lemma RemoveAtLeftPoint(a: seq<int>, x: int)
    requires StrictlySorted(a) && x in a
    ensures var i := LeftInsertionPoint(a, x, 0, |a|);
            i < |a| && a[i] == x
            && StrictlySorted(SpliceRemove(a, i))
            && (forall y :: y in SpliceRemove(a, i) <==> y in a && y != x)
  {
    var i := LeftInsertionPoint(a, x, 0, |a|);
    LeftInsertionPointPartitions(a, x, 0, |a|);
    var k :| 0 <= k < |a| && a[k] == x;
    assert i <= k;
    assert a[i] == x;
    SpliceRemoveAt(a, i);
  }

  /**
   * insortRight: splices x into a at its right insertion point. The error of
   * the search propagates and leaves the sequence as it was.
   */
  method InsortRight(a: seq<int>, x: int, lo: int, hi: Option<int>) returns (r: Result<seq<int>, BisectError>)
    requires EffectiveHi(a, hi) <= |a|
    ensures lo < 0 ==> r == Failure(NegativeLo)
    ensures 0 <= lo ==> r.Success? && multiset(r.value) == multiset(a) + multiset{x}
    ensures 0 <= lo && Sorted(a) ==> r.value == SpliceInsert(a, RightInsertionPoint(a, x, lo, EffectiveHi(a, hi)), x)
    ensures lo == 0 && EffectiveHi(a, hi) == |a| && Sorted(a) ==> Sorted(r.value)
  {
    var found := BisectRight(a, x, lo, hi);
    match found
    case Failure(e) =>
      return Failure(e);
    case Success(i) =>
      if lo == 0 && EffectiveHi(a, hi) == |a| && Sorted(a) {
        InsertAtRightPoint(a, x);
      }
      return Success(SpliceInsert(a, i, x));
  }

  /**
   * insortLeft: splices x into a at its left insertion point. The error of
   * the search propagates and leaves the sequence as it was.
   */
  method InsortLeft(a: seq<int>, x: int, lo: int, hi: Option<int>) returns (r: Result<seq<int>, BisectError>)
    requires EffectiveHi(a, hi) <= |a|
    ensures lo < 0 ==> r == Failure(NegativeLo)
    ensures 0 <= lo ==> r.Success? && multiset(r.value) == multiset(a) + multiset{x}
    ensures 0 <= lo && Sorted(a) ==> r.value == SpliceInsert(a, LeftInsertionPoint(a, x, lo, EffectiveHi(a, hi)), x)
    ensures lo == 0 && EffectiveHi(a, hi) == |a| && Sorted(a) ==> Sorted(r.value)
  {
    var found := BisectLeft(a, x, lo, hi);
    match found
    case Failure(e) =>
      return Failure(e);
    case Success(i) =>
      if lo == 0 && EffectiveHi(a, hi) == |a| && Sorted(a) {
        InsertAtLeftPoint(a, x);
      }
      return Success(SpliceInsert(a, i, x));
  }
}
