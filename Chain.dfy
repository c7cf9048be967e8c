/**
 * Strict chaining of sibling interval records, independent of which level
 * (valid time or system time) the records belong to.
 *
 * A record is placed among its siblings by its stamp: the start of its window,
 * then the store-assigned id. Strict chaining gives every record the start of
 * the next sibling as the end of its window, and leaves the last one open.
 */
module Chain {
  import opened Common

  /** Ordering key of a record among its siblings. */
  datatype Stamp = Stamp(start: int, id: int)

  /** Strict lexicographic order on stamps: `(start, id)` ascending. */
  predicate Before(a: Stamp, b: Stamp) {
    a.start < b.start || (a.start == b.start && a.id < b.id)
  }

  predicate AtMost(a: Stamp, b: Stamp) {
    a == b || Before(a, b)
  }

  /** The half-open window `[start, end)` contains `t`; a missing end is infinity. */
  predicate Covers(start: int, end: Option<int>, t: int) {
    start <= t && (end.None? || t < end.value)
  }

  predicate Sorted<T>(s: seq<T>, key: T -> Stamp) {
    forall i, j :: 0 <= i < j < |s| ==> AtMost(key(s[i]), key(s[j]))
  }

  predicate StrictlySorted<T>(s: seq<T>, key: T -> Stamp) {
    forall i, j :: 0 <= i < j < |s| ==> Before(key(s[i]), key(s[j]))
  }

  predicate DistinctStamps<T>(s: seq<T>, key: T -> Stamp) {
    forall i, j :: 0 <= i < j < |s| ==> key(s[i]) != key(s[j])
  }

  /** The stamps of a sequence of records, position by position. */
  function Stamps<T>(s: seq<T>, key: T -> Stamp): (r: seq<Stamp>)
    ensures |r| == |s|
    ensures forall i :: 0 <= i < |s| ==> r[i] == key(s[i])
  {
    seq(|s|, i requires 0 <= i < |s| => key(s[i]))
  }

  /** A prefix one element longer is the prefix followed by that element. */
  lemma TakeOneMore<T>(s: seq<T>, i: nat)
    requires i < |s|
    ensures s[..i + 1] == s[..i] + [s[i]]
  {
  }

  /** Inserts `x` in front of the first element it does not come after. */
  function Insert<T>(x: T, s: seq<T>, key: T -> Stamp): (r: seq<T>)
    ensures multiset(r) == multiset(s) + multiset{x}
    ensures |r| == |s| + 1
  {
    if s == [] then [x]
    else if AtMost(key(x), key(s[0])) then [x] + s
    else
      assert s == [s[0]] + s[1..];
      [s[0]] + Insert(x, s[1..], key)
  }

  /** Every element of `Insert(x, s)` is `x` or an element of `s`. */
  lemma InsertMembers<T>(x: T, s: seq<T>, key: T -> Stamp, y: T)
    requires y in Insert(x, s, key)
    ensures y == x || y in s
  {
    assert y in multiset(Insert(x, s, key));
  }

  /** Putting in front of a sorted sequence an element that comes first keeps it sorted. */
  lemma ConsSorted<T>(a: T, rest: seq<T>, key: T -> Stamp, strict: bool)
    requires if strict then StrictlySorted(rest, key) else Sorted(rest, key)
    requires forall y :: y in rest ==> if strict then Before(key(a), key(y)) else AtMost(key(a), key(y))
    ensures if strict then StrictlySorted([a] + rest, key) else Sorted([a] + rest, key)
  {
    var r := [a] + rest;
    forall i, j | 0 <= i < j < |r|
      ensures if strict then Before(key(r[i]), key(r[j])) else AtMost(key(r[i]), key(r[j]))
    {
      assert r[j] == rest[j - 1];
      if i > 0 {
        assert r[i] == rest[i - 1];
      }
    }
  }

  /** The elements of a sorted sequence's tail all come at or after its head. */
  lemma HeadFirst<T>(s: seq<T>, key: T -> Stamp, strict: bool, y: T)
    requires s != [] && y in s[1..]
    requires if strict then StrictlySorted(s, key) else Sorted(s, key)
    ensures if strict then Before(key(s[0]), key(y)) else AtMost(key(s[0]), key(y))
  {
    var q :| 0 <= q < |s[1..]| && s[1..][q] == y;
    assert s[q + 1] == y;
  }

  /** Inserting into a sorted sequence keeps it sorted, strictly so when `x` is new. */
  lemma {:induction false} InsertSorted<T>(x: T, s: seq<T>, key: T -> Stamp, strict: bool)
    requires if strict then StrictlySorted(s, key) else Sorted(s, key)
    requires strict ==> forall y :: y in s ==> key(y) != key(x)
    ensures if strict then StrictlySorted(Insert(x, s, key), key) else Sorted(Insert(x, s, key), key)
  {
    if s == [] {
    } else if AtMost(key(x), key(s[0])) {
      forall y | y in s
        ensures if strict then Before(key(x), key(y)) else AtMost(key(x), key(y))
      {
        if y != s[0] {
          assert y in s[1..] by { assert s == [s[0]] + s[1..]; }
          HeadFirst(s, key, strict, y);
        }
      }
      ConsSorted(x, s, key, strict);
    } else {
      var tail := s[1..];
      assert s == [s[0]] + tail;
      assert if strict then StrictlySorted(tail, key) else Sorted(tail, key) by {
        forall i, j | 0 <= i < j < |tail|
          ensures if strict then Before(key(tail[i]), key(tail[j])) else AtMost(key(tail[i]), key(tail[j]))
        {
          assert tail[i] == s[i + 1] && tail[j] == s[j + 1];
        }
      }
      InsertSorted(x, tail, key, strict);
      var rest := Insert(x, tail, key);
      forall y | y in rest
        ensures if strict then Before(key(s[0]), key(y)) else AtMost(key(s[0]), key(y))
      {
        InsertMembers(x, tail, key, y);
        if y != x {
          HeadFirst(s, key, strict, y);
        }
      }
      ConsSorted(s[0], rest, key, strict);
    }
  }

  /**
   * The order the store returns siblings in: `(start, id)` ascending.
   * The result is a permutation of the input, sorted, and strictly sorted
   * when no two records share a stamp.
   */
  function SortBy<T>(s: seq<T>, key: T -> Stamp): (r: seq<T>)
    ensures multiset(r) == multiset(s)
    ensures Sorted(r, key)
    ensures DistinctStamps(s, key) ==> StrictlySorted(r, key)
  {
    if s == [] then []
    else
      var rest := SortBy(s[1..], key);
      SortStep(s, rest, key);
      Insert(s[0], rest, key)
  }

  /** Inserting the head of `s` into the sorted rest keeps a permutation of `s`, sorted, strictly so when no stamps repeat. */
  lemma SortStep<T>(s: seq<T>, rest: seq<T>, key: T -> Stamp)
    requires s != [] && multiset(rest) == multiset(s[1..]) && Sorted(rest, key)
    requires DistinctStamps(s[1..], key) ==> StrictlySorted(rest, key)
    ensures multiset(Insert(s[0], rest, key)) == multiset(s)
    ensures Sorted(Insert(s[0], rest, key), key)
    ensures DistinctStamps(s, key) ==> StrictlySorted(Insert(s[0], rest, key), key)
  {
    assert s == [s[0]] + s[1..];
    assert forall y :: y in rest ==> y in s[1..] by {
      forall y | y in rest ensures y in s[1..] {
        assert y in multiset(rest);
      }
    }
    InsertSorted(s[0], rest, key, false);
    if DistinctStamps(s, key) {
      assert DistinctStamps(s[1..], key) by {
        forall i, j | 0 <= i < j < |s[1..]| ensures key(s[1..][i]) != key(s[1..][j]) {
          assert s[1..][i] == s[i + 1] && s[1..][j] == s[j + 1];
        }
      }
      assert forall y :: y in rest ==> key(y) != key(s[0]) by {
        forall y | y in rest ensures key(y) != key(s[0]) {
          var j :| 0 <= j < |s[1..]| && s[1..][j] == y;
          assert s[j + 1] == y;
        }
      }
      InsertSorted(s[0], rest, key, true);
    }
  }

  /**
   * The start of the next sibling after stamp `x` among `ss`: the smallest
   * start of a stamp that comes after `x`, or `None` when `x` is the last.
   */
  function NextStart(ss: seq<Stamp>, x: Stamp): (r: Option<int>)
    ensures r.None? <==> (forall y :: y in ss ==> !Before(x, y))
    ensures r.Some? ==> exists y :: y in ss && Before(x, y) && y.start == r.value
    ensures r.Some? ==> forall y :: y in ss && Before(x, y) ==> r.value <= y.start
  {
    if ss == [] then None
    else
      assert ss == [ss[0]] + ss[1..];
      var rest := NextStart(ss[1..], x);
      if !Before(x, ss[0]) then rest
      else if rest.Some? && rest.value < ss[0].start then rest
      else Some(ss[0].start)
  }

  /** `NextStart` depends only on which stamps are present, not on their order. */
  lemma NextStartSameMembers(a: seq<Stamp>, b: seq<Stamp>, x: Stamp)
    requires forall y :: y in a <==> y in b
    ensures NextStart(a, x) == NextStart(b, x)
  {
    var ra, rb := NextStart(a, x), NextStart(b, x);
    if ra.Some? && rb.Some? {
      var ya :| ya in a && Before(x, ya) && ya.start == ra.value;
      var yb :| yb in b && Before(x, yb) && yb.start == rb.value;
      assert rb.value <= ya.start;
      assert ra.value <= yb.start;
    }
  }

  /** Reordering records does not change which stamps occur among them. */
  lemma StampsOfPermutation<T>(a: seq<T>, b: seq<T>, key: T -> Stamp)
    requires multiset(a) == multiset(b)
    ensures forall y :: y in Stamps(a, key) <==> y in Stamps(b, key)
  {
    forall y | y in Stamps(a, key) ensures y in Stamps(b, key) {
      var p :| 0 <= p < |a| && Stamps(a, key)[p] == y;
      assert a[p] in multiset(b);
      var q :| 0 <= q < |b| && b[q] == a[p];
      assert Stamps(b, key)[q] == y;
    }
    forall y | y in Stamps(b, key) ensures y in Stamps(a, key) {
      var p :| 0 <= p < |b| && Stamps(b, key)[p] == y;
      assert b[p] in multiset(a);
      var q :| 0 <= q < |a| && a[q] == b[p];
      assert Stamps(a, key)[q] == y;
    }
  }

  /** In a strictly sorted sequence the next sibling is the next element. */
  lemma {:induction false} SortedNext(ss: seq<Stamp>, i: nat)
    requires forall p, q :: 0 <= p < q < |ss| ==> Before(ss[p], ss[q])
    requires i < |ss|
    ensures NextStart(ss, ss[i]) == if i + 1 < |ss| then Some(ss[i + 1].start) else None
  {
    forall y | y in ss && Before(ss[i], y)
      ensures exists j :: i < j < |ss| && ss[j] == y
    {
      var j :| 0 <= j < |ss| && ss[j] == y;
    }
    var r := NextStart(ss, ss[i]);
    if i + 1 < |ss| {
      assert Before(ss[i], ss[i + 1]);
      var y :| y in ss && Before(ss[i], y) && y.start == r.value;
      var j :| i < j < |ss| && ss[j] == y;
      if j > i + 1 {
        assert Before(ss[i + 1], ss[j]);
      }
    }
  }

  /**
   * Two different siblings never cover the same instant once every window
   * ends where the next sibling starts (a record sharing its start with a
   * later one gets the empty window `[t, t)`).
   */
  lemma WindowsDisjoint(ss: seq<Stamp>, a: Stamp, b: Stamp, t: int)
    requires a in ss && b in ss && a != b
    ensures !(Covers(a.start, NextStart(ss, a), t) && Covers(b.start, NextStart(ss, b), t))
  {
    if Before(a, b) {
      assert NextStart(ss, a).value <= b.start;
    } else {
      assert Before(b, a);
      assert NextStart(ss, b).value <= a.start;
    }
  }
}
