/**
 * The order in which the rebuilder visits buffer views:
 * `sorted(range(len(bvs)), key=lambda i: bvs[i].byteOffset or 0)`. Python's sort is stable,
 * so ties keep index order; that is the same as sorting strictly by the pair (offset, index).
 */
module ViewOrder {
  import opened Gltf

  /** View `a` comes before view `b`: smaller offset, or the same offset and a smaller index. */
  predicate Before(views: seq<BufferView>, a: nat, b: nat)
    requires a < |views| && b < |views|
  {
    OffsetOf(views[a]) < OffsetOf(views[b]) || (OffsetOf(views[a]) == OffsetOf(views[b]) && a < b)
  }

  /** Every entry of `s` is an index of a view. */
  predicate InRange(n: nat, s: seq<nat>)
  {
    forall k :: 0 <= k < |s| ==> s[k] < n
  }

  /** No index occurs twice. */
  predicate Distinct(s: seq<nat>)
  {
    forall a, b :: 0 <= a < b < |s| ==> s[a] != s[b]
  }

  predicate StrictlySorted(views: seq<BufferView>, s: seq<nat>)
    requires InRange(|views|, s)
  {
    forall a, b :: 0 <= a < b < |s| ==> Before(views, s[a], s[b])
  }

  /** Inserts index `x` into a sequence of indices, in front of the first index it precedes. */
  function Insert(views: seq<BufferView>, x: nat, s: seq<nat>): (r: seq<nat>)
    requires x < |views| && InRange(|views|, s)
    ensures |r| == |s| + 1 && InRange(|views|, r)
    decreases |s|
  {
    if s == [] then [x]
    else if Before(views, x, s[0]) then [x] + s
    else [s[0]] + Insert(views, x, s[1..])
  }

  /** The indices 0 .. n-1 of `views`, sorted. */
  function SortPrefix(views: seq<BufferView>, n: nat): (r: seq<nat>)
    requires n <= |views|
    ensures |r| == n && InRange(|views|, r)
  {
    if n == 0 then [] else Insert(views, n - 1, SortPrefix(views, n - 1))
  }

  /** The visiting order; SortedOrderIsStableSort states what it is. */
  function SortedOrder(views: seq<BufferView>): (r: seq<nat>)
    ensures |r| == |views| && InRange(|views|, r)
  {
    SortPrefix(views, |views|)
  }

  lemma {:induction false} InsertElements(views: seq<BufferView>, x: nat, s: seq<nat>)
    requires x < |views| && InRange(|views|, s)
    ensures forall y :: y in Insert(views, x, s) <==> y == x || y in s
    decreases |s|
  {
    if s != [] && !Before(views, x, s[0]) {
      InsertElements(views, x, s[1..]);
      assert s == [s[0]] + s[1..];
    }
  }

  /** In a sorted sequence the head precedes every later entry. */
  lemma HeadBeforeTail(views: seq<BufferView>, s: seq<nat>)
    requires InRange(|views|, s) && StrictlySorted(views, s) && s != []
    ensures forall y :: y in s[1..] ==> s[0] < |views| && y < |views| && Before(views, s[0], y)
  {
    forall y | y in s[1..] ensures s[0] < |views| && y < |views| && Before(views, s[0], y) {
      var k :| 0 <= k < |s[1..]| && s[1..][k] == y;
      var k' := k + 1;
      assert s[k'] == y;
    }
  }

  /** A head that precedes every entry of a sorted sequence keeps it sorted. */
  lemma ConsSorted(views: seq<BufferView>, h: nat, r: seq<nat>)
    requires h < |views| && InRange(|views|, r) && StrictlySorted(views, r)
    requires forall y :: y in r ==> y < |views| && Before(views, h, y)
    ensures InRange(|views|, [h] + r) && StrictlySorted(views, [h] + r)
  {
    var c := [h] + r;
    forall a, b | 0 <= a < b < |c| ensures Before(views, c[a], c[b]) {
      var b' := b - 1;
      assert c[b] == r[b'];
      if a > 0 {
        var a' := a - 1;
        assert c[a] == r[a'];
      }
    }
  }

  /** The tail of a sorted sequence is sorted. */
  lemma TailSorted(views: seq<BufferView>, s: seq<nat>)
    requires InRange(|views|, s) && StrictlySorted(views, s) && s != []
    ensures InRange(|views|, s[1..]) && StrictlySorted(views, s[1..])
  {
    var tail := s[1..];
    forall a, b | 0 <= a < b < |tail| ensures tail[a] < |views| && Before(views, tail[a], tail[b]) {
      var a', b' := a + 1, b + 1;
      assert tail[a] == s[a'] && tail[b] == s[b'];
    }
  }

  /** When `x` does not go first, the head of `s` precedes everything the insertion into the tail yields. */
  lemma HeadBeforeInsert(views: seq<BufferView>, x: nat, s: seq<nat>)
    requires x < |views| && InRange(|views|, s) && StrictlySorted(views, s) && x !in s
    requires s != [] && !Before(views, x, s[0])
    ensures InRange(|views|, s[1..])
    ensures forall y :: y in Insert(views, x, s[1..]) ==> y < |views| && Before(views, s[0], y)
  {
    TailSorted(views, s);
    InsertElements(views, x, s[1..]);
    HeadBeforeTail(views, s);
    assert x != s[0];
  }

  lemma {:induction false} InsertSorted(views: seq<BufferView>, x: nat, s: seq<nat>)
    requires x < |views| && InRange(|views|, s) && StrictlySorted(views, s) && x !in s
    ensures StrictlySorted(views, Insert(views, x, s))
    decreases |s|
  {
    if s != [] && !Before(views, x, s[0]) {
      var tail := s[1..];
      TailSorted(views, s);
      InsertSorted(views, x, tail);
      HeadBeforeInsert(views, x, s);
      ConsSorted(views, s[0], Insert(views, x, tail));
    }
  }

  lemma {:induction false} SortPrefixIsStableSort(views: seq<BufferView>, n: nat)
    requires n <= |views|
    ensures forall y: nat :: y in SortPrefix(views, n) <==> y < n
    ensures StrictlySorted(views, SortPrefix(views, n))
  {
    if n > 0 {
      SortPrefixIsStableSort(views, n - 1);
      InsertElements(views, n - 1, SortPrefix(views, n - 1));
      InsertSorted(views, n - 1, SortPrefix(views, n - 1));
    }
  }

  /**
   * The visiting order is a permutation of the view indices in which each view precedes
   * every view with a larger (offset, index) pair: Python's stable sort by offset.
   */
  lemma SortedOrderIsStableSort(views: seq<BufferView>)
    ensures forall y: nat :: y in SortedOrder(views) <==> y < |views|
    ensures StrictlySorted(views, SortedOrder(views))
    ensures Distinct(SortedOrder(views))
  {
    SortPrefixIsStableSort(views, |views|);
  }

  /** No view is visited twice (the narrow form of SortedOrderIsStableSort's last clause, for callers). */
  lemma SortedOrderDistinct(views: seq<BufferView>)
    ensures Distinct(SortedOrder(views))
  {
    SortedOrderIsStableSort(views);
  }

  /** Every view is visited, at some position of the order. */
  lemma PositionOf(views: seq<BufferView>, i: nat) returns (m: nat)
    requires i < |views|
    ensures m < |views| && SortedOrder(views)[m] == i
  {
    SortedOrderIsStableSort(views);
    assert i in SortedOrder(views);
    m :| 0 <= m < |views| && SortedOrder(views)[m] == i;
  }

  /** Consecutive visits are in (offset, index) order. */
  lemma ConsecutiveVisits(views: seq<BufferView>, m: nat)
    requires 0 < m < |views|
    ensures Before(views, SortedOrder(views)[m - 1], SortedOrder(views)[m])
    ensures SortedOrder(views)[m - 1] != SortedOrder(views)[m]
  {
    SortedOrderIsStableSort(views);
  }

  /** A view that precedes another is visited earlier. */
  lemma VisitedEarlier(views: seq<BufferView>, a: nat, b: nat)
    requires a < |views| && b < |views|
    requires Before(views, SortedOrder(views)[a], SortedOrder(views)[b])
    ensures a < b
  {
    SortedOrderIsStableSort(views);
    PositionsFollowBefore(views, SortedOrder(views), a, b);
  }

  /** Positions in a sorted order agree with Before. */
  lemma PositionsFollowBefore(views: seq<BufferView>, s: seq<nat>, a: nat, b: nat)
    requires InRange(|views|, s) && StrictlySorted(views, s)
    requires a < |s| && b < |s|
    requires Before(views, s[a], s[b])
    ensures a < b
  {
  }
}
