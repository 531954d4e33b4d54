/**
 * What the rebuilt layout guarantees. The step lemmas hold for a run over any order without
 * repeats; the theorems are about the run `rebuild_blob_with_replacements` makes, over SortedOrder.
 */
module RebuildProps {
  import opened Wrappers
  import opened Bytes
  import opened Gltf
  import opened ViewOrder
  import opened Layout

  /** Every view lies inside the blob (Python's slices would silently truncate otherwise). */
  predicate InBlob(blob: seq<Byte>, views: seq<BufferView>)
  {
    forall i :: 0 <= i < |views| ==> End(views[i]) <= |blob|
  }

  /** Views `i` and `j` share no byte. */
  predicate Apart(views: seq<BufferView>, i: nat, j: nat)
    requires i < |views| && j < |views|
  {
    End(views[i]) <= OffsetOf(views[j]) || End(views[j]) <= OffsetOf(views[i])
  }

  /** No two views share a byte. */
  predicate Disjoint(views: seq<BufferView>)
  {
    forall i, j {:trigger Apart(views, i, j)} :: 0 <= i < |views| && 0 <= j < |views| && i != j ==> Apart(views, i, j)
  }

  /** glTF 2.0 requires every bufferView.byteLength to be at least 1. */
  predicate NonEmpty(views: seq<BufferView>)
  {
    forall i :: 0 <= i < |views| ==> LengthOf(views[i]) > 0
  }

  predicate WellFormed(blob: seq<Byte>, views: seq<BufferView>)
  {
    InBlob(blob, views) && Disjoint(views) && NonEmpty(views)
  }

  // ---------------------------------------------------------------------------------------
  // The loop, step by step

  /** The output only grows. */
  lemma {:induction false} OutGrows(j: Job, k: nat, k': nat)
    requires Valid(j) && k <= k' <= |j.order|
    ensures OutTo(j, k) <= OutTo(j, k')
  {
    if k < k' {
      var m := k' - 1;
      OutGrows(j, k, m);
      OutStep(j, m, k');
      PrefixOfLonger(OutTo(j, k), OutTo(j, m), GapAt(j, m) + Pad4(PayloadAt(j, m)));
    }
  }

  lemma PrefixOfLonger(a: seq<Byte>, b: seq<Byte>, c: seq<Byte>)
    requires a <= b
    ensures a <= b + c
  {
    assert (b + c)[..|b|] == b;
  }

  /** So does its length. */
  lemma {:induction false} PosGrows(j: Job, k: nat, k': nat)
    requires Valid(j) && k <= k' <= |j.order|
    ensures PosTo(j, k) <= PosTo(j, k')
  {
    if k < k' {
      var m := k' - 1;
      PosGrows(j, k, m);
      PosStep(j, m, k');
    }
  }

  /** A view keeps what its own visit wrote: no later visit touches it again. */
  lemma {:induction false} Kept(j: Job, m: nat, k: nat)
    requires Valid(j) && Distinct(j.order) && m < k <= |j.order|
    ensures ViewsTo(j, k)[j.order[m]] == Placed(Visited(j, m), NewOffsetAt(j, m), NewLengthAt(j, m))
  {
    var p := k - 1;
    ViewsStep(j, p, k);
    if p > m {
      Kept(j, m, p);
      var i, i' := j.order[m], j.order[p];
      assert i' != i;
      var before := ViewsTo(j, p);
      assert ViewsTo(j, k)[i] == before[i];
    }
  }

  /** The m-th visit writes its gap, then its payload padded to a multiple of 4. */
  lemma VisitLength(j: Job, m: nat)
    requires Valid(j) && m < |j.order|
    ensures |OutTo(j, m)| == PosTo(j, m) && |OutTo(j, m + 1)| == PosTo(j, m + 1)
    ensures NewOffsetAt(j, m) + PaddedLength(|PayloadAt(j, m)|) == PosTo(j, m + 1)
    ensures |GapAt(j, m)| <= NewOffsetAt(j, m)
  {
    var m' := m + 1;
    OutLength(j, m);
    OutLength(j, m');
    PosStep(j, m, m');
  }

  /**
   * What the m-th visit leaves in any extension `r` of its output: the gap just before the new
   * offset, the payload at the new offset, and zero bytes up to the next multiple of 4.
   */
  lemma VisitBytes(j: Job, m: nat, m': nat, r: seq<Byte>)
    requires Valid(j) && m < |j.order| && m' == m + 1 && OutTo(j, m') <= r
    ensures |GapAt(j, m)| <= NewOffsetAt(j, m)
    ensures NewOffsetAt(j, m) + PaddedLength(|PayloadAt(j, m)|) == PosTo(j, m') <= |r|
    ensures r[NewOffsetAt(j, m) - |GapAt(j, m)| .. NewOffsetAt(j, m)] == GapAt(j, m)
    ensures r[NewOffsetAt(j, m) .. NewOffsetAt(j, m) + |PayloadAt(j, m)|] == PayloadAt(j, m)
    ensures forall p :: NewOffsetAt(j, m) + |PayloadAt(j, m)| <= p < PosTo(j, m') ==> r[p] == 0
  {
    VisitLength(j, m);
    OutStep(j, m, m');
    var a, g, d := OutTo(j, m), GapAt(j, m), PayloadAt(j, m);
    WrittenBytes(a, g, d, r);
    assert NewOffsetAt(j, m) == |a| + |g|;
  }

  /** The bytes `a + g + pad4(d)` as found at the front of `r`. */
  lemma WrittenBytes(a: seq<Byte>, g: seq<Byte>, d: seq<Byte>, r: seq<Byte>)
    requires a + g + Pad4(d) <= r
    ensures |a| + |g| + PaddedLength(|d|) <= |r|
    ensures r[|a| .. |a| + |g|] == g
    ensures r[|a| + |g| .. |a| + |g| + |d|] == d
    ensures forall p :: |a| + |g| + |d| <= p < |a| + |g| + PaddedLength(|d|) ==> r[p] == 0
  {
    Pad4Spec(d);
    var w := a + g + Pad4(d);
    assert r[..|w|] == w;
    assert r[|a| .. |a| + |g|] == w[|a| .. |a| + |g|] == g;
    assert r[|a| + |g| .. |a| + |g| + |d|] == w[|a| + |g| .. |a| + |g| + |d|] == Pad4(d)[..|d|];
    forall p | |a| + |g| + |d| <= p < |w| ensures r[p] == 0 {
      assert r[p] == w[p] == Pad4(d)[p - |a| - |g|];
    }
  }

  /** In a well-formed table, the views visited in sorted order never step backwards. */
  lemma CursorBeforeNext(blob: seq<Byte>, repl: map<nat, seq<Byte>>, views: seq<BufferView>, m: nat)
    requires WellFormed(blob, views) && m < |views|
    ensures var j := SortedJob(blob, repl, views);
            CursorTo(j, m) <= OffsetOf(Visited(j, m)) <= |blob|
    ensures GapAt(SortedJob(blob, repl, views), m) ==
            blob[CursorTo(SortedJob(blob, repl, views), m) .. OffsetOf(Visited(SortedJob(blob, repl, views), m))]
  {
    var j := SortedJob(blob, repl, views);
    if m > 0 {
      ConsecutiveVisits(views, m);
      assert Apart(views, j.order[m - 1], j.order[m]);
    }
    SliceInBounds(blob, CursorTo(j, m), OffsetOf(Visited(j, m)));
  }

  /** For a view inside the blob, what is written is its replacement or exactly its original bytes. */
  lemma PayloadInBlob(blob: seq<Byte>, repl: map<nat, seq<Byte>>, i: nat, v: BufferView)
    requires End(v) <= |blob|
    ensures Payload(blob, repl, i, v) == if i in repl then repl[i] else blob[OffsetOf(v) .. End(v)]
    ensures |Payload(blob, repl, i, v)| == NewLength(repl, i, v)
  {
    SliceInBounds(blob, OffsetOf(v), End(v));
  }

  // ---------------------------------------------------------------------------------------
  // Theorems about the rebuilt blob

  /** Where view i is visited, and what the table and the blob hold for it afterwards. */
  lemma VisitOf(blob: seq<Byte>, repl: map<nat, seq<Byte>>, views: seq<BufferView>, i: nat)
    returns (m: nat)
    requires i < |views|
    ensures var j := SortedJob(blob, repl, views);
            && m < |views| && j.order[m] == i && Distinct(j.order)
            && RebuiltViews(blob, repl, views)[i] == Placed(views[i], NewOffsetAt(j, m), NewLengthAt(j, m))
  {
    var j := SortedJob(blob, repl, views);
    SortedOrderDistinct(views);
    m := PositionOf(views, i);
    Kept(j, m, |views|);
  }

  /** What the m-th visit wrote is still at the front of the rebuilt blob. */
  lemma WrittenSoFar(blob: seq<Byte>, repl: map<nat, seq<Byte>>, views: seq<BufferView>, m: nat)
    requires m <= |views|
    ensures OutTo(SortedJob(blob, repl, views), m) <= RebuiltBlob(blob, repl, views)
  {
    OutGrows(SortedJob(blob, repl, views), m, |views|);
  }

  /**
   * Each view is rewritten in place: its other properties are kept, its byteLength is the
   * replacement's unpadded length or its old length, and its new byteOffset is where the
   * output holds its bytes, followed by zero padding to a multiple of 4.
   */
  lemma PlacementOfView(blob: seq<Byte>, repl: map<nat, seq<Byte>>, views: seq<BufferView>, i: nat)
    requires i < |views|
    ensures var nv := RebuiltViews(blob, repl, views)[i];
            var r := RebuiltBlob(blob, repl, views);
            var data := Payload(blob, repl, i, views[i]);
            && nv == Placed(views[i], OffsetOf(nv), NewLength(repl, i, views[i]))
            && OffsetOf(nv) + PaddedLength(|data|) <= |r|
            && r[OffsetOf(nv) .. OffsetOf(nv) + |data|] == data
            && forall p :: OffsetOf(nv) + |data| <= p < OffsetOf(nv) + PaddedLength(|data|) ==> r[p] == 0
  {
    PlacedRecord(blob, repl, views, i);
    PlacedData(blob, repl, views, i);
    PlacedPadding(blob, repl, views, i);
  }

  lemma PlacedRecord(blob: seq<Byte>, repl: map<nat, seq<Byte>>, views: seq<BufferView>, i: nat)
    requires i < |views|
    ensures var nv := RebuiltViews(blob, repl, views)[i];
            nv == Placed(views[i], OffsetOf(nv), NewLength(repl, i, views[i]))
  {
    var j := SortedJob(blob, repl, views);
    var m := VisitOf(blob, repl, views, i);
  }

  lemma PlacedData(blob: seq<Byte>, repl: map<nat, seq<Byte>>, views: seq<BufferView>, i: nat)
    requires i < |views|
    ensures var nv := RebuiltViews(blob, repl, views)[i];
            var r := RebuiltBlob(blob, repl, views);
            var data := Payload(blob, repl, i, views[i]);
            && OffsetOf(nv) + PaddedLength(|data|) <= |r|
            && r[OffsetOf(nv) .. OffsetOf(nv) + |data|] == data
  {
    var j := SortedJob(blob, repl, views);
    var r := RebuiltBlob(blob, repl, views);
    var m := OffsetOfVisit(blob, repl, views, i);
    var m' := m + 1;
    WrittenSoFar(blob, repl, views, m');
    var off, data := NewOffsetAt(j, m), PayloadAt(j, m);
    assert off + PaddedLength(|data|) <= |r| && r[off .. off + |data|] == data by {
      VisitBytes(j, m, m', r);
    }
    DataAt(r, off, OffsetOf(RebuiltViews(blob, repl, views)[i]), data, Payload(blob, repl, i, views[i]));
  }

  /** Where view i is visited, and the new offset its visit gave it. */
  lemma OffsetOfVisit(blob: seq<Byte>, repl: map<nat, seq<Byte>>, views: seq<BufferView>, i: nat)
    returns (m: nat)
    requires i < |views|
    ensures var j := SortedJob(blob, repl, views);
            && m < |views| && j.order[m] == i
            && OffsetOf(RebuiltViews(blob, repl, views)[i]) == NewOffsetAt(j, m)
            && Payload(blob, repl, i, views[i]) == PayloadAt(j, m)
  {
    m := VisitOf(blob, repl, views, i);
  }

  /** Restates the placement facts under fresh names: a hint that keeps `PlacedData`'s proof small. */
  lemma DataAt(r: seq<Byte>, off: nat, off': nat, data: seq<Byte>, data': seq<Byte>)
    requires off' == off && data' == data
    requires off + PaddedLength(|data|) <= |r| && r[off .. off + |data|] == data
    ensures off' + PaddedLength(|data'|) <= |r| && r[off' .. off' + |data'|] == data'
  {
  }

  lemma PlacedPadding(blob: seq<Byte>, repl: map<nat, seq<Byte>>, views: seq<BufferView>, i: nat)
    requires i < |views|
    ensures var nv := RebuiltViews(blob, repl, views)[i];
            var r := RebuiltBlob(blob, repl, views);
            var data := Payload(blob, repl, i, views[i]);
            && OffsetOf(nv) + PaddedLength(|data|) <= |r|
            && forall p :: OffsetOf(nv) + |data| <= p < OffsetOf(nv) + PaddedLength(|data|) ==> r[p] == 0
  {
    var j := SortedJob(blob, repl, views);
    var m := VisitOf(blob, repl, views, i);
    var m' := m + 1;
    WrittenSoFar(blob, repl, views, m');
    VisitBytes(j, m, m', RebuiltBlob(blob, repl, views));
    assert OffsetOf(RebuiltViews(blob, repl, views)[i]) == NewOffsetAt(j, m);
    assert PayloadAt(j, m) == Payload(blob, repl, i, views[i]);
  }

  /**
   * For views inside the blob: the bytes at a view's new range are its replacement if it has one,
   * and otherwise exactly its original bytes; its byteLength is the replacement's length or unchanged.
   */
  lemma ViewContents(blob: seq<Byte>, repl: map<nat, seq<Byte>>, views: seq<BufferView>, i: nat)
    requires InBlob(blob, views) && i < |views|
    ensures var nv := RebuiltViews(blob, repl, views)[i];
            var r := RebuiltBlob(blob, repl, views);
            && End(nv) <= |r|
            && r[OffsetOf(nv) .. End(nv)] ==
               (if i in repl then repl[i] else blob[OffsetOf(views[i]) .. End(views[i])])
            && LengthOf(nv) == (if i in repl then |repl[i]| else LengthOf(views[i]))
  {
    PlacementOfView(blob, repl, views, i);
    PayloadInBlob(blob, repl, i, views[i]);
    Pad4Spec(Payload(blob, repl, i, views[i]));
  }

  /**
   * Views are laid out in sorted order: when view i precedes view k (smaller original offset,
   * or the same offset and a smaller index), i's padded bytes end where k's may start.
   */
  lemma LaidOutInOrder(blob: seq<Byte>, repl: map<nat, seq<Byte>>, views: seq<BufferView>, i: nat, k: nat)
    requires i < |views| && k < |views| && Before(views, i, k)
    ensures OffsetOf(RebuiltViews(blob, repl, views)[i]) + PaddedLength(|Payload(blob, repl, i, views[i])|)
            <= OffsetOf(RebuiltViews(blob, repl, views)[k])
  {
    var j := SortedJob(blob, repl, views);
    var mi := VisitOf(blob, repl, views, i);
    var mk := VisitOf(blob, repl, views, k);
    VisitedEarlier(views, mi, mk);
    var mi' := mi + 1;
    PosStep(j, mi, mi');
    PosGrows(j, mi', mk);
    assert PayloadAt(j, mi) == Payload(blob, repl, i, views[i]);
  }

  /** For views inside the blob, the rebuilt views lie inside the new blob and never overlap. */
  lemma RebuiltViewsDisjoint(blob: seq<Byte>, repl: map<nat, seq<Byte>>, views: seq<BufferView>)
    requires InBlob(blob, views)
    ensures InBlob(RebuiltBlob(blob, repl, views), RebuiltViews(blob, repl, views))
    ensures Disjoint(RebuiltViews(blob, repl, views))
  {
    var nvs := RebuiltViews(blob, repl, views);
    forall i | 0 <= i < |nvs| ensures End(nvs[i]) <= |RebuiltBlob(blob, repl, views)| {
      ViewContents(blob, repl, views, i);
    }
    forall i, k | 0 <= i < |nvs| && 0 <= k < |nvs| && i != k ensures Apart(nvs, i, k) {
      ViewContents(blob, repl, views, i);
      ViewContents(blob, repl, views, k);
      PayloadInBlob(blob, repl, i, views[i]);
      PayloadInBlob(blob, repl, k, views[k]);
      Pad4Spec(Payload(blob, repl, i, views[i]));
      Pad4Spec(Payload(blob, repl, k, views[k]));
      if Before(views, i, k) {
        LaidOutInOrder(blob, repl, views, i, k);
      } else {
        LaidOutInOrder(blob, repl, views, k, i);
      }
    }
  }

  /**
   * In a well-formed table, the original bytes between the end of the previously visited view
   * (or the start of the blob) and the m-th visited view are copied verbatim right in front of
   * that view's new position, whatever is replaced.
   */
  lemma GapsPreserved(blob: seq<Byte>, repl: map<nat, seq<Byte>>, views: seq<BufferView>, m: nat)
    requires WellFormed(blob, views) && m < |views|
    ensures var j := SortedJob(blob, repl, views);
            var c := CursorTo(j, m);
            var off := OffsetOf(Visited(j, m));
            var newOff := OffsetOf(RebuiltViews(blob, repl, views)[j.order[m]]);
            && c <= off <= |blob| && off - c <= newOff <= |RebuiltBlob(blob, repl, views)|
            && RebuiltBlob(blob, repl, views)[newOff - (off - c) .. newOff] == blob[c .. off]
  {
    var j := SortedJob(blob, repl, views);
    SortedOrderDistinct(views);
    CursorBeforeNext(blob, repl, views, m);
    Kept(j, m, |views|);
    var m' := m + 1;
    WrittenSoFar(blob, repl, views, m');
    VisitBytes(j, m, m', RebuiltBlob(blob, repl, views));
  }

  /** For views inside the blob, the bytes after the last visited view end the new blob unchanged. */
  lemma TrailerPreserved(blob: seq<Byte>, repl: map<nat, seq<Byte>>, views: seq<BufferView>)
    requires InBlob(blob, views)
    ensures var e := CursorTo(SortedJob(blob, repl, views), |views|);
            var r := RebuiltBlob(blob, repl, views);
            && e <= |blob| && |blob| - e <= |r|
            && r[|r| - (|blob| - e) ..] == blob[e..]
  {
    var j := SortedJob(blob, repl, views);
    var e := CursorTo(j, |views|);
    assert e <= |blob|;
    assert Trailer(blob, e) == blob[e..];
  }

  /** With nothing replaced and view lengths multiples of 4, the loop copies a prefix of the blob. */
  lemma {:induction false} CopiedPrefix(blob: seq<Byte>, views: seq<BufferView>, m: nat)
    requires WellFormed(blob, views) && m <= |views|
    requires forall i :: 0 <= i < |views| ==> LengthOf(views[i]) % 4 == 0
    ensures var j := SortedJob(blob, map[], views);
            CursorTo(j, m) <= |blob| && OutTo(j, m) == blob[..CursorTo(j, m)]
  {
    if m > 0 {
      var p := m - 1;
      CopiedPrefix(blob, views, p);
      CopiedStep(blob, views, p, m);
    }
  }

  /** One visit of CopiedPrefix: the gap and the view's own bytes extend the copied prefix. */
  lemma CopiedStep(blob: seq<Byte>, views: seq<BufferView>, p: nat, m: nat)
    requires WellFormed(blob, views) && p < |views| && m == p + 1
    requires forall i :: 0 <= i < |views| ==> LengthOf(views[i]) % 4 == 0
    requires var j := SortedJob(blob, map[], views);
             CursorTo(j, p) <= |blob| && OutTo(j, p) == blob[..CursorTo(j, p)]
    ensures var j := SortedJob(blob, map[], views);
            CursorTo(j, m) <= |blob| && OutTo(j, m) == blob[..CursorTo(j, m)]
  {
    var j := SortedJob(blob, map[], views);
    CursorBeforeNext(blob, map[], views, p);
    OutStep(j, p, m);
    CursorStep(j, p, m);
    var v := Visited(j, p);
    var c, off, end := CursorTo(j, p), OffsetOf(v), End(v);
    CopiedView(blob, j.order[p], v);
    assert OutTo(j, m) == blob[..c] + blob[c .. off] + blob[off .. end];
    Concat3(blob, c, off, end);
  }

  /** With nothing replaced, a view inside the blob whose length is a multiple of 4 is written as it was. */
  lemma CopiedView(blob: seq<Byte>, i: nat, v: BufferView)
    requires End(v) <= |blob| && LengthOf(v) % 4 == 0
    ensures Pad4(Payload(blob, map[], i, v)) == blob[OffsetOf(v) .. End(v)]
  {
    PayloadInBlob(blob, map[], i, v);
    Pad4Spec(Payload(blob, map[], i, v));
  }

  lemma Concat3(s: seq<Byte>, a: nat, b: nat, c: nat)
    requires a <= b <= c <= |s|
    ensures s[..a] + s[a..b] + s[b..c] == s[..c]
  {
  }

  /**
   * With nothing replaced and every view length already a multiple of 4, a well-formed blob is
   * rebuilt unchanged and every view keeps its offset and length.
   */
  lemma UnchangedWhenNothingReplaced(blob: seq<Byte>, views: seq<BufferView>)
    requires WellFormed(blob, views)
    requires forall i :: 0 <= i < |views| ==> LengthOf(views[i]) % 4 == 0
    ensures RebuiltBlob(blob, map[], views) == blob
    ensures forall i :: 0 <= i < |views| ==>
              OffsetOf(RebuiltViews(blob, map[], views)[i]) == OffsetOf(views[i]) &&
              LengthOf(RebuiltViews(blob, map[], views)[i]) == LengthOf(views[i])
  {
    var j := SortedJob(blob, map[], views);
    CopiedPrefix(blob, views, |views|);
    var c := CursorTo(j, |views|);
    if c == |blob| {
      assert blob[..c] == blob;
    } else {
      assert blob[..c] + blob[c..] == blob;
    }
    forall i | 0 <= i < |views|
      ensures OffsetOf(RebuiltViews(blob, map[], views)[i]) == OffsetOf(views[i])
      ensures LengthOf(RebuiltViews(blob, map[], views)[i]) == LengthOf(views[i])
    {
      var m := VisitOf(blob, map[], views, i);
      CopiedPrefix(blob, views, m);
      CursorBeforeNext(blob, map[], views, m);
      OutLength(j, m);
    }
  }

  /** Every original view starts and ends on a multiple of 4. */
  predicate Aligned(views: seq<BufferView>)
  {
    forall i :: 0 <= i < |views| ==> OffsetOf(views[i]) % 4 == 0 && LengthOf(views[i]) % 4 == 0
  }

  lemma SumAligned(a: nat, b: nat)
    requires a % 4 == 0 && b % 4 == 0
    ensures (a + b) % 4 == 0
  {
  }

  lemma AlignedSum(p: nat, c: nat, off: nat, pad: nat, newOff: nat, p': nat)
    requires p % 4 == 0 && c % 4 == 0 && off % 4 == 0 && pad % 4 == 0 && c <= off
    requires newOff == p + (off - c) && p' == newOff + pad
    ensures newOff % 4 == 0 && p' % 4 == 0
  {
  }

  /** In an aligned table, the cursor before each visit and the visited view's offset are multiples of 4. */
  lemma AlignedCursor(blob: seq<Byte>, repl: map<nat, seq<Byte>>, views: seq<BufferView>, m: nat)
    requires Aligned(views) && m < |views|
    ensures CursorTo(SortedJob(blob, repl, views), m) % 4 == 0
    ensures OffsetOf(Visited(SortedJob(blob, repl, views), m)) % 4 == 0
  {
    var j := SortedJob(blob, repl, views);
    if m > 0 {
      var prev := views[j.order[m - 1]];
      SumAligned(OffsetOf(prev), LengthOf(prev));
    }
    assert Visited(j, m) == views[j.order[m]];
  }

  /** A visit that starts aligned places its view aligned and ends aligned. */
  lemma AlignedVisit(j: Job, m: nat, m': nat)
    requires Valid(j) && m < |j.order| && m' == m + 1
    requires PosTo(j, m) % 4 == 0 && CursorTo(j, m) % 4 == 0 && OffsetOf(Visited(j, m)) % 4 == 0
    requires CursorTo(j, m) <= OffsetOf(Visited(j, m)) <= |j.blob|
    requires GapAt(j, m) == j.blob[CursorTo(j, m) .. OffsetOf(Visited(j, m))]
    ensures NewOffsetAt(j, m) % 4 == 0 && PosTo(j, m') % 4 == 0
  {
    var pad := PaddedLength(|PayloadAt(j, m)|);
    PaddedAligned(|PayloadAt(j, m)|);
    assert |GapAt(j, m)| == OffsetOf(Visited(j, m)) - CursorTo(j, m);
    PosStep(j, m, m');
    AlignedSum(PosTo(j, m), CursorTo(j, m), OffsetOf(Visited(j, m)), pad, NewOffsetAt(j, m), PosTo(j, m'));
  }

  lemma PaddedAligned(n: nat)
    ensures PaddedLength(n) % 4 == 0
  {
  }

  /** In a well-formed aligned table, every intermediate output length is a multiple of 4. */
  lemma {:induction false} OutputAligned(blob: seq<Byte>, repl: map<nat, seq<Byte>>, views: seq<BufferView>, m: nat)
    requires WellFormed(blob, views) && Aligned(views) && m <= |views|
    ensures PosTo(SortedJob(blob, repl, views), m) % 4 == 0
  {
    if m > 0 {
      var p := m - 1;
      OutputAligned(blob, repl, views, p);
      CursorBeforeNext(blob, repl, views, p);
      AlignedCursor(blob, repl, views, p);
      AlignedVisit(SortedJob(blob, repl, views), p, m);
    }
  }

  /**
   * Alignment holds when the source was aligned throughout: if every original view starts and
   * ends on a multiple of 4, every rebuilt view starts on a multiple of 4, whatever is replaced.
   */
  lemma AlignedWhenSourceAligned(blob: seq<Byte>, repl: map<nat, seq<Byte>>, views: seq<BufferView>)
    requires WellFormed(blob, views) && Aligned(views)
    ensures forall i :: 0 <= i < |views| ==> OffsetOf(RebuiltViews(blob, repl, views)[i]) % 4 == 0
  {
    forall i | 0 <= i < |views| ensures OffsetOf(RebuiltViews(blob, repl, views)[i]) % 4 == 0 {
      var m := VisitOf(blob, repl, views, i);
      OutputAligned(blob, repl, views, m);
      CursorBeforeNext(blob, repl, views, m);
      AlignedCursor(blob, repl, views, m);
      var m' := m + 1;
      AlignedVisit(SortedJob(blob, repl, views), m, m');
    }
  }

  /** Two views over 12 zero bytes: 7 bytes at offset 0, and 4 bytes at offset 8. */
  const GapBlob: seq<Byte> := Zeros(12)
  const GapViews: seq<BufferView> := [BufferView(0, Some(0), Some(7), None, None), BufferView(0, Some(8), Some(4), None, None)]

  lemma GapViewsWellFormed()
    ensures WellFormed(GapBlob, GapViews)
  {
    ZerosSpec(12);
    assert Apart(GapViews, 0, 1) && Apart(GapViews, 1, 0);
  }

  lemma GapViewsOrder()
    ensures SortedOrder(GapViews) == [0, 1]
  {
    assert SortPrefix(GapViews, 1) == [0];
    assert Before(GapViews, 0, 1);
    assert Insert(GapViews, 1, [0]) == [0, 1];
  }

  /**
   * Without that condition alignment is lost: a 7-byte view at 0 followed by a view at 8 is
   * written as 7 bytes, 1 byte of padding and then the 1 original gap byte, so the second view
   * moves to offset 9 although the input is well formed and nothing is replaced.
   */
  lemma MisalignedExample()
    ensures WellFormed(GapBlob, GapViews) && OffsetOf(RebuiltViews(GapBlob, map[], GapViews)[1]) == 9
  {
    GapViewsWellFormed();
    GapViewsOrder();
    ZerosSpec(12);
    var j := SortedJob(GapBlob, map[], GapViews);
    assert Visited(j, 0) == GapViews[0] && Visited(j, 1) == GapViews[1];
    assert |PayloadAt(j, 0)| == 7 && GapAt(j, 0) == [];
    PaddedLengthSpec(7);
    PosStep(j, 0, 1);
    CursorStep(j, 0, 1);
    assert |GapAt(j, 1)| == 1;
    Kept(j, 1, 2);
  }

  /** A 4-byte view at 0 and an empty view at the same offset, over 4 zero bytes. */
  const EmptyViewBlob: seq<Byte> := Zeros(4)
  const EmptyAtStart: seq<BufferView> := [BufferView(0, Some(0), Some(4), None, None), BufferView(0, Some(0), Some(0), None, None)]

  lemma EmptyAtStartOrder()
    ensures SortedOrder(EmptyAtStart) == [0, 1]
  {
    assert SortPrefix(EmptyAtStart, 1) == [0];
    assert Before(EmptyAtStart, 0, 1);
    assert Insert(EmptyAtStart, 1, [0]) == [0, 1];
  }

  lemma EmptyAtStartTable()
    ensures InBlob(EmptyViewBlob, EmptyAtStart) && Disjoint(EmptyAtStart) && !NonEmpty(EmptyAtStart)
  {
    ZerosSpec(4);
    assert Apart(EmptyAtStart, 0, 1) && Apart(EmptyAtStart, 1, 0);
    assert LengthOf(EmptyAtStart[1]) == 0;
  }

  /** Both visits of the example: 4 bytes written, then none, and the cursor ends back at 0. */
  lemma EmptyAtStartVisits()
    ensures var j := SortedJob(EmptyViewBlob, map[], EmptyAtStart);
            PosTo(j, 2) == 4 && CursorTo(j, 2) == 0
  {
    ZerosSpec(4);
    EmptyAtStartOrder();
    var j := SortedJob(EmptyViewBlob, map[], EmptyAtStart);
    assert Visited(j, 0) == EmptyAtStart[0] && Visited(j, 1) == EmptyAtStart[1];
    assert |PayloadAt(j, 0)| == 4 && GapAt(j, 0) == [];
    PaddedLengthSpec(4);
    PosStep(j, 0, 1);
    CursorStep(j, 0, 1);
    assert GapAt(j, 1) == [] && |PayloadAt(j, 1)| == 0;
    PaddedLengthSpec(0);
    PosStep(j, 1, 2);
    CursorStep(j, 1, 2);
  }

  /**
   * Why the layout theorems need every byteLength >= 1: an empty view at the offset of an
   * earlier view moves the cursor back to that offset, so the trailer copy writes the earlier
   * view's bytes a second time. The table lies inside the blob and no two views overlap, yet
   * 4 bytes with nothing replaced rebuild to 8.
   */
  lemma EmptyViewDuplicates()
    ensures InBlob(EmptyViewBlob, EmptyAtStart) && Disjoint(EmptyAtStart) && !NonEmpty(EmptyAtStart)
    ensures |RebuiltBlob(EmptyViewBlob, map[], EmptyAtStart)| == 8
  {
    ZerosSpec(4);
    EmptyAtStartTable();
    EmptyAtStartVisits();
    var j := SortedJob(EmptyViewBlob, map[], EmptyAtStart);
    OutLength(j, 2);
  }
}
