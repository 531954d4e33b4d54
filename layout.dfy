/**
 * What the loop of `rebuild_blob_with_replacements` computes, as functions of how many views
 * it has visited: the bytes written so far (OutTo), their count (PosTo), the read cursor
 * (CursorTo) and the view table (ViewsTo). The method in Rebuild is proved to compute them;
 * RebuildProps proves what the finished layout guarantees.
 */
module Layout {
  import opened Wrappers
  import opened Bytes
  import opened Gltf
  import opened ViewOrder

  /** The loop's inputs: the original blob, the replacements, the original views, the visiting order. */
  datatype Job = Job(blob: seq<Byte>, replacements: map<nat, seq<Byte>>, views: seq<BufferView>, order: seq<nat>)

  predicate Valid(j: Job)
  {
    InRange(|j.views|, j.order)
  }

  /** The bytes of the original between the cursor and a view starting at `off` (none if the view does not lie ahead). */
  function Gap(blob: seq<Byte>, cursor: nat, off: nat): seq<Byte>
  {
    if off > cursor then Slice(blob, cursor, off) else []
  }

  /** What is written for view `i`: its replacement, or its original bytes. */
  function Payload(blob: seq<Byte>, replacements: map<nat, seq<Byte>>, i: nat, v: BufferView): seq<Byte>
  {
    if i in replacements then replacements[i] else Slice(blob, OffsetOf(v), End(v))
  }

  /** The logical (unpadded) length recorded for view `i`. */
  function NewLength(replacements: map<nat, seq<Byte>>, i: nat, v: BufferView): nat
  {
    if i in replacements then |replacements[i]| else LengthOf(v)
  }

  /** View `v` placed at `off` with length `len`; its other properties are kept. */
  function Placed(v: BufferView, off: nat, len: nat): BufferView
  {
    v.(byteOffset := Some(off), byteLength := Some(len))
  }

  /** The m-th visited view, as it was before the loop. */
  function Visited(j: Job, m: nat): BufferView
    requires Valid(j) && m < |j.order|
  {
    j.views[j.order[m]]
  }

  /** The read cursor after `k` visits: the end of the view visited last. */
  function CursorTo(j: Job, k: nat): nat
    requires Valid(j) && k <= |j.order|
  {
    if k == 0 then 0 else End(Visited(j, k - 1))
  }

  /** The gap copied in front of the m-th visited view. */
  function GapAt(j: Job, m: nat): seq<Byte>
    requires Valid(j) && m < |j.order|
  {
    Gap(j.blob, CursorTo(j, m), OffsetOf(Visited(j, m)))
  }

  /** The bytes written for the m-th visited view, before padding. */
  function PayloadAt(j: Job, m: nat): seq<Byte>
    requires Valid(j) && m < |j.order|
  {
    Payload(j.blob, j.replacements, j.order[m], Visited(j, m))
  }

  /** The new byteLength of the m-th visited view. */
  function NewLengthAt(j: Job, m: nat): nat
    requires Valid(j) && m < |j.order|
  {
    NewLength(j.replacements, j.order[m], Visited(j, m))
  }

  /** The number of bytes written after `k` visits. */
  function PosTo(j: Job, k: nat): nat
    requires Valid(j) && k <= |j.order|
  {
    if k == 0 then 0 else PosTo(j, k - 1) + |GapAt(j, k - 1)| + PaddedLength(|PayloadAt(j, k - 1)|)
  }

  /** The new byteOffset of the m-th visited view: the output length once its gap is copied. */
  function NewOffsetAt(j: Job, m: nat): nat
    requires Valid(j) && m < |j.order|
  {
    PosTo(j, m) + |GapAt(j, m)|
  }

  /** The bytes written after `k` visits. */
  function OutTo(j: Job, k: nat): seq<Byte>
    requires Valid(j) && k <= |j.order|
  {
    if k == 0 then [] else OutTo(j, k - 1) + GapAt(j, k - 1) + Pad4(PayloadAt(j, k - 1))
  }

  /** The view table after `k` visits. */
  function ViewsTo(j: Job, k: nat): (r: seq<BufferView>)
    requires Valid(j) && k <= |j.order|
    ensures |r| == |j.views|
  {
    if k == 0 then j.views
    else ViewsTo(j, k - 1)[j.order[k - 1] := Placed(Visited(j, k - 1), NewOffsetAt(j, k - 1), NewLengthAt(j, k - 1))]
  }

  /** The original bytes after the cursor. */
  function Trailer(blob: seq<Byte>, cursor: nat): seq<Byte>
  {
    if cursor < |blob| then blob[cursor..] else []
  }

  /** The job `rebuild_blob_with_replacements` runs: every view, in ascending (offset, index) order. */
  function SortedJob(blob: seq<Byte>, replacements: map<nat, seq<Byte>>, views: seq<BufferView>): (j: Job)
    ensures Valid(j) && |j.order| == |views| && j.views == views
  {
    Job(blob, replacements, views, SortedOrder(views))
  }

  /** The rebuilt view table. */
  function RebuiltViews(blob: seq<Byte>, replacements: map<nat, seq<Byte>>, views: seq<BufferView>): seq<BufferView>
  {
    ViewsTo(SortedJob(blob, replacements, views), |views|)
  }

  /** The rebuilt blob: everything the loop wrote, then the original bytes after the last view. */
  function RebuiltBlob(blob: seq<Byte>, replacements: map<nat, seq<Byte>>, views: seq<BufferView>): seq<Byte>
  {
    var j := SortedJob(blob, replacements, views);
    OutTo(j, |views|) + Trailer(blob, CursorTo(j, |views|))
  }

  // One visit at a time. Each step lemma names the successor `m'` so that the solver does not
  // have to rediscover `m + 1` inside the recursive definitions.

  lemma CursorStep(j: Job, m: nat, m': nat)
    requires Valid(j) && m < |j.order| && m' == m + 1
    ensures CursorTo(j, m') == End(Visited(j, m))
  {
  }

  lemma PosStep(j: Job, m: nat, m': nat)
    requires Valid(j) && m < |j.order| && m' == m + 1
    ensures PosTo(j, m') == NewOffsetAt(j, m) + PaddedLength(|PayloadAt(j, m)|)
  {
  }

  lemma OutStep(j: Job, m: nat, m': nat)
    requires Valid(j) && m < |j.order| && m' == m + 1
    ensures OutTo(j, m') == OutTo(j, m) + GapAt(j, m) + Pad4(PayloadAt(j, m))
  {
  }

  lemma ViewsStep(j: Job, m: nat, m': nat)
    requires Valid(j) && m < |j.order| && m' == m + 1
    ensures ViewsTo(j, m') == ViewsTo(j, m)[j.order[m] := Placed(Visited(j, m), NewOffsetAt(j, m), NewLengthAt(j, m))]
  {
  }

  /** A view the loop has not visited yet still holds its original entry. */
  lemma {:induction false} Untouched(j: Job, k: nat, i: nat)
    requires Valid(j) && k <= |j.order| && i < |j.views|
    requires forall p :: 0 <= p < k ==> j.order[p] != i
    ensures ViewsTo(j, k)[i] == j.views[i]
  {
    if k > 0 {
      var m := k - 1;
      Untouched(j, m, i);
      ViewsStep(j, m, k);
    }
  }

  /** With no index repeated, the view visited next still holds its original entry. */
  lemma NextUntouched(j: Job, k: nat)
    requires Valid(j) && Distinct(j.order) && k < |j.order|
    ensures ViewsTo(j, k)[j.order[k]] == Visited(j, k)
  {
    Untouched(j, k, j.order[k]);
  }

  /** PosTo counts the bytes written. */
  lemma {:induction false} OutLength(j: Job, k: nat)
    requires Valid(j) && k <= |j.order|
    ensures |OutTo(j, k)| == PosTo(j, k)
  {
    if k > 0 {
      var m := k - 1;
      OutLength(j, m);
      OutStep(j, m, k);
      PosStep(j, m, k);
      Pad4Spec(PayloadAt(j, m));
    }
  }
}
