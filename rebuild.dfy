/**
 * `rebuild_blob_with_replacements`: lays the binary buffer out again, view by view in
 * ascending original offset, writing either a view's replacement bytes or its original bytes,
 * each zero-padded to a multiple of 4, and copying the bytes between and after the views.
 * The method is proved to compute the layout that module Layout specifies.
 */
module Rebuild {
  import opened Wrappers
  import opened Bytes
  import opened Gltf
  import opened ViewOrder
  import opened Layout

  datatype RebuildError = NoBufferViews | NoBuffers

  /**
   * The body of the loop of `rebuild_blob_with_replacements` for view `i`: copy the gap before
   * the view, write its bytes padded to a multiple of 4, record its new offset and length.
   */
  method PlaceView(bvs: array<BufferView>, blob: seq<Byte>, replacements: map<nat, seq<Byte>>, i: nat,
                   newBlob: seq<Byte>, cursor: nat, ghost job: Job, ghost k: nat)
    returns (newBlob': seq<Byte>, cursor': nat)
    requires Valid(job) && Distinct(job.order) && k < |job.order| && i == job.order[k]
    requires blob == job.blob && replacements == job.replacements && bvs.Length == |job.views|
    requires newBlob == OutTo(job, k) && cursor == CursorTo(job, k) && bvs[..] == ViewsTo(job, k)
    modifies bvs
    ensures newBlob' == OutTo(job, k + 1) && cursor' == CursorTo(job, k + 1)
    ensures bvs[..] == ViewsTo(job, k + 1)
  {
    NextUntouched(job, k);
    OutLength(job, k);
    ghost var placed := Placed(Visited(job, k), NewOffsetAt(job, k), NewLengthAt(job, k));
    newBlob', cursor' := newBlob, cursor;
    var bv := bvs[i];
    var off := OffsetOf(bv);
    var ln := LengthOf(bv);
    assert bv == Visited(job, k);
    ghost var gap := GapAt(job, k);
    if off > cursor' {
      newBlob' := newBlob' + Slice(blob, cursor', off);
      cursor' := off;
    } else {
      assert newBlob + gap == newBlob;
    }
    assert newBlob' == newBlob + gap;
    assert |newBlob'| == NewOffsetAt(job, k);
    if i in replacements {
      var data := replacements[i];
      var dataPadded := Pad4(data);
      bvs[i] := bv.(byteOffset := Some(|newBlob'|), byteLength := Some(|data|));
      newBlob' := newBlob' + dataPadded;
    } else {
      var chunk := Slice(blob, off, off + ln);
      bvs[i] := bv.(byteOffset := Some(|newBlob'|), byteLength := Some(ln));
      newBlob' := newBlob' + Pad4(chunk);
    }
    assert bvs[..] == ViewsTo(job, k)[i := placed];
    cursor' := off + ln;
  }

  /**
   * The loop of `rebuild_blob_with_replacements`: visits the views in ascending (offset, index)
   * order, placing each one, and ends with the bytes written and the cursor.
   */
  method PlaceAll(bvs: array<BufferView>, blob: seq<Byte>, replacements: map<nat, seq<Byte>>)
    returns (newBlob: seq<Byte>, cursor: nat)
    modifies bvs
    ensures var job := SortedJob(blob, replacements, old(bvs[..]));
            && newBlob == OutTo(job, bvs.Length)
            && cursor == CursorTo(job, bvs.Length)
            && bvs[..] == ViewsTo(job, bvs.Length)
  {
    var order := SortedOrder(bvs[..]);
    ghost var job := SortedJob(blob, replacements, bvs[..]);
    assert Distinct(job.order) by {
      SortedOrderIsStableSort(bvs[..]);
    }
    newBlob, cursor := [], 0;
    for k := 0 to |order|
      invariant newBlob == OutTo(job, k) && cursor == CursorTo(job, k)
      invariant bvs[..] == ViewsTo(job, k)
    {
      newBlob, cursor := PlaceView(bvs, blob, replacements, order[k], newBlob, cursor, job, k);
    }
  }

  /**
   * `rebuild_blob_with_replacements(gltf, original_blob, replacements)`. Fails before touching
   * anything when there are no buffer views; fails after the views have been rewritten when
   * there is no buffer; otherwise sets `buffers[0].byteLength` to the new length.
   */
  method RebuildBlobWithReplacements(doc: Document, blob: seq<Byte>, replacements: map<nat, seq<Byte>>)
    returns (r: Result<seq<Byte>, RebuildError>)
    modifies doc`buffers, doc.bufferViews
    ensures old(doc.bufferViews.Length) == 0 ==>
              r == Failure(NoBufferViews) && doc.buffers == old(doc.buffers)
    ensures old(doc.bufferViews.Length) == 0 ==> doc.bufferViews[..] == old(doc.bufferViews[..])
    ensures old(doc.bufferViews.Length) > 0 ==>
              doc.bufferViews[..] == RebuiltViews(blob, replacements, old(doc.bufferViews[..]))
    ensures old(doc.bufferViews.Length) > 0 && old(doc.buffers) == [] ==>
              r == Failure(NoBuffers) && doc.buffers == []
    ensures old(doc.bufferViews.Length) > 0 && old(doc.buffers) != [] ==>
              r == Success(RebuiltBlob(blob, replacements, old(doc.bufferViews[..]))) &&
              doc.buffers == old(doc.buffers)[0 := old(doc.buffers)[0].(byteLength := Some(|r.value|))]
  {
    var bvs := doc.bufferViews;
    if bvs.Length == 0 {
      return Failure(NoBufferViews);
    }
    var newBlob, cursor := PlaceAll(bvs, blob, replacements);
    if cursor < |blob| {
      newBlob := newBlob + blob[cursor..];
    } else {
      assert newBlob + Trailer(blob, cursor) == newBlob;
    }
    if |doc.buffers| == 0 {
      return Failure(NoBuffers);
    }
    doc.buffers := doc.buffers[0 := doc.buffers[0].(byteLength := Some(|newBlob|))];
    return Success(newBlob);
  }
}
