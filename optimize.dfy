/**
 * `optimize_vrm_file` between loading and saving: find the normal-map images, re-encode the
 * embedded images, then rebuild the binary chunk around the new bytes. Loading, saving, the
 * before/after VRM report and the size printout are I/O and are not part of this model.
 */
module Optimize {
  import opened Wrappers
  import opened Bytes
  import opened Gltf
  import opened Config
  import opened NormalMaps
  import opened Classify
  import opened Layout
  import opened Rebuild

  /** Why `optimize_vrm_file` stops: the image loop's errors, then the rebuilder's. */
  datatype OptimizeError = ImageFailed(image: ImageError) | RebuildFailed(rebuild: RebuildError)

  /**
   * The edit `optimize_vrm_file` makes to a loaded document. Every failure leaves the document
   * as far as Python had got: with no images nothing changes; a bad bufferView index leaves the
   * images before it relabelled; a rebuild failure comes after all images were relabelled (and,
   * for a missing buffer, after the views were rewritten). Extensions are never touched, so
   * whether the file looks like a VRM is the same afterwards.
   */
  method OptimizeFile(doc: Document, blob: seq<Byte>, settings: Settings, codec: Codec)
    returns (r: Result<seq<Byte>, OptimizeError>)
    modifies doc.images, doc.bufferViews, doc`buffers
    ensures var p := Pass(old(doc.bufferViews[..]), blob, NormalImages(doc.materials, doc.textures), settings, codec);
            var imgs := old(doc.images[..]);
            var views := old(doc.bufferViews[..]);
            var n := FirstBad(imgs, |views|);
            && |doc.images[..]| == |imgs|
            && (|imgs| == 0 ==> r == Failure(ImageFailed(NoImages)) && doc.images[..] == imgs)
            && (|imgs| > 0 && n < |imgs| ==>
                  && r == Failure(ImageFailed(ViewIndexOutOfRange))
                  && (forall i :: 0 <= i < n ==> doc.images[i] == Relabelled(p, i, imgs[i]))
                  && (forall i :: n <= i < |imgs| ==> doc.images[i] == imgs[i]))
            && (r.Failure? && r.error.ImageFailed? ==>
                  doc.bufferViews[..] == views && doc.buffers == old(doc.buffers))
            && (|imgs| > 0 && n == |imgs| ==>
                  var replacements := ReplacementsTo(p, imgs, n);
                  && (forall i :: 0 <= i < n ==> doc.images[i] == Relabelled(p, i, imgs[i]))
                  && (views == [] ==> r == Failure(RebuildFailed(NoBufferViews)) && doc.bufferViews[..] == views &&
                                      doc.buffers == old(doc.buffers))
                  && (views != [] ==> doc.bufferViews[..] == RebuiltViews(blob, replacements, views))
                  && (views != [] && old(doc.buffers) == [] ==> r == Failure(RebuildFailed(NoBuffers)) && doc.buffers == [])
                  && (views != [] && old(doc.buffers) != [] ==>
                        r == Success(RebuiltBlob(blob, replacements, views)) &&
                        doc.buffers == old(doc.buffers)[0 := old(doc.buffers)[0].(byteLength := Some(|r.value|))]))
    ensures IsVrm(doc.extensionsUsed, doc.extensions) == old(IsVrm(doc.extensionsUsed, doc.extensions))
  {
    var normal := NormalTextureImageIndices(doc.materials, doc.textures);
    var images := ReencodeImages(doc, blob, normal, settings, codec);
    if images.Failure? {
      return Failure(ImageFailed(images.error));
    }
    var rebuilt := RebuildBlobWithReplacements(doc, blob, images.value);
    if rebuilt.Failure? {
      return Failure(RebuildFailed(rebuilt.error));
    }
    return Success(rebuilt.value);
  }
}
