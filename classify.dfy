/**
 * The image loop of `optimize_vrm_file`: each embedded image is classified as a thumbnail, a
 * normal map or a general texture, re-encoded with that class's (size, quality) policy, and
 * its buffer view is mapped to the new bytes. The image codec is a pair of parameters: whether
 * the raw bytes decode, and what the resize-and-WebP-encode step produces from them.
 */
module Classify {
  import opened Wrappers
  import opened Bytes
  import opened Gltf
  import opened Config

  datatype ImageClass = Thumbnail | NormalMap | General

  datatype ImageError = NoImages | ViewIndexOutOfRange

  /** ASCII lower case (the names the optimizer looks for are ASCII). */
  function LowerChar(c: char): char
  {
    if 'A' <= c <= 'Z' then (c as int + 32) as char else c
  }

  function Lower(s: string): string
  {
    seq(|s|, i requires 0 <= i < |s| => LowerChar(s[i]))
  }

  /** `sub` occurs in `s` starting at position `i`. */
  predicate OccursAt(s: string, sub: string, i: nat)
  {
    i + |sub| <= |s| && s[i..i + |sub|] == sub
  }

  /** Python's `sub in s` on strings. */
  predicate Contains(s: string, sub: string)
  {
    exists i :: 0 <= i <= |s| && OccursAt(s, sub, i)
  }

  /** `"thumbnail" in (img.name or "").lower()` */
  predicate IsThumbnailName(name: Option<string>)
  {
    Contains(Lower(name.GetOr("")), "thumbnail")
  }

  /** The class of an image: a thumbnail name wins over being a normal map, which wins over general. */
  function ClassOf(name: Option<string>, isNormal: bool): (c: ImageClass)
    ensures c == Thumbnail <==> IsThumbnailName(name)
    ensures c == NormalMap <==> !IsThumbnailName(name) && isNormal
    ensures c == General <==> !IsThumbnailName(name) && !isNormal
  {
    if IsThumbnailName(name) then Thumbnail
    else if isNormal then NormalMap
    else General
  }

  /** The (limit, quality) pair each class is encoded with. */
  function PolicyFor(c: ImageClass, s: Settings): Policy
  {
    match c
    case Thumbnail => Policy(s.thumbMax, s.thumbQuality)
    case NormalMap => Policy(s.normalMax, s.normalQuality)
    case General => Policy(s.maxSize, s.webpQuality)
  }

  /** Whether raw image bytes decode, and the WebP bytes they are re-encoded to under a policy. */
  datatype Codec = Codec(decodes: seq<Byte> -> bool, encode: (seq<Byte>, Policy) -> seq<Byte>)

  /** Everything the loop reads besides the images: views, blob, normal-map images, settings, codec. */
  datatype Pass = Pass(views: seq<BufferView>, blob: seq<Byte>, normal: set<nat>, settings: Settings, codec: Codec)

  /** The image's bufferView, if it has one, is an index into the view table. */
  predicate ViewInRange(img: Image, n: nat)
  {
    img.bufferView.Some? ==> img.bufferView.value < n
  }

  /**
   * What the loop does with image `index`: nothing (None) when it has no bufferView or its
   * bytes do not decode; otherwise its view index and its re-encoded bytes.
   */
  function Reencoded(p: Pass, index: nat, img: Image): Option<(nat, seq<Byte>)>
    requires ViewInRange(img, |p.views|)
  {
    match img.bufferView
    case None => None
    case Some(b) =>
      var raw := Slice(p.blob, OffsetOf(p.views[b]), End(p.views[b]));
      if !p.codec.decodes(raw) then None
      else Some((b, p.codec.encode(raw, PolicyFor(ClassOf(img.name, index in p.normal), p.settings))))
  }

  /**
   * The images the loop gets through before Python raises an IndexError: the length of the
   * longest prefix whose bufferViews are all in range.
   */
  function FirstBad(images: seq<Image>, n: nat): (r: nat)
    ensures r <= |images|
    ensures forall i :: 0 <= i < r ==> ViewInRange(images[i], n)
    ensures r < |images| ==> !ViewInRange(images[r], n)
  {
    if images == [] then 0
    else if !ViewInRange(images[0], n) then 0
    else 1 + FirstBad(images[1..], n)
  }

  /** The replacement map after the first `k` images, later images overwriting earlier entries. */
  function ReplacementsTo(p: Pass, images: seq<Image>, k: nat): map<nat, seq<Byte>>
    requires k <= |images| && forall i :: 0 <= i < k ==> ViewInRange(images[i], |p.views|)
  {
    if k == 0 then map[]
    else
      var prev := ReplacementsTo(p, images, k - 1);
      match Reencoded(p, k - 1, images[k - 1])
      case None => prev
      case Some(entry) => prev[entry.0 := entry.1]
  }

  lemma ReplacementsStep(p: Pass, images: seq<Image>, k: nat, k': nat)
    requires k < |images| && k' == k + 1 && forall i :: 0 <= i < k' ==> ViewInRange(images[i], |p.views|)
    ensures ReplacementsTo(p, images, k') ==
            match Reencoded(p, k, images[k])
            case None => ReplacementsTo(p, images, k)
            case Some(entry) => ReplacementsTo(p, images, k)[entry.0 := entry.1]
  {
  }

  /** Image `img` after the loop has handled it: re-encoded images are relabelled WebP. */
  function Relabelled(p: Pass, index: nat, img: Image): Image
    requires ViewInRange(img, |p.views|)
  {
    if Reencoded(p, index, img).Some? then img.(mimeType := Some("image/webp")) else img
  }

  /**
   * One iteration of the image loop for image `k`: fails (ok == false) when its bufferView is
   * not an index of the view table; otherwise records the re-encoded bytes under its view and
   * relabels the image, or leaves both alone when it has no view or does not decode.
   */
  method HandleImage(images: array<Image>, k: nat, views: array<BufferView>, blob: seq<Byte>, normal: set<nat>,
                     settings: Settings, codec: Codec, replacements: map<nat, seq<Byte>>)
    returns (ok: bool, replacements': map<nat, seq<Byte>>)
    requires k < images.Length
    modifies images
    ensures var p := Pass(views[..], blob, normal, settings, codec);
            var img := old(images[k]);
            && ok == ViewInRange(img, views.Length)
            && (ok ==> replacements' == match Reencoded(p, k, img)
                                        case None => replacements
                                        case Some(entry) => replacements[entry.0 := entry.1])
            && images[..] == if ok then old(images[..])[k := Relabelled(p, k, img)] else old(images[..])
  {
    ghost var p := Pass(views[..], blob, normal, settings, codec);
    replacements' := replacements;
    var img := images[k];
    if img.bufferView.None? {
      return true, replacements';
    }
    var b := img.bufferView.value;
    if b >= views.Length {
      return false, replacements';
    }
    var bv := views[b];
    var raw := Slice(blob, OffsetOf(bv), End(bv));
    if codec.decodes(raw) {
      var policy := PolicyFor(ClassOf(img.name, k in normal), settings);
      var newBytes := codec.encode(raw, policy);
      assert Reencoded(p, k, img) == Some((b, newBytes));
      replacements' := replacements'[b := newBytes];
      images[k] := img.(mimeType := Some("image/webp"));
    }
    ok := true;
  }

  /**
   * The image loop of `optimize_vrm_file`. No images: fails before anything changes. Otherwise
   * the images are handled in order until one names a missing buffer view (failure), each
   * re-encoded one relabelled "image/webp"; later images are untouched.
   */
  method ReencodeImages(doc: Document, blob: seq<Byte>, normal: set<nat>, settings: Settings, codec: Codec)
    returns (r: Result<map<nat, seq<Byte>>, ImageError>)
    modifies doc.images
    ensures var p := Pass(doc.bufferViews[..], blob, normal, settings, codec);
            var imgs := old(doc.images[..]);
            var n := FirstBad(imgs, |p.views|);
            && (|imgs| == 0 ==> r == Failure(NoImages))
            && (|imgs| > 0 && n < |imgs| ==> r == Failure(ViewIndexOutOfRange))
            && (|imgs| > 0 && n == |imgs| ==> r == Success(ReplacementsTo(p, imgs, n)))
            && |doc.images[..]| == |imgs|
            && (forall i :: 0 <= i < n ==> doc.images[i] == Relabelled(p, i, imgs[i]))
            && (forall i :: n <= i < |imgs| ==> doc.images[i] == imgs[i])
  {
    ghost var p := Pass(doc.bufferViews[..], blob, normal, settings, codec);
    ghost var imgs := doc.images[..];
    ghost var n := FirstBad(imgs, |p.views|);
    if doc.images.Length == 0 {
      return Failure(NoImages);
    }
    var replacements: map<nat, seq<Byte>> := map[];
    var k := 0;
    while k < doc.images.Length
      invariant k <= n
      invariant replacements == ReplacementsTo(p, imgs, k)
      invariant forall i :: 0 <= i < k ==> doc.images[i] == Relabelled(p, i, imgs[i])
      invariant forall i :: k <= i < |imgs| ==> doc.images[i] == imgs[i]
    {
      var ok;
      ghost var before := doc.images[..];
      assert before[k] == imgs[k];
      ok, replacements := HandleImage(doc.images, k, doc.bufferViews, blob, normal, settings, codec, replacements);
      if !ok {
        return Failure(ViewIndexOutOfRange);
      }
      var k' := k + 1;
      ReplacementsStep(p, imgs, k, k');
      k := k';
    }
    return Success(replacements);
  }

  // ---------------------------------------------------------------------------------------
  // What the replacement map holds

  /** Image `i` is re-encoded into view `b`. */
  predicate WritesView(p: Pass, images: seq<Image>, i: nat, b: nat)
    requires i < |images| && ViewInRange(images[i], |p.views|)
  {
    Reencoded(p, i, images[i]).Some? && Reencoded(p, i, images[i]).value.0 == b
  }

  /**
   * A view has an entry exactly when some handled image was re-encoded into it: skipped images
   * (no bufferView, or bytes that do not decode) add nothing.
   */
  lemma {:induction false} ReplacementKeys(p: Pass, images: seq<Image>, k: nat, b: nat)
    requires k <= |images| && forall i :: 0 <= i < k ==> ViewInRange(images[i], |p.views|)
    ensures b in ReplacementsTo(p, images, k) <==> exists i :: 0 <= i < k && WritesView(p, images, i, b)
  {
    if k > 0 {
      var m := k - 1;
      ReplacementKeys(p, images, m, b);
      if WritesView(p, images, m, b) {
        assert b in ReplacementsTo(p, images, k);
      }
    }
  }

  /** The entry of a view is the bytes of the last handled image re-encoded into it. */
  lemma {:induction false} ReplacementValue(p: Pass, images: seq<Image>, k: nat, i: nat, b: nat)
    requires k <= |images| && forall i :: 0 <= i < k ==> ViewInRange(images[i], |p.views|)
    requires i < k && WritesView(p, images, i, b)
    requires forall i' :: i < i' < k ==> !WritesView(p, images, i', b)
    ensures b in ReplacementsTo(p, images, k)
    ensures ReplacementsTo(p, images, k)[b] == Reencoded(p, i, images[i]).value.1
  {
    var m := k - 1;
    if i < m {
      ReplacementValue(p, images, m, i, b);
      assert !WritesView(p, images, m, b);
    }
  }
}
