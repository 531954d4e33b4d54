/**
 * The part of a glTF 2.0 document (the JSON section of a GLB container) that the optimizer
 * reads or rewrites. Optional JSON properties are `Option`s; `byteOffset or 0` and friends
 * are the accessor functions below.
 */
module Gltf {
  import opened Wrappers
  import opened Bytes

  /** A buffer view: a byte range of the single binary buffer. */
  datatype BufferView = BufferView(
    buffer: nat,
    byteOffset: Option<nat>,
    byteLength: Option<nat>,
    byteStride: Option<nat>,
    target: Option<nat>)

  datatype Buffer = Buffer(byteLength: Option<nat>, uri: Option<string>)

  datatype Image = Image(name: Option<string>, bufferView: Option<nat>, mimeType: Option<string>)

  /** The `normalTexture` of a material: a texture index. */
  datatype NormalTextureInfo = NormalTextureInfo(index: Option<nat>, scale: Option<int>)

  datatype Material = Material(name: Option<string>, normalTexture: Option<NormalTextureInfo>)

  datatype Texture = Texture(source: Option<nat>, sampler: Option<nat>)

  /** `bv.byteOffset or 0` */
  function OffsetOf(v: BufferView): nat { v.byteOffset.GetOr(0) }

  /** `bv.byteLength or 0` */
  function LengthOf(v: BufferView): nat { v.byteLength.GetOr(0) }

  /** One past the last byte of the view. */
  function End(v: BufferView): nat { OffsetOf(v) + LengthOf(v) }

  /** The extension names whose presence marks a VRM avatar (VRM 0.x and VRM 1.0). */
  const VrmMarkers: set<string> := {"VRM", "VRMC_vrm"}

  /**
   * `is_vrm`: a VRM marker is listed in `extensionsUsed` or is a key of the top-level
   * `extensions` object; a missing list or object counts as empty.
   */
  function IsVrm(extensionsUsed: Option<seq<string>>, extensions: Option<set<string>>): (r: bool)
    ensures r <==> exists marker :: marker in VrmMarkers &&
                     (marker in extensionsUsed.GetOr([]) || marker in extensions.GetOr({}))
    ensures extensionsUsed.None? && extensions.None? ==> !r
  {
    var used := extensionsUsed.GetOr([]);
    var ext := extensions.GetOr({});
    "VRM" in used || "VRMC_vrm" in used || "VRM" in ext || "VRMC_vrm" in ext
  }

  /**
   * The loaded document. The optimizer rewrites buffer views and images in place and
   * sets the buffer's byteLength, so those are mutable; materials and textures are only read.
   */
  class Document {
    var materials: seq<Material>
    var textures: seq<Texture>
    var images: array<Image>
    var bufferViews: array<BufferView>
    var buffers: seq<Buffer>
    var extensionsUsed: Option<seq<string>>
    var extensions: Option<set<string>>

    constructor (materials: seq<Material>, textures: seq<Texture>, images: seq<Image>,
                 bufferViews: seq<BufferView>, buffers: seq<Buffer>,
                 extensionsUsed: Option<seq<string>>, extensions: Option<set<string>>)
      ensures this.materials == materials && this.textures == textures
      ensures fresh(this.images) && this.images[..] == images
      ensures fresh(this.bufferViews) && this.bufferViews[..] == bufferViews
      ensures this.buffers == buffers
      ensures this.extensionsUsed == extensionsUsed && this.extensions == extensions
    {
      this.materials := materials;
      this.textures := textures;
      this.images := new Image[|images|](i requires 0 <= i < |images| => images[i]);
      this.bufferViews := new BufferView[|bufferViews|](i requires 0 <= i < |bufferViews| => bufferViews[i]);
      this.buffers := buffers;
      this.extensionsUsed := extensionsUsed;
      this.extensions := extensions;
    }
  }
}
