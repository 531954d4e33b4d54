/**
 * `get_normal_texture_image_indices`: the images used as normal maps, found by following
 * material -> normalTexture.index -> texture -> source. A missing list counts as empty.
 */
module NormalMaps {
  import opened Wrappers
  import opened Gltf

  /** The texture index in a material's `normalTexture`, if it has one. */
  function NormalIndexOf(m: Material): Option<nat>
  {
    match m.normalTexture
    case Some(nt) => nt.index
    case None => None
  }

  /** Some material names texture `t` as its normal texture. */
  predicate NamesNormalTexture(materials: seq<Material>, t: nat)
  {
    exists k :: 0 <= k < |materials| && NormalIndexOf(materials[k]) == Some(t)
  }

  /**
   * The images used as normal maps: the sources of the in-range textures that some material
   * names as its normal texture.
   */
  function NormalImages(materials: seq<Material>, textures: seq<Texture>): set<nat>
  {
    set t | 0 <= t < |textures| && NamesNormalTexture(materials, t) && textures[t].source.Some? :: textures[t].source.value
  }

  /** The first loop: the texture indices named by some material's normalTexture. */
  method NormalTextureIndices(materials: seq<Material>) returns (r: set<nat>)
    ensures forall t :: t in r <==> NamesNormalTexture(materials, t)
  {
    r := {};
    for k := 0 to |materials|
      invariant forall t :: t in r <==> NamesNormalTexture(materials[..k], t)
    {
      var nt := materials[k].normalTexture;
      if nt.Some? && nt.value.index.Some? {
        r := r + {nt.value.index.value};
      }
      forall t ensures NamesNormalTexture(materials[..k + 1], t) <==> t in r {
        if NamesNormalTexture(materials[..k + 1], t) {
          var p :| 0 <= p < k + 1 && NormalIndexOf(materials[..k + 1][p]) == Some(t);
          if p < k {
            assert materials[..k][p] == materials[..k + 1][p];
          }
        }
        if t in r && NormalIndexOf(materials[k]) != Some(t) {
          var p :| 0 <= p < k && NormalIndexOf(materials[..k][p]) == Some(t);
          assert materials[..k + 1][p] == materials[..k][p];
        }
        if NormalIndexOf(materials[k]) == Some(t) {
          assert materials[..k + 1][k] == materials[k];
        }
      }
    }
    assert materials[..|materials|] == materials;
  }

  /** The second loop: the sources of those texture indices that are in range and have one. */
  method SourcesOf(texIndices: set<nat>, textures: seq<Texture>) returns (r: set<nat>)
    ensures forall img :: img in r <==>
              exists t :: t in texIndices && t < |textures| && textures[t].source == Some(img)
  {
    r := {};
    var remaining := texIndices;
    ghost var done: set<nat> := {};
    while remaining != {}
      invariant remaining + done == texIndices && remaining !! done
      invariant forall img :: img in r <==>
                  exists t :: t in done && t < |textures| && textures[t].source == Some(img)
      decreases |remaining|
    {
      var t :| t in remaining;
      if t < |textures| {
        var tex := textures[t];
        if tex.source.Some? {
          r := r + {tex.source.value};
        }
      }
      remaining := remaining - {t};
      done := done + {t};
    }
  }

  /**
   * `get_normal_texture_image_indices`: exactly the normal-map images; out-of-range texture
   * indices and sourceless textures add nothing, and no materials or no textures give none.
   */
  method NormalTextureImageIndices(materials: seq<Material>, textures: seq<Texture>) returns (r: set<nat>)
    ensures r == NormalImages(materials, textures)
    ensures materials == [] || textures == [] ==> r == {}
  {
    if |materials| == 0 {
      return {};
    }
    var texIndices := NormalTextureIndices(materials);
    r := {};
    if |textures| > 0 {
      r := SourcesOf(texIndices, textures);
    }
    forall img ensures img in r <==> img in NormalImages(materials, textures) {
      if img in NormalImages(materials, textures) {
        var t :| 0 <= t < |textures| && NamesNormalTexture(materials, t) && textures[t].source == Some(img);
        assert t in texIndices;
      }
    }
  }
}
