/**
 * The six knobs of `optimize_vrm_file` (`max_size`, `webp_quality`, `thumb_max`,
 * `thumb_quality`, `normal_max`, `normal_quality`) and the (size limit, quality) pair one image
 * is re-encoded with. Python ints, so unbounded and possibly negative.
 */
module Config {
  datatype Settings = Settings(
    maxSize: int,
    webpQuality: int,
    thumbMax: int,
    thumbQuality: int,
    normalMax: int,
    normalQuality: int)

  /** The limit on an image's larger dimension and the WebP quality it is encoded with. */
  datatype Policy = Policy(limit: int, quality: int)
}
