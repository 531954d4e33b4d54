# VRM texture optimizer, modelled in Dafny

`vrm_optimizer.py` shrinks a VRM avatar (a GLB file: a glTF JSON document plus one binary
chunk) by re-encoding only its embedded images as WebP. The VRM extensions are left alone. The
program has four parts:

- It finds which images are normal maps.
- It re-encodes each embedded image. The image's class (thumbnail, normal map or general)
  picks the size limit and the quality.
- It rebuilds the binary chunk. Every buffer view is written in (offset, index) order: the
  original gap in front of it, then its new or old bytes padded to 4. Its offset and length are
  rewritten, the bytes after the last view are kept, and the buffer's byteLength is updated.
- To hit a target size, it tries a short list of settings, size first and then quality, at
  most `max_attempts` of them (12 by default, and `main` always uses the default). When the
  output goes to a separate file, every attempt starts again from the original file. With
  `--inplace` the output path is the input path, so each attempt reloads the previous
  attempt's output instead. It records the smallest result.

The model, module by module:

| module | file | what it holds |
|---|---|---|
| `Wrappers` | wrappers.dfy | `Option`, `Result` |
| `Bytes` | bytes.dfy | bytes, `pad4`, Python's clamped slice |
| `Gltf` | gltf.dfy | the glTF records, `is_vrm`, and the loaded document as a class. The class's image and buffer-view tables are arrays, because the optimizer updates them in place. |
| `NormalMaps` | normal_maps.dfy | `get_normal_texture_image_indices`: its two loops, as methods, and the set they compute, as a comprehension |
| `ViewOrder` | view_order.dfy | the visiting order of the rebuilder, which is a stable sort by offset |
| `Layout` | layout.dfy | what each iteration of the rebuild loop writes, as functions of the number of views visited |
| `Rebuild` | rebuild.dfy | `rebuild_blob_with_replacements`: the loop over an array of views, proved to compute `Layout` |
| `RebuildProps` | rebuild_props.dfy | theorems about the rebuilt blob and the rebuilt view table |
| `Config` | config.dfy | the six settings; a (limit, quality) policy |
| `Classify` | classify.dfy | the image loop of `optimize_vrm_file`: classification, skips, replacement map, mimeType |
| `Optimize` | optimize.dfy | `optimize_vrm_file` from normal-map detection to the rebuilt blob |
| `Candidates` | candidates.dfy | `_candidate_settings_for_target` as a sequence |
| `Search` | search.dfy | `optimize_vrm_to_target`: the attempt loop and its best-tracking |

Image decoding and encoding (PIL) are one parameter, `Classify.Codec`. It has two parts: a
predicate saying whether raw bytes decode, and a function from raw bytes and a policy to WebP
bytes. One whole attempt of the target search is a parameter of `Search`. It maps the original
input and one candidate to `Some(output size)`, or to `None` when the attempt raises.

The rebuild pads every view's bytes to a multiple of 4, but it then copies the original gap in
front of the next view. So a rebuilt view can start at an unaligned offset. `RebuildProps.MisalignedExample` shows one such input. `RebuildProps.AlignedWhenSourceAligned`
states what does hold: if the table is well formed and every original offset and length is a
multiple of 4, so is every new offset.

## Model

| member | source | states |
|---|---|---|
| Bytes.Pad4Spec | vrm_optimizer.py:20-21 | `pad4(d)` is `d` followed only by zero bytes. Its length is the padded length of `|d|`, which is a multiple of 4 and less than `|d| + 4`. A `d` whose length is already a multiple of 4 is returned unchanged. |
| Bytes.PaddedLengthSpec | vrm_optimizer.py:21 | The padded length is the least multiple of 4 that is at least `n`. |
| Bytes.ZerosSpec | vrm_optimizer.py:21 | `b"\x00" * n` has length `n` and only zero bytes. |
| Bytes.SliceInBounds | vrm_optimizer.py:62 | For in-range bounds, Python's clamped slice `blob[a:b]` is the plain subsequence. |
| Gltf.IsVrm | vrm_optimizer.py:23-26 | True exactly when "VRM" or "VRMC_vrm" occurs in `extensionsUsed` or in `extensions`. A missing list or dict counts as empty. |
| NormalMaps.NormalTextureIndices | vrm_optimizer.py:29-35 | The first loop collects exactly the texture indices that some material names as its `normalTexture.index`. |
| NormalMaps.SourcesOf | vrm_optimizer.py:37-43 | The second loop collects exactly the sources of the collected texture indices that are in range and have a source. |
| NormalMaps.NormalTextureImageIndices | vrm_optimizer.py:28-44 | The two loops together compute `NormalImages`: an image is in the result exactly when some material's normal texture is an in-range texture whose source is that image. No materials or no textures give the empty set. |
| ViewOrder.SortedOrderIsStableSort | vrm_optimizer.py:51 | The visiting order is a permutation of `range(len(bvs))`. It is strictly sorted by (offset or 0, index), which is what Python's stable sort on the offset gives. |
| ViewOrder.PositionOf | vrm_optimizer.py:51 | Every view index has a position in the visiting order. |
| ViewOrder.ConsecutiveVisits | vrm_optimizer.py:51 | Consecutive visits are distinct and in (offset, index) order. |
| ViewOrder.VisitedEarlier | vrm_optimizer.py:51 | A view that sorts before another is visited before it. |
| ViewOrder.PositionsFollowBefore | vrm_optimizer.py:51 | In any strictly sorted order, positions agree with the (offset, index) order. |
| Layout.OutLength | vrm_optimizer.py:68 | After `k` visits, `len(new_blob)` is the total of the gaps and padded payloads written so far. Each visit records this length plus the gap it copies first (`NewOffsetAt`) as the view's new offset. |
| Layout.Untouched | vrm_optimizer.py:56-77 | A view that has not been visited yet keeps its original entry. |
| Layout.NextUntouched | vrm_optimizer.py:56-57 | The view about to be visited still holds its original offset and length. |
| Rebuild.PlaceView | vrm_optimizer.py:57-77 | One iteration: the gap up to the view's offset is copied if it lies ahead of the cursor. Then the replacement or the original chunk is written, padded to 4. The view gets the old output length as its offset and the unpadded length as its length, and the cursor moves to the old end. |
| Rebuild.PlaceAll | vrm_optimizer.py:51-77 | The loop over the sorted order yields exactly the specified output bytes, cursor and view table. |
| Rebuild.RebuildBlobWithReplacements | vrm_optimizer.py:46-86 | No buffer views: fails with nothing changed. No buffers: fails after the views were rewritten. Otherwise it returns the rebuilt blob, with the trailer after the last view appended, and sets `buffers[0].byteLength` to the blob's length. |
| RebuildProps.OutGrows | vrm_optimizer.py:62-75 | The output only grows: an earlier output is a prefix of a later one. |
| RebuildProps.Kept | vrm_optimizer.py:56-77 | A view keeps what its own visit wrote, because no later visit touches it. |
| RebuildProps.CursorBeforeNext | vrm_optimizer.py:61-63 | In a well-formed table, the cursor never passes the next view's offset. So the copied gap is exactly `blob[cursor:off]`. |
| RebuildProps.VisitOf | vrm_optimizer.py:56-77 | Every view is visited once, and its rebuilt entry is the one that its visit placed. |
| RebuildProps.PlacementOfView | vrm_optimizer.py:65-76 | Each view keeps its other fields. Its byteLength is the replacement's unpadded length or its old length. The new blob holds its data at its new offset, followed by zero padding up to a multiple of 4. |
| RebuildProps.ViewContents | vrm_optimizer.py:65-75 | For views inside the blob, the new range `[offset, offset + length)` holds the replacement bytes when there is one, and exactly the original bytes otherwise. |
| RebuildProps.LaidOutInOrder | vrm_optimizer.py:51-77 | When view `i` sorts before view `k`, the padded bytes of `i` end at or before the new offset of `k`. |
| RebuildProps.RebuiltViewsDisjoint | vrm_optimizer.py:56-80 | For views inside the original blob, the rebuilt views lie inside the new blob and do not overlap. |
| RebuildProps.GapsPreserved | vrm_optimizer.py:61-63 | The original bytes between one view's end and the next view's start are copied verbatim, directly in front of the next view's new offset, whatever was replaced. |
| RebuildProps.TrailerPreserved | vrm_optimizer.py:79-80 | For views inside the blob, the bytes after the last visited view end the new blob unchanged. |
| RebuildProps.CopiedPrefix | vrm_optimizer.py:56-77 | With nothing replaced and view lengths that are multiples of 4, the loop's output after `m` visits is the blob up to the cursor. |
| RebuildProps.UnchangedWhenNothingReplaced | vrm_optimizer.py:56-80 | With nothing replaced and view lengths that are multiples of 4, the blob is rebuilt identical and every view keeps its offset and length. |
| RebuildProps.OutputAligned | vrm_optimizer.py:61-75 | In a well-formed table whose offsets and lengths are multiples of 4, every intermediate output length is a multiple of 4. |
| RebuildProps.AlignedWhenSourceAligned | vrm_optimizer.py:61-75 | In a well-formed table whose offsets and lengths are multiples of 4, every rebuilt offset is a multiple of 4, whatever is replaced. |
| RebuildProps.MisalignedExample | vrm_optimizer.py:61-75 | A concrete well-formed table, with nothing replaced, whose second view moves to the unaligned offset 9. |
| RebuildProps.EmptyViewDuplicates | vrm_optimizer.py:56-80 | A concrete 4-byte blob with views (0, 4) and (0, 0): the views lie inside the blob and do not overlap, but the second is empty. With nothing replaced it rebuilds to 8 bytes, because the empty view moves the cursor back to 0 and the trailer copy repeats the first view's bytes. |
| Classify.ClassOf | vrm_optimizer.py:130-142 | Thumbnail exactly when the lower-cased name (missing counts as "") contains "thumbnail". Normal map exactly when it is not a thumbnail and is a normal-map image. General otherwise. |
| Classify.FirstBad | vrm_optimizer.py:113-118 | The number of images that the loop passes before a bufferView index out of range: all earlier images are in range, and the image at that position is not. |
| Classify.HandleImage | vrm_optimizer.py:113-160 | One image: fails exactly when its bufferView is not a valid index. It leaves the map and the image alone when the image has no view or does not decode. Otherwise it sets the view's entry to the re-encoded bytes, under the class's (limit, quality), and relabels the image "image/webp". |
| Classify.ReencodeImages | vrm_optimizer.py:110-160 | No images: fails with nothing changed. A bad view index fails after relabelling the images before it. Otherwise it returns the replacement map of all images. Images before the failure point are relabelled as specified, and later ones are untouched. |
| Classify.ReplacementKeys | vrm_optimizer.py:113-159 | A view has an entry exactly when some handled image was re-encoded into it. Skipped images add nothing. |
| Classify.ReplacementValue | vrm_optimizer.py:159 | A view's entry is the bytes of the last image re-encoded into it (later images overwrite earlier ones). |
| Optimize.OptimizeFile | vrm_optimizer.py:107-164 | The full edit, with its states at each failure point. On success the blob and view table are the rebuilt ones for the image loop's map, and whether the document looks like a VRM is unchanged. |
| Candidates.InRangeOnlySpec | vrm_optimizer.py:198 | The in-range filter keeps exactly the elements inside the bounds. |
| Candidates.InRangeOnlyKeepsOrder | vrm_optimizer.py:198 | The filter keeps a non-increasing list non-increasing. |
| Candidates.DedupFromSpec | vrm_optimizer.py:200-201 | The `seen`-set comprehension keeps exactly the elements not yet seen. |
| Candidates.DedupFromDecreasing | vrm_optimizer.py:200-201 | De-duplicating a non-increasing list gives a strictly decreasing one. |
| Candidates.DedupSpec | vrm_optimizer.py:200-201 | De-duplication keeps the same members. |
| Candidates.SizeStepsSpec | vrm_optimizer.py:191-201 | The size ladder holds exactly the listed sizes in [128, start]. It is strictly descending (so free of duplicates), has at most 5 entries, and starts with `start` when `start >= 128`. |
| Candidates.QualityStepsSpec | vrm_optimizer.py:204-214 | The quality ladder holds exactly the listed qualities in [10, start]. It is strictly descending, has at most 6 entries, and starts with `start` when `start >= 10`. |
| Candidates.RowSpec | vrm_optimizer.py:218-230 | The inner loop yields one candidate per quality, in order. |
| Candidates.CrossLength | vrm_optimizer.py:217-218 | The nested loop yields `|sizes| * |qualities|` candidates. |
| Candidates.CrossEntry | vrm_optimizer.py:217-230 | Candidate number `i * |qualities| + k` is derived from size `i` and quality `k` (size-major). |
| Candidates.CrossMembers | vrm_optimizer.py:217-230 | Every candidate is derived from a listed size and a listed quality. |
| Candidates.CrossDescending | vrm_optimizer.py:216-230 | For strictly descending ladders, the candidates strictly descend in (size, quality). |
| Candidates.CandidateBounds | vrm_optimizer.py:217-230 | Every candidate has its size in [128, start size] and its quality in [10, start quality]. Its thumbnail and normal-map values are the four clamps of the source. |
| Candidates.CandidateCount | vrm_optimizer.py:191-230 | There are `|sizes| * |qualities|` candidates, at most 30. |
| Candidates.CandidatesDescend | vrm_optimizer.py:216-230 | The candidates strictly descend in (size, quality), so no settings are tried twice. |
| Candidates.FirstCandidate | vrm_optimizer.py:191-230 | With the start size and quality in range, the first candidate uses them. |
| Search.TryInOrder | vrm_optimizer.py:255-294 | See the list below. |
| Search.OptimizeToTarget | vrm_optimizer.py:233-294 | The same promises over the candidates generated from the start settings. |
| Search.SearchedUnique | vrm_optimizer.py:255-294 | The promises fix the outcome: two outcomes that both meet them are equal, so the search is deterministic. |

`Search.TryInOrder` promises the following:

- It makes at most `max_attempts` attempts, in candidate order, each on the original input (see "Left out" for `--inplace`).
- It stops right after the first output ≤ target (hit), or after the first attempt that raises.
- Otherwise every output was above the target, and all candidates, or the whole budget, were used.
- The best is set exactly when some attempt finished. It is the minimum size, and the earliest attempt wins ties.

## Left out

- Loading and saving the GLB (pygltflib), `os.path.getsize`, `mkdir`, and every `print` are I/O. The search takes an attempt's output size as a parameter instead.
- PIL decoding, resizing and WebP encoding are abstract `Classify.Codec` parameters, because their pixels and compression are not modelled. An exception raised by the encoder (as opposed to the decoder) is not modelled.
- `target_mb` is a float. The model takes `int(target_mb * 1024 * 1024)` as an integer `targetBytes`.
- `main` and argument parsing, with their defaults and the input-path checks, are left out as command-line plumbing. `main` never passes `max_attempts`, so the search always runs with its default of 12; the model takes the budget as a parameter. `generate_neon_text.py` is not part of this model.
- The before/after VRM report is print-only. `Optimize.OptimizeFile` states instead that the extensions the report reads are unchanged.
- `Classify.Lower`: lower-cases ASCII letters only. Python's `str.lower` also folds non-ASCII letters. The name searched for, "thumbnail", is ASCII.
- Negative indices (a bufferView, normalTexture.index or texture source below 0) are not modelled: indices are `nat`, and glTF 2.0 requires every index to be at least 0. In Python, a negative bufferView or normalTexture.index from −len to −1 selects an entry from the end of the table (vrm_optimizer.py:41, :118), and a lower one raises IndexError. A negative bufferView's replacement is then stored under the negative key (:159), which the rebuild never visits (:51, :65), so the view keeps its original bytes while the image is still relabelled WebP (:160). A negative texture source matches no image (:43, :132).
- Negative `byteOffset` and `byteLength` values are not modelled either: both are `nat`, as glTF 2.0 requires. A negative `byteLength` would move the cursor backwards at vrm_optimizer.py:77.
- `RebuildProps.CursorBeforeNext`, `GapsPreserved`, `CopiedPrefix`, `UnchangedWhenNothingReplaced`, `OutputAligned` and `AlignedWhenSourceAligned` are stated only for well-formed tables. A well-formed table has views inside the blob, no two views overlapping, and every byteLength ≥ 1. The glTF 2.0 schema imposes byteLength ≥ 1 and each view lying inside its buffer; non-overlap is an assumption of the model. The last condition matters: an empty view at an earlier view's offset sets the cursor back to that offset (vrm_optimizer.py:77), so the trailer copy (:79-80) writes bytes a second time. `RebuildProps.EmptyViewDuplicates` shows a 4-byte blob that rebuilds to 8 bytes this way. On other tables the rebuild method still runs as the code does, but these layout guarantees need not hold.
- `RebuildProps.ViewContents`, `RebuildProps.RebuiltViewsDisjoint`: stated for views inside the blob, since Python's slices silently truncate views that run past its end.
- `RebuildProps.AlignedWhenSourceAligned`: alignment is proved only when every original offset and length is a multiple of 4, because the code does not align in general (see `MisalignedExample`).
- For overlapping views the code copies the shared original bytes once per view (vrm_optimizer.py:72-77). `PlacementOfView`, `ViewContents`, `LaidOutInOrder`, `RebuiltViewsDisjoint` and `TrailerPreserved` still hold for them. The gap, unchanged-blob and alignment theorems need `Disjoint` and `NonEmpty`.
- `Classify.HandleImage`: reads the view table and the original blob, as the code does, since the code changes neither during the image loop. The loop body is split into its own method.
- A document with no binary chunk (`binary_blob()` returning None) is not modelled: the blob is always a byte sequence, possibly empty.
- `Search.OptimizeToTarget`: assumes the output path differs from the input path; with --inplace each attempt reloads the previous attempt's output (vrm_optimizer.py:341-342, :99, :167), so lossy edits stack despite the docstring at :246-249. The attempt parameter maps the original input to a size and cannot express that.
- `Search.OptimizeToTarget`: the output file holds the last attempt's result, not the best. The model records the best size and settings only, as the code does.
- `Search.OptimizeToTarget`: an exception inside an attempt ends the search. This is modelled as an attempt returning `None`, after which the outcome is `aborted`.
