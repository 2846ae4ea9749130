# RMINC volume bindings: path labels, batch open, dimension check

RMINC binds a volumetric imaging file library to R. The decoding of the files
belongs to that library. This model covers the three pieces of
`src/minc_cpp.cpp` that have logic of their own:

- **`path_to_filename`** derives short labels from a batch of file paths.
  This is the main part of the model (modules `Strings` and `PathLabels`).
  Each path is split on `/` with R's `strsplit`, and its empty segments are
  erased in place. Each path's last segment is its candidate label. If the
  candidates are pairwise distinct, they are the result. Otherwise the leading
  segments shared by every path are stripped, at most one fewer than the
  shortest path has. Each path's remaining segments are then joined with `_`
  by R's `paste(..., collapse = "_")`.
- **`open_minc2_volumes`** opens a batch of files. If one open fails, it closes
  every handle opened so far and re-raises (`Volumes.VolumeLibrary`).
- **`check_same_dimensions`** checks whether every volume has the first volume's
  three spatial sizes (`Volumes.CheckSameDimensions`).

The model keeps two quirks of the code as written:

- **The erase loop skips an element after each erase.** The loop at lines
  217-218 increments its index after an erase, so the segment that moved into
  the erased slot is never examined. A run of m empty segments keeps m / 2 of
  them: `EraseEmptyRun` and `EraseEmptyRunBefore` prove this. So `"a//b"`
  gives `a, b`, but `"a///b"` gives `a, "", b`.
- **`all_equal` is never reset.** Once the paths disagree at a position,
  stripping stops for good.

The trimming loop re-reads `split_res[0][0]` after each erase, so at step k it
compares the paths' segment k. The model therefore strips
`min(shortest length - 1, common prefix length)` segments
(`StripSharedPrefix`, `FallbackStripsCommonPrefix`).

Line 222 indexes `res[lengths[i] - 1]`. When a path has no segment left
(`""`, `"/"`), that index is before the start of the vector, which is
undefined behaviour. The model reports this as the error `NoSegments(i)` for
the first such path, and does not add a precondition.

`Split` is R's splitting loop for a literal separator:

- a leading separator gives a leading `""`;
- one trailing separator adds no field;
- `""` gives no fields.

`Join` is `paste` with `collapse`. The imaging library is abstract:

- a handle is a number the library hands out;
- whether a file opens is a predicate on its name;
- a volume's sizes are a given triple.

## Model

| member | source | states |
|---|---|---|
| `Strings.Split` | src/minc_cpp.cpp:215 | `strsplit` with a one-character separator gives no fields exactly when the text is empty; any other text, even a lone separator, gives at least one field |
| `Strings.SplitFieldsHaveNoSeparator` | src/minc_cpp.cpp:215 | no field of a split contains the separator |
| `Strings.SplitCons` | src/minc_cpp.cpp:215 | the separator-free text before the first separator is the first field, and splitting goes on after it |
| `Strings.JoinSplit` | src/minc_cpp.cpp:215 | joining the fields of a split with the same separator gives the text back unless it ends with the separator |
| `Strings.SplitJoin` | src/minc_cpp.cpp:252 | splitting a join gives the fields back when no field holds the separator and the last field is not empty |
| `Strings.Join` | src/minc_cpp.cpp:252 | `paste` with `collapse`: the fields in order with one separator between neighbours, so its length is the fields' total length plus one fewer separators than fields; no fields give the empty text |
| `Strings.JoinEndsWithLast` | src/minc_cpp.cpp:252 | a join of at least one field ends with its last field |
| `PathLabels.EraseEmpties` | src/minc_cpp.cpp:217-218 | the erase loop leaves nothing exactly when it starts from no segment or from a single empty one |
| `PathLabels.RemoveEmptySegments` | src/minc_cpp.cpp:217-218 | the in-place erase loop leaves exactly `EraseEmpties` of its input, skip-after-erase included |
| `PathLabels.EraseEmptiesKeepsNonEmpty` | src/minc_cpp.cpp:217-218 | the erase loop never drops a non-empty segment and keeps the non-empty segments in their order |
| `PathLabels.EraseEmptiesKeepsOnlyInput` | src/minc_cpp.cpp:217-218 | every segment left was a segment of the input |
| `PathLabels.EraseEmptyRun` | src/minc_cpp.cpp:217-218 | a run of m empty segments alone keeps m / 2 of them |
| `PathLabels.EraseEmptyRunBefore` | src/minc_cpp.cpp:217-218 | a run of m empties before a non-empty segment keeps m / 2 empties and that segment, and the loop starts afresh on the rest |
| `PathLabels.EraseEmptiesSplitsAfterNonEmpty` | src/minc_cpp.cpp:217-218 | after a non-empty segment the erase loop treats the rest independently |
| `PathLabels.IsolatedEmptyErased` | src/minc_cpp.cpp:217-218 | an empty segment with no empty neighbour is always removed |
| `PathLabels.EraseEmptiesKeepsLast` | src/minc_cpp.cpp:217-222 | a non-empty last segment is never erased and is still last, so it is the candidate label read at line 222 |
| `PathLabels.Segments` | src/minc_cpp.cpp:215-218 | a path's segments are its `/`-split fields after the erase loop; every non-empty field survives, in order |
| `PathLabels.SegmentsHaveNoSeparator` | src/minc_cpp.cpp:215-218 | no segment of a path contains `/` |
| `PathLabels.SplitPaths` | src/minc_cpp.cpp:211-223 | fails exactly when some path has no segment left, naming the first such index; otherwise records every path's segments, last segment and segment count |
| `PathLabels.Distinct` | src/minc_cpp.cpp:226 | `unique(lasts).size() == lasts.size()` holds exactly when the candidates are pairwise distinct |
| `PathLabels.DistinctByCount` | src/minc_cpp.cpp:226 | a sequence never has more values than elements, and has as many exactly when no value repeats |
| `PathLabels.MinOf` | src/minc_cpp.cpp:229 | the minimum of the lengths: an element of the lengths that is at most every length |
| `PathLabels.CommonPrefixFrom` | src/minc_cpp.cpp:230-247 | every position from the start up to the result is shared by all paths, and the result position is not |
| `PathLabels.StripSharedPrefix` | src/minc_cpp.cpp:229-248 | the trimming loop, with its never-reset `all_equal` flag, strips the same `min(bound, common prefix length)` leading segments from every path |
| `PathLabels.JoinLabels` | src/minc_cpp.cpp:250-253 | one result per path, each being that path's remaining segments joined with `_` |
| `PathLabels.LabelsOf` | src/minc_cpp.cpp:222-255 | the candidate labels when they are distinct, otherwise each path's segments after the strip count joined with `_`; there are exactly as many labels as paths |
| `PathLabels.PathToFilename` | src/minc_cpp.cpp:206-256 | fails exactly when some path has no segment left, naming the first such index; otherwise returns one label per path, equal to `LabelsOf` of the paths' segments |
| `PathLabels.DistinctLastsReturned` | src/minc_cpp.cpp:225-227 | pairwise distinct last segments are returned unchanged |
| `PathLabels.FallbackStripsCommonPrefix` | src/minc_cpp.cpp:229-253 | with a duplicate last segment, every path loses the same k ≤ shortest length − 1 leading segments; the stripped positions are shared; stripping stops at the first unshared position unless the bound stops it first; every path keeps a segment; each label is its kept segments joined with `_` |
| `PathLabels.FallbackLabel` | src/minc_cpp.cpp:229-253 | with a duplicate last segment, a path keeps at least its last segment and its label is its segments from the strip count on, joined with `_` |
| `PathLabels.LabelEndsWithLastSegment` | src/minc_cpp.cpp:222-253 | in both cases every label ends with that path's original last segment |
| `PathLabels.LabelSplitsIntoKeptSegments` | src/minc_cpp.cpp:250-253 | in the fallback case, splitting a label on `_` gives back the kept segments when none contains `_` and the last is not empty |
| `Volumes.CheckSameDimensions` | src/minc_cpp.cpp:120-153 | true exactly when every volume's three sizes equal the first volume's; stops reading sizes right after the first volume that differs |
| `Volumes.VolumeLibrary.OpenVolume` | src/minc_cpp.cpp:83-93 | a readable file gives a new handle that is now open and is recorded as that file's volume; an unreadable one gives the error naming the file and leaves the open handles and the record unchanged |
| `Volumes.VolumeLibrary.CloseVolume` | src/minc_cpp.cpp:109 | the handle is no longer open and nothing else changes |
| `Volumes.VolumeLibrary.CloseAll` | src/minc_cpp.cpp:108-110 | the rollback loop closes every handle the batch opened, leaving exactly the handles open before it; the record of which file each handle was opened on is unchanged |
| `Volumes.VolumeLibrary.OpenVolumes` | src/minc_cpp.cpp:95-118 | on success, one new distinct handle per file name in input order, all now open, with handle i recorded as opened on name i; if the open of name k fails, the names before k opened, the error is name k's, every handle opened by the call is closed again, and the open handles are as before |

## Left out

- Slab and volume reading (`read_slab_to_buffer`, `read_slab`, `read_volume`, `read_volume_to_buffer`, `cautious_get_hyperslab`): they allocate buffers and forward to the library's hyperslab read. The decoding happens in the library, which is not part of this model.
- `get_volume`: R allocation glue with no logic of its own.
- `get_volume_dimensions` and `get_step_sizes`: thin wrappers over library metadata calls. The step sizes are floating point.
- `NumberToString`: stream formatting with no logic of its own.
- `cautious_open_volume` and `open_minc2_volume`: only their effect is modelled, by `OpenVolume`, as an abstract open whose success is given by a predicate on the file name.
- `Volumes.CheckSameDimensions`: the library calls' return codes are ignored in the source. The model assumes every size query succeeds.
- `Volumes.CheckSameDimensions`: an empty list is excluded by a precondition, as the source's callers must ensure. The code reads `volumes[0]` unconditionally.
- `PathLabels.PathToFilename`: R's regex engine and the lookups of `strsplit` and `paste` in R's base environment are replaced by the plain `Split` and `Join`. Missing (`NA`) strings and text encodings are not modelled.
- `PathLabels.PathToFilename`: the undefined read at line 222 for a path with no segments is modelled as an error outcome. The source gives no defined result there.
- Integer widths: sizes are `misize_t` and lengths are stored as doubles. Both are modelled as unbounded naturals, because no realistic path or volume comes near their limits.
- Handles are modelled as numbers from a counter, so a new handle is never one already open. The real library returns opaque pointers.
- `Volumes.VolumeLibrary.OpenVolumes`: whether a file opens is one predicate on its name, so two opens of the same name always agree. The real library does not promise this: a file can change or vanish between attempts.
