# SUPPORT patch stitching and temporal boundary extension, in Dafny

This project models the reconstruction step of SUPPORT's directory
denoising driver, `src/test_directory.py`. The network sees small 3-D patches
of a time-stack of frames. `validate` puts the results back together: it
allocates a zero-filled output volume of the input's shape. For every batch
item it copies one rectangle of the denoised centre frame into that volume.
The placement record names the rectangle in patch coordinates (`patch_*`) and
in volume coordinates (`stack_*`). The destination frame is
`init_s + T // 2`, where `T` is the patch length along time.

The driver can also extend the stack along time before stitching
(`include_first_and_last` = "repeat" or "mirror"). It then trims the added
frames off the stitched output with `[k : -1 * k]`, where
`k = patch_size[0] // 2`.

Two modules:

- `Stitching` (stitching.dfy). The placement record, batch item, batch and
  write are datatypes. The output buffer is the class `Stitcher`, which holds
  an `array3<int>` indexed (frame, row, column). It has a zero-filling
  constructor, `StitchOne` (one item, a double loop over the rectangle) and
  `StitchBatch` (the loop over `bi`). `Validate` allocates the buffer and
  loops over the batches. The new state is specified per voxel by
  `Stitched`: the writes performed in order, as a left fold. Lemmas about
  `Stitched` give the properties: untouched voxels, last writer wins,
  order independence under disjoint destinations, and boundary frames that
  stay zero.
- `Temporal` (temporal.dfy). The "repeat" and "mirror" extensions, the trim,
  and Python's slice semantics are pure sequence functions over opaque
  frames. Lemmas give their lengths, their contents and the round trips.

Where the comments and the code disagree, the model follows the code:

- The comments at lines 26 and 52 speak of a NaN-filled buffer. Line 27
  uses `np.zeros`, so the constructor fills the buffer with 0.
- The writes are performed in order, so a later write to a voxel overwrites
  an earlier one (`LastWriterWins`). The order of the writes is guaranteed
  irrelevant when the destination rectangles are disjoint (`OrderIndependent`).
  This file does not establish that disjointness. It is a hypothesis of
  those lemmas.

## Model

| member | source | states |
|---|---|---|
| `Stitching.Stitcher.constructor` | src/test_directory.py:27 | The buffer is fresh, has the given (frames, rows, columns) shape, and every voxel is 0. |
| `Stitching.Stitcher.StitchOne` | src/test_directory.py:37-50 | Each covered voxel `(init_s + T//2, sh + i, sw + j)` takes `patch[ph + i][pw + j]`. Every other voxel keeps its old value. Requires equal extents and all indices in range. |
| `Stitching.Stitcher.StitchBatch` | src/test_directory.py:35-50 | After one batch, each voxel equals the in-order fold of that batch's writes over its old value. Each write uses the batch's temporal length `T`. |
| `Stitching.Validate` | src/test_directory.py:27-50 | Returns a fresh volume of the input's shape. Each voxel is the in-order fold of all writes of all batches, starting from 0. |
| `Stitching.StitchedAppend` | src/test_directory.py:32-50 | Stitching one batch after another equals stitching the concatenation of their writes. |
| `Stitching.StitchedUntouched` | src/test_directory.py:49-50 | A voxel that no write covers keeps its initial value. |
| `Stitching.LastWriterWins` | src/test_directory.py:32-50 | A voxel covered by write `k` and by no later write holds write `k`'s patch value at the mapped offset. |
| `Stitching.DisjointStitched` | src/test_directory.py:49-50 | With pairwise disjoint destinations, a covered voxel holds the value of its one covering write, and an uncovered voxel keeps its value. |
| `Stitching.OrderIndependent` | src/test_directory.py:32-50 | If the writes' destinations are pairwise disjoint, every permutation of them (same multiset) stitches the same value at every voxel. |
| `Stitching.CoveredFromSomeWrite` | src/test_directory.py:49-50 | A voxel that some write covers ends up holding the mapped patch value of one of its covering writes. |
| `Stitching.BoundaryFramesUntouched` | src/test_directory.py:47-50 | Assume every patch window lies in the volume and has length `T`. Then frames below `T//2` and above `frames - T + T//2` are never written and stay 0. |
| `Stitching.FlattenFits` | src/test_directory.py:32-36 | If each batch's records fit the volume, so does every write of the whole loop. |
| `Temporal.RepeatExtend` | src/test_directory.py:93-97 | The result has length `T + 2k`. Its first `k` frames are frame 0, then comes the stack, then `k` copies of the last frame. |
| `Temporal.MirrorExtend` | src/test_directory.py:100-104 | The result has length `T + 2·pad`, where `pad = min(k, T-1)` (0 for an empty stack). The stack sits unchanged at offset `pad`. |
| `Temporal.MirrorShape` | src/test_directory.py:100-104 | For `T > k` the result has length `T + 2k`. The prefix is frames `k, k-1, …, 1`. The suffix is frames `T-2, …, T-k-1`. |
| `Temporal.MirrorSlices` | src/test_directory.py:100-104 | For `T > k` the slices `[1 : k+1]` and `[-k-1 : -1]` are not clamped. The extension is then frames `1..k` reversed, the stack, and frames `T-k-1..T-2` reversed. |
| `Temporal.TrimAsWrittenEmptiesAtZero` | src/test_directory.py:111-112 | With `k = 0`, both extensions leave the stack unchanged, but `[0 : -1*0]` returns no frames. |
| `Temporal.TrimAsWritten` | src/test_directory.py:112 | `out[k : -1*k]` under Python's slice rules. For `k >= 1` and `2k <= len` it keeps `len - 2k` frames, and frame `i` is `out[k + i]`. For `k = 0` it keeps nothing. If `len < 2k` it keeps nothing. |
| `Temporal.Trim` | src/test_directory.py:112 | The intended trim `out[k : len - k]`. For every `k` with `2k <= len` it keeps `len - 2k` frames, and frame `i` is `out[k + i]`. Otherwise it keeps nothing. |
| `Temporal.TrimAgrees` | src/test_directory.py:112 | For `k >= 1`, the trim as written equals the intended trim `[k : len - k]`. |
| `Temporal.RepeatRoundTrip` | src/test_directory.py:91-112 | Trimming the "repeat" extension of a non-empty stack gives back the stack. |
| `Temporal.MirrorRoundTrip` | src/test_directory.py:98-112 | Trimming the "mirror" extension of a stack longer than `k` gives back the stack. |
| `Temporal.RepeatRoundTripAsWritten` | src/test_directory.py:91-112 | For `k >= 1`, the trim as written gives back the stack after the "repeat" extension. |
| `Temporal.MirrorRoundTripAsWritten` | src/test_directory.py:98-112 | For `1 <= k < T`, the trim as written gives back the stack after the "mirror" extension. |
| `Temporal.MirrorShortStackLosesFrames` | src/test_directory.py:98-112 | If the stack has `0 < T <= k` frames, the mirror pads are clamped, and the trim returns fewer than `T` frames. |
| `Temporal.Extend` | src/test_directory.py:91-104 | "none" returns the stack. "repeat" fails exactly on an empty stack (frame 0 does not exist). Otherwise it adds `k` frames at each end. "mirror" adds `min(k, T-1)` frames at each end. |
| `Temporal.Restore` | src/test_directory.py:111-112 | Without extension the output is returned unchanged. With "repeat" or "mirror" it keeps the frames `k .. len - k`. It uses the stop bound `len - k`, and equals the trim as written whenever `k >= 1`. It differs from the source only at `k = 0` (see Findings). |
| `Temporal.RestoreAligned` | src/test_directory.py:111-112 | A stitched output of the extended length is trimmed to the original frame count. Its frame `i` is output frame `i + k`, or `i` without extension. |
| `Temporal.RestoreExtend` | src/test_directory.py:91-112 | Extension then trim is the identity. For "mirror" this needs `T > k`. |

## Findings

| source | as written | input that shows it | evidently intended | confidence | as-written member | corrected member |
|---|---|---|---|---|---|---|
| src/test_directory.py:112 | `denoised_stack[k : -1 * k]` with `k = patch_size[0] // 2` | `patch_size[0] = 1` (so `k = 0`) with "repeat" or "mirror", on any non-empty stack. The stop bound `-0` is `0`, and the slice `[0:0]` is empty. | `[k : len - k]`, which returns the whole stack when `k = 0` | low (needs a one-frame patch); not executed | `Temporal.TrimAsWritten` | `Temporal.Trim` |

`Temporal.TrimAsWritten` is the trim as written.
`Temporal.TrimAsWrittenEmptiesAtZero` exhibits the empty result at `k = 0`.
`Temporal.Trim` is the corrected trim, and `Temporal.Restore` uses it.
`Temporal.RestoreExtend` proves that extension then restoration is the
identity for every `k` under "repeat" (non-empty stack) and for every `k < T`
under "mirror". Under "mirror" with `T <= k` the source itself loses frames
(`Temporal.MirrorShortStackLosesFrames`). `Temporal.TrimAgrees` proves that
the two trims agree for every `k >= 1`. So the correction changes only the
one-frame-patch case.

## Left out

- The network: model construction, weight loading, `.cuda()`/`.cpu()`,
  `torch.no_grad`, `model.eval()` and the forward pass (lines 24-25, 33-34,
  84-87). They are a foreign call. Each item's denoised output is an input
  to the model.
- `squeeze()` (line 50). The denoised output of an item is given directly as
  its 2-D centre frame, a `seq<seq<int>>` of rows.
- Denormalisation `x * std + mean` (line 53). It is floating-point
  arithmetic with broadcasting. `Validate` returns the stitched volume
  before that step.
- Voxel values are `int`, not `float32`. Values are only copied, never
  computed on.
- Directory walking, `.tif` reading and writing, directory creation and the
  `print` warnings (lines 65-75, 90, 92, 99, 114-115). These are I/O.
- The hard-coded configuration in `__main__` (lines 61-81). Patch length
  and mode are parameters.
- The DataLoader, batch size and `tqdm` (lines 32, 108). Batches are an
  input sequence.
- `DatasetSUPPORT_test_stitch`, called at src/test_directory.py:106-107,
  is not part of this model. Placement records are inputs. Its no-gap/no-overlap
  tiling is not proved. Disjoint destinations are a hypothesis of
  `DisjointStitched` and `OrderIndependent`. Patch windows inside the
  volume are a hypothesis of `BoundaryFramesUntouched`.
- numpy's wrap-around of negative indices and its silent clamping of
  out-of-range slices, in both the source and the destination slice (line
  49-50). `StitchOne`, `StitchBatch` and `Validate` require every index in
  range and equal extents. numpy raises on an extent mismatch, unless the
  source extent is 1, where it broadcasts that one row or column over the
  destination. The model leaves out that broadcast.
- Stitching.Stitcher.StitchOne: requires equal source and destination
  extents. So it does not model numpy broadcasting a one-row or one-column
  source rectangle over a taller or wider destination (lines 49-50).
- Spatial frame contents in the temporal extension. Frames are opaque, and
  only the concatenation along time (dimension 0) is modelled.
- The step from the stitched `array3` to the sequence of frames that is
  trimmed. `Restore` works on a sequence of frames of any type.
