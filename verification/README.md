# SeisWiz core in Dafny

A model of the numerical core of SeisWiz, a small seismic viewer and
processing toolkit. The model covers:

- **Slicer view helpers** (`scripts/utils/visualization.py`):
  - the stitched inline/crossline section image;
  - the depth slice;
  - the binary threshold;
  - the projection of horizon picks onto the section image (`extract_section_picks`). The draft copy of that function in `scripts/temp.py` is modelled too.
- **SEG-Y loader** (`scripts/loading/load_segy.py`): over an abstract file given as its sequence of trace records (inline, crossline, samples), the model covers:
  - sampling of trace headers with a step;
  - `np.sort(np.unique(...))`;
  - the cube assembly in `create_cube_from_segy`, which fails on the first trace whose line number is missing;
  - the two-pass fallback of `segy2npy`.
- **Structure-oriented interpolation** (`scripts/processing/soint3d.py`): the part of `soint3d` that builds the solver call and reshapes its result.
- **Structure-oriented median filter** (`scripts/processing/somf3d.py`):
  - in `somf3d`, the ensemble and window sizes, the per-slice filtering loop and the choice of the centre offset;
  - in `somf3dc`, the 2-D/3-D handling and the column-major transfer around the compiled kernel.

Modules:

| file | module | what it holds |
|---|---|---|
| results.dfy | `Results` | `Option`, `Result` |
| sequences.dfy | `Sequences` | order predicates, `min`/`max` |
| sorting.dfy | `Sorting` | sort by key (`np.argsort`, `np.sort`), `np.sort(np.unique(a))` |
| volumes.dfy | `Volumes` | matrices/cubes, `np.zeros`, column-major (`order='F'`) flatten and reshape |
| binning.dfy | `Binning` | `np.digitize` for ascending bins |
| section_view.dfy | `SectionView` | `plot_section_slices`, `plot_depth_slice`, `threshold` |
| section_picks.dfy | `SectionPicks` | `extract_section_picks` (both copies) and a corrected version |
| segy_loading.dfy | `SegyLoading` | header readers, `create_cube_from_segy`, `segy2npy` |
| structure_interp.dfy | `StructureInterp` | `soint3d` |
| structure_median.dfy | `StructureMedian` | `somf3d`, `somf3dc` |

How the Python maps to the model:

- Arrays are sequences: a volume `a[i][j][k]` is a `Cube`, a 2-D slice is a `Matrix`.
- Amplitudes are `real`.
- Line numbers and picks are `int`. The pick arrays are cast to `int` where they are saved.
- A Python exception is an `Err` value.
- Code outside this repository becomes a function parameter. This covers:
  - the conjugate-gradient solver;
  - `mf`, `svmf` and `csomf3d`;
  - for `pwspray3d`, its output array is an input instead.

## Model

| member | source | states |
|---|---|---|
| Binning.Digitize | scripts/utils/visualization.py:59-60 | `np.digitize(x, bins)` on ascending bins equals the number of bins `<= x`. That count is the reference definition `CountAtMost`. All bins before the result are `<= x` and all after it are `> x`. |
| Binning.DigitizeInRange | scripts/utils/visualization.py:59-60 | For `bins[0] <= x <= bins[-1]` the bin number lies in `1..len(bins)`, and `bins[d-1] <= x`. Bin numbers are 1-based. |
| Binning.DigitizeExactHit | scripts/utils/visualization.py:59-60 | For strictly ascending bins, hitting `bins[k]` exactly gives bin number `k+1`. |
| SectionView.SectionSlices | scripts/utils/visualization.py:7-15 | The result is an `n3 x (n1+n2)` image. Column `c < y_pos` is trace `(x_pos, c)`. Columns `y_pos .. y_pos+n1-x_pos-1` are traces `(x_pos+c-y_pos, y_pos)`. All remaining columns are zero. |
| SectionView.ColumnTraceRoundTrip | scripts/utils/visualization.py:12-14 | Which trace a column shows, and in which column a trace is shown, are inverse to each other (both directions). |
| SectionView.SectionShowsTrace | scripts/utils/visualization.py:12-14 | Each shown trace appears, sample by sample, in its column of the image. |
| SectionView.DepthSlice | scripts/utils/visualization.py:18-20 | `array[:,:,z]` is `n1 x n2`, and entry `(i,j)` is `array[i][j][z]`. |
| SectionView.DepthSliceMeetsSection | scripts/utils/visualization.py:7-20 | Row `z` of the section image and the depth slice at `z` agree on every shown trace. |
| SectionView.Threshold | scripts/utils/visualization.py:166-171 | The shape is kept. An entry becomes `min` iff it is `<= thresh`, otherwise it becomes `max`. |
| SectionView.ThresholdIdempotent | scripts/utils/visualization.py:166-171 | Applying the threshold twice is the same as applying it once, when `min <= thresh < max`. |
| SectionView.ThresholdSeparates | scripts/utils/visualization.py:166-171 | With `min != max`, the output tells exactly which entries were `<= thresh` (both directions). |
| SectionPicks.Retained | scripts/utils/visualization.py:49-56 | A pick is kept iff its inline and crossline lie within the survey's `[min, max]` and its time/depth is below the largest sample. There are never more kept picks than picks. |
| SectionPicks.RetainedCounts | scripts/utils/visualization.py:49-56 | Each pick that passes the filter is kept exactly as often as it occurs among the picks, and every other pick is dropped. |
| SectionPicks.KeptPositionsAscend | scripts/utils/visualization.py:49-53 | The mask's true positions ascend, and a position is among them iff its pick passes the geometry filter. |
| SectionPicks.RetainedInOrder | scripts/utils/visualization.py:53-56 | The kept picks are the picks read at the mask's true positions, in ascending position order. Boolean indexing selects; it does not reorder. |
| SectionPicks.SurvivorBins | scripts/utils/visualization.py:49-60 | A kept pick digitizes to inline bin `1..len(ilines)` and crossline bin `1..len(xlines)`. |
| SectionPicks.InlineBranch | scripts/utils/visualization.py:67-75 | A pair is in the inline loop's output iff it is the pair `(xl_bin, z)` of some binned pick with inline bin equal to the current inline and crossline bin below the current crossline. Every x is below the current crossline. How many times each pair occurs is stated by `InlineCounts`. |
| SectionPicks.CrosslineBranch | scripts/utils/visualization.py:78-86 | A pair is in the crossline loop's output iff it is the pair of a binned pick on the current crossline whose inline bin lies beyond the current inline. In the viewer copy x is `il_bin - cur_in + cur_xl`, which is always `> cur_xl`. In the draft copy x is `il_bin + cur_xl`. How many times each pair occurs is stated by `CrossCounts`. |
| SectionPicks.InlineCounts | scripts/utils/visualization.py:67-75 | The inline loop appends one pair per qualifying pick: a pair `(x, z)` with `x` below the current crossline occurs as often as the binned pick `(cur_in, x, z)` occurs, and no other pair occurs. `InlineSourceUnique` shows that binned pick is the only one drawn as that pair. |
| SectionPicks.CrossCounts | scripts/utils/visualization.py:78-86 | The crossline loop appends one pair per qualifying pick: a pair occurs as often as the one binned pick on the current crossline whose x formula gives it, provided that pick's inline bin lies beyond the current inline; otherwise it does not occur. `CrossSourceUnique` shows that binned pick is the only one drawn as that pair. |
| SectionPicks.ExtractSectionPicks | scripts/utils/visualization.py:49-97 | Fails iff an axis is empty, because `.min()` on an empty array raises. Otherwise: both arrays have equal length, no more than the number of picks; x is sorted; the pairs are a permutation of what the two loops collected; in the viewer copy no x equals the current crossline. |
| SectionPicks.DraftShiftsCrossline | scripts/temp.py:62-70 | The draft copy's crossline loop draws the same picks in the same order as the viewer's, each with x larger by the current inline number `current_inline_num`, the frame passed in. The rest of the draft is the viewer's code, covered by `ExtractSectionPicks` with `Variant.Draft`. |
| SectionPicks.AtMostOnePerPick | scripts/utils/visualization.py:67-86 | A binned pick feeds at most one of the two loops, so the output has at most one pair per pick. |
| SectionPicks.CornerPickDropped | scripts/utils/visualization.py:67-86 | A pick binned onto both the current inline and the current crossline is drawn by neither loop. Inserting such a pick anywhere among the binned picks leaves both loops' output unchanged. |
| SectionPicks.DrawnPairsComeFromPicks | scripts/utils/visualization.py:49-97 | Every returned pair is some kept pick, drawn as the inline or crossline loop draws it. |
| SectionPicks.PicksAreDrawn | scripts/utils/visualization.py:49-97 | Every kept pick that a loop draws appears among the returned pairs. |
| SectionPicks.ShownPointsMembership | scripts/utils/visualization.py:67-86 | In the corrected projection, the points are exactly the column placements of the kept picks whose trace is shown. |
| SectionPicks.CorrectedSectionPicks | scripts/utils/visualization.py:49-97 | The corrected projection, which the source does not contain. It fails iff an axis is empty, because `.min()` raises. Otherwise the arrays have equal length, no more pairs than picks, and x is sorted. Where the pairs land is stated by `CorrectedPicksLandOnTheirTraces`. |
| SectionPicks.CorrectedPicksLandOnTheirTraces | scripts/utils/visualization.py:67-83 | Corrected projection: a pair `(x, z)` is returned iff some kept pick at time/depth `z` sits on the trace that column `x` of the section image shows. |
| SectionPicks.FrameBinMismatch | scripts/utils/visualization.py:67-83 | As written, on a two-inline survey with the slicer at inline frame 0, the pick on trace (0, 0), which column 0 shows, is not drawn. At frame 1 the same pick is drawn in column 1, which shows trace (1, 1). |
| SectionPicks.CornerMismatch | scripts/utils/visualization.py:71-83 | Take the example pick, which lies on trace (0, 0), with the slicer at frames (0, 0). Column 0 shows that trace. Yet the code as written with both frames raised by one, which selects the same picks as the code with bins minus one, draws nothing. The corrected projection draws the pick in column 0. |
| SectionPicks.CorrectedExample | scripts/utils/visualization.py:67-83 | The corrected projection draws that pick in column 0 at frame 0. |
| Sorting.SortBy | scripts/utils/visualization.py:93-95 | The pairs are reordered by x: the result is sorted by the key and is a permutation of the input. The same function models `np.sort(segy_file.samples)` in `segy2npy`. |
| Sorting.SortedUnique | scripts/loading/load_segy.py:57 | `np.sort(np.unique(a))` is strictly ascending, holds exactly the values of `a`, and is no longer than `a`. |
| Sorting.StrictlyIncreasingUnique | scripts/loading/load_segy.py:57 | Two strictly ascending sequences with the same values are equal. The sorted unique list is therefore determined by its value set. |
| Sorting.SortedUniqueIdempotent | scripts/loading/load_segy.py:57 | Applying sort-unique to its own output changes nothing. |
| SegyLoading.SampledIndices | scripts/loading/load_segy.py:10 | `range(0, tracecount, skip)`. A negative step gives no indices. With a positive step, position `k` holds `k*skip`, which is below the trace count, and the range runs until `k*skip` reaches the count. |
| SegyLoading.SampledIndicesAreMultiples | scripts/loading/load_segy.py:10 | `range(0, tracecount, skip)` is `k*skip` at position `k`. An index is sampled iff it is a multiple of `skip` below the trace count (both directions). |
| SegyLoading.EveryIndexAtStepOne | scripts/loading/load_segy.py:75-79 | With step 1 every trace index is read, in order. |
| SegyLoading.HeaderInlines | scripts/loading/load_segy.py:13-15 | One inline per sampled trace, in sampling order. |
| SegyLoading.HeaderXlines | scripts/loading/load_segy.py:8-10 | One crossline per sampled trace, in sampling order. |
| SegyLoading.UniqueLinesFromHeaders | scripts/loading/load_segy.py:56-61 | The unique lists hold exactly the line numbers of the traces whose index is a multiple of `skip`, strictly ascending. |
| SegyLoading.Locate | scripts/loading/load_segy.py:28 | `np.where(s == v)[0].item()` succeeds iff `v` occurs exactly once, and returns that position. |
| SegyLoading.LocateInUniqueList | scripts/loading/load_segy.py:28-32 | On a sorted unique list, the lookup fails iff the value is absent. |
| SegyLoading.LatestTraceWins | scripts/loading/load_segy.py:34 | When several traces share an inline and a crossline, the cell holds the samples of the last one. |
| SegyLoading.UnwrittenCellKeepsDefault | scripts/loading/load_segy.py:22 | A cell that no trace maps to keeps the zeros of `np.zeros`. |
| SegyLoading.PlaceStep | scripts/loading/load_segy.py:34 | Writing trace `i` at its located cell extends the invariant "every cell holds its last write" by one trace. |
| SegyLoading.PlaceTrace | scripts/loading/load_segy.py:26-34 | One loop iteration. The crossline is looked up first, then the inline. A failed lookup raises the error for trace `i`, and that is the first failure. Otherwise the loop invariant advances by one trace. |
| SegyLoading.CreateCube | scripts/loading/load_segy.py:17-36 | Succeeds iff every trace's inline and crossline can be found. On failure the error names the first failing trace and which lookup failed. On success the cube is `len(ilines) x len(xlines) x ns`, and every cell holds the samples of the last trace with that inline and crossline, or zeros. |
| SegyLoading.FullScanLocatesAll | scripts/loading/load_segy.py:74-83 | Unique lists built from every header locate every trace, so the second pass cannot fail. |
| SegyLoading.PlacedLinesAreAllLines | scripts/loading/load_segy.py:55-68 | When the every-20th pass places every trace, its unique lists already hold every line number in the file. |
| SegyLoading.Segy2Npy | scripts/loading/load_segy.py:39-86 | The outputs: strictly ascending inline and crossline lists holding exactly the line numbers in the file; samples sorted and a permutation of the file's; a cube of matching shape with last-write cell contents. The every-20th lists are kept iff they locate every trace; otherwise the full-scan lists are used. |
| Volumes.FlattenF | scripts/processing/soint3d.py:34 | `flatten(order='F')` puts entry `(i,j,k)` at `i + n1*(j + n2*k)`. |
| Volumes.ReshapeF | scripts/processing/soint3d.py:60 | `reshape(n1,n2,n3, order='F')` reads entry `(i,j,k)` from `i + n1*(j + n2*k)`. |
| Volumes.ReshapeOfFlatten | scripts/processing/soint3d.py:34-60 | Reshaping a column-major flatten gives back the cube. |
| Volumes.FlattenOfReshape | scripts/processing/soint3d.py:34-60 | Flattening a column-major reshape gives back the vector. |
| Volumes.FDecompose | scripts/processing/soint3d.py:31-34 | Every flat position below `n1*n2*n3` is the column-major position of the indices recovered from it. |
| Volumes.FIdxInjective | scripts/processing/soint3d.py:31-34 | Distinct index triples have distinct column-major positions. |
| StructureInterp.KnownFromMask | scripts/processing/soint3d.py:37-41 | `known` is 1 exactly where the flattened mask is non-zero, and 0 elsewhere. |
| StructureInterp.Soint3dSetup | scripts/processing/soint3d.py:26-58 | Without a mask and with data present the function fails, because `dd` is assigned before it exists. Otherwise the solver gets: model size `n123`; data size `2*n123`; zero data; the starting model equal to the column-major flatten of `din`; `known` equal to 1.0 at non-zero mask entries and 0.0 elsewhere (all zeros without a mask); `niter` unchanged; `verb` 1; and two all-pass operators that differ only in `nj` and slope field. |
| StructureInterp.Soint3d | scripts/processing/soint3d.py:58-62 | The result is the solver's model vector reshaped column-major to the input's shape. It fails when the setup fails or the vector has the wrong size. |
| StructureInterp.KnownSamplesKept | scripts/processing/soint3d.py:37-62 | Suppose the solver keeps every model entry marked known. Then the output equals the input at every non-zero mask position. |
| StructureInterp.UnchangedModelRoundTrips | scripts/processing/soint3d.py:33-60 | A solver that returns its starting model makes `soint3d` return its input. |
| StructureMedian.SprayEnsembleSize | scripts/processing/somf3d.py:30 | `nnp = (2*r1+1)*(2*r2+1)` is odd and at least 1. |
| StructureMedian.MedianWindowLength | scripts/processing/somf3d.py:41 | `ns2 = 2*r1*r2+1` is odd and never longer than the ensemble. |
| StructureMedian.CenterIsZeroOffset | scripts/processing/somf3d.py:49 | `int(nnp/2)` equals `(nnp-1)/2`, which is the position of spray offset `(0, 0)`, and lies inside the ensemble. |
| StructureMedian.FilterSlice | scripts/processing/somf3d.py:44-47 | One slice is filtered with `mf` when `option == 1` and with the first result of `svmf` otherwise, both with window `ns2`. A filter that keeps a slice's shape gives a result of the slice's shape. |
| StructureMedian.FilterSlices | scripts/processing/somf3d.py:42-47 | After the double loop, every slice `u[:,:,i2,i3]` has been replaced by its filtered version. `option == 1` uses `mf`; any other value uses the first result of `svmf`. |
| StructureMedian.Somf3d | scripts/processing/somf3d.py:37-51 | The result is `n1 x n2 x n3`. Entry `(i1,i2,i3)` is entry `i1` of the zero-offset column of the filtered slice `(i2,i3)`. |
| StructureMedian.IdentityFilterKeepsInput | scripts/processing/somf3d.py:37-51 | Suppose the spray reproduces the input at offset `(0, 0)` and the filter changes nothing. Then `somf3d` returns its input. |
| StructureMedian.PlaneFlattensColumnMajor | scripts/processing/somf3d.py:83-89 | A 2-D input is treated as `n3 = 1`, and entry `(i, j)` lands at `i + n1*j`. |
| StructureMedian.Somf3dcCall | scripts/processing/somf3d.py:89-94 | The compiled kernel receives the column-major flattens of the data and of both slope fields, entry by entry. It also receives the sizes, `rmf = 2*r1*r2+1`, and `r1`, `r2`, `option`, `order`, `eps`, `verb` unchanged. |
| StructureMedian.Somf3dc | scripts/processing/somf3d.py:81-97 | The kernel's output is reshaped column-major to `[n1, n2, n3]`, with `n3 = 1` for a 2-D input. A wrongly sized output is an error. |
| StructureMedian.Somf3dcRoundTrip | scripts/processing/somf3d.py:83-97 | A kernel that returns its data unchanged makes `somf3dc` return the input as a volume. |

## Left out

- Plotting, sliders, colour maps, file listing and `rescale` are not modelled. They are GUI or floating-point presentation, with nothing to state beyond the arrays they display.
- The SEG-Y file itself is not modelled: segyio, headers as byte fields, and `print`. The file is its sequence of trace records.
- The conjugate-gradient `solver`, `cgstep`, `allpass3_lop`, `pwspray3d`, `mf`, `svmf`, `csomf3d` and `soint3dc` are not modelled. They are numerical kernels or compiled code in other modules, so they enter only as parameters or inputs.
- Floating point is not modelled. Amplitudes are exact reals, so the `np.float32` casts in `somf3dc` are identities here.
- Python's negative indices are not modelled. `SectionView.SectionSlices` and `SectionView.DepthSlice` require in-range positions, which is what the slicer's sliders produce (`0..n-1`).
- Binning.Digitize: only ascending bins are modelled. numpy also accepts descending bins, but every caller passes a sorted array.
- Sorting.SortBy: does not fix the order of equal keys. `np.argsort` is not stable, so the contract promises only sortedness and permutation.
- SegyLoading.CreateCube: assumes every trace has as many samples as `samples`. numpy would raise on a shape mismatch in the assignment.
- SegyLoading.SampledIndices: `range` with step 0 raises `ValueError`. The callers only pass 20 and 1, so a zero step is excluded by the precondition.
- StructureInterp.KnownSamplesKept: holds only relative to an assumed solver contract, that known entries come back unchanged. The solver is not part of this model.
- StructureMedian.FilterSlice: `mf(u, ns2, 1, 2)` and `svmf(u, ns2, 1, 2)` are modelled as parameters of the slice and the window length. The constant arguments `1, 2` are folded into the parameter.
- StructureMedian.Somf3d: the spray output `u` is an input, required to have the shape `(n1, nnp, n2, n3)`. The filters are required to keep a slice's shape.

## Findings

| source | as written | input that shows it | evidently intended | confidence | as-written member | corrected member |
|---|---|---|---|---|---|---|
| scripts/utils/visualization.py:67,78 (called from scripts/seismic_slicer.py:242-244 with the 0-based slider frames) | The 1-based `np.digitize` bin numbers are compared with, and offset by, the slicer's 0-based frame indices. Picks of inline `f-1` are drawn on the section of inline `f`. | Inlines `[10, 20]`, crosslines `[5, 6, 7]`, one pick at inline 10, crossline 5, depth 1. At inline frame 0 and crossline frame 2, column 0 shows trace (0, 0), but the result is empty. At frame 1 the pick is drawn in column 1, which shows trace (1, 1). | Subtract 1 from the bin numbers before comparing, so each pick is drawn in the column of the image that shows its own trace. The corrected definition also fixes the next row's defect. | medium; not executed | SectionPicks.FrameBinMismatch | SectionPicks.CorrectedPicksLandOnTheirTraces |
| scripts/utils/visualization.py:71,82 | Both loops compare strictly: `x_pick < current_xline_num` on the inline and `x_pick > current_inline_num` on the crossline. The trace at the current inline and crossline is shown in column `y_pos` of the section image, yet a pick on it is drawn by neither loop, even once the bins are shifted to 0-based. | Same survey and pick, with frames (0, 0). Column 0 shows trace (0, 0), but the code with bins minus one gives no pair. | Make the crossline comparison non-strict, so the corner pick is drawn in column `y_pos`, where the crossline formula already places it. | low; not executed | SectionPicks.CornerMismatch | SectionPicks.CorrectedPicksLandOnTheirTraces |
