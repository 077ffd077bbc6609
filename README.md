# Masking helpers and power-spectrum selection, modelled in Dafny

This project models two pieces of a HERA data-analysis repository.

- **`cal_utils.py`**: the two helpers the calibration notebooks use on a
  dictionary of 2-D visibility arrays keyed by `(ant_i, ant_j, pol)`.
  - `ex_badants` rebinds every entry whose key touches a bad antenna to a
    new all-zero array of the same shape.
  - `apply_mask` overwrites, in place, the band-edge columns and the
    flagged samples of every array with a sentinel value.
- **`ps_comp.py`**: the decisions `pspec_calc` takes around its library calls.
  - It scales the visibilities in place by a per-channel Jy-to-mK factor.
  - It splits the sorted distinct times into two interleaved halves.
  - It tests whether the redundant groups are already collapsed.
  - It chooses a group and builds the baseline pairs.
  - It returns the sorted distinct baseline pairs the estimator reports.

Modules:

- `Wrappers`: `Option` and `Result`.
- `PySlice`: Python's slice-bound rules and the stride-2 slice.
- `CalUtils`: the dictionary is the class `VisDict`, whose field `entries`
  maps keys to `array2` objects. `ExBadants` and `ApplyMask` are methods
  with loops over the key set. Each is proved against a value-level
  function (`ZeroedBadAnts`, `Masked`), and the properties are proved
  about those functions.
- `PsComp`: the in-place scaling is a method over an `array4`. The rest is
  functions with lemmas. `PspecCalc` ties them together.

The visibility element type of `cal_utils.py` is abstract. Its cells are
`Zero`, `Sentinel` or `Sample(id)`, so no complex arithmetic is modelled.
The model follows the code, not the comments:

- The comment at `ps_comp.py:67-70` speaks of selecting a group. The code
  takes `baseline_groups[0]` only when the grouping is already collapsed,
  and `baseline_groups[1]` otherwise. A single redundant group of two or
  more baselines therefore raises `IndexError`; `SingleGroupFails`
  states this.
- `apply_mask` with `edge_cut == 0` masks every sample, because
  Python reads `[:, -0:]` as the whole row; `MaskedZeroEdgeCut` states it.
- numpy's refusal of an in-place broadcast (a `ValueError`) is the
  `ShapeMismatch` error. Indexing a missing group or baseline is the
  `IndexError` error.

## Model

| member | source | states |
|---|---|---|
| CalUtils.VisDict | cal_utils.py:9-25 | the dictionary both helpers mutate: keys mapped to 2-D array objects, with `View` giving the values they hold and `Unaliased` saying no two keys share an array |
| CalUtils.GridExt | cal_utils.py:9-25 | two well-shaped grids of one shape with equal cells are equal, which the whole-dictionary equalities rest on |
| CalUtils.Touches | cal_utils.py:12 | a key is zeroed when its first or its second antenna is bad; the polarisation plays no part |
| CalUtils.ZerosLike | cal_utils.py:13 | `np.zeros_like`: zeros of the old shape |
| CalUtils.InEdge | cal_utils.py:21-22 | column `c` lies in `[:edge_cut]` or `[-edge_cut:]` under Python's slice rules, for any integer cut |
| CalUtils.ExBadants | cal_utils.py:9-14 | returns the same dictionary with the same keys; its value afterwards is `ZeroedBadAnts` of its value before; untouched keys keep their very array object, touched keys get a fresh array, and a dictionary whose keys shared no array still shares none |
| CalUtils.ZeroedBadAnts | cal_utils.py:11-13 | same keys; a key with `i` or `j` among the bad antennas maps to zeros of the old shape; any other key keeps its old value, whatever its polarisation |
| CalUtils.ZeroedBadAntsUnique | cal_utils.py:11-13 | any dictionary with those three properties is exactly the one `ex_badants` produces |
| CalUtils.ZeroedBadAntsIdempotent | cal_utils.py:9-14 | zeroing the bad baselines twice is zeroing them once |
| CalUtils.ZeroEntry | cal_utils.py:13 | the key is rebound to a fresh all-zero array of the old shape; every other key keeps its array |
| CalUtils.InEdgePositive | cal_utils.py:21-22 | for a positive cut, column `c` is in `[:edge_cut]` or `[-edge_cut:]` exactly when `c < edge_cut` or `c >= ncols - edge_cut` |
| CalUtils.InEdgeZero | cal_utils.py:22 | with a cut of zero every column lies in `[-0:]` |
| CalUtils.MaskGrid | cal_utils.py:21-24 | a masked array keeps the shape of the original |
| CalUtils.Masked | cal_utils.py:20-24 | `apply_mask` keeps the key set and the shape of every array |
| CalUtils.MaskedUnique | cal_utils.py:20-24 | any dictionary holding, at every key, that key's array masked is the one `apply_mask` produces |
| CalUtils.MaskedEdges | cal_utils.py:21-22 | with a positive cut, the first and last `edge_cut` columns of every row of every array become the sentinel |
| CalUtils.MaskedFlags | cal_utils.py:23-24 | every cell whose flag is set becomes the sentinel |
| CalUtils.MaskedKeeps | cal_utils.py:20-24 | a cell outside both edge slices and not flagged keeps its value |
| CalUtils.MaskedInterior | cal_utils.py:20-24 | with a positive cut, an unflagged cell in columns `edge_cut .. ncols - edge_cut - 1` keeps its value |
| CalUtils.MaskedZeroEdgeCut | cal_utils.py:22 | with `edge_cut == 0` every cell of every array becomes the sentinel, flags or not |
| CalUtils.MaskedIdempotent | cal_utils.py:17-25 | masking twice with the same flags and cut is masking once |
| CalUtils.MaskArray | cal_utils.py:21-24 | after the three slice assignments on one array, edge columns and flagged cells hold the sentinel and every other cell its old value |
| CalUtils.ApplyMask | cal_utils.py:17-25 | returns the same dictionary with the same array objects; the flags fit the data; its value afterwards is `Masked` of its value before |
| CalUtils.ZeroedView | cal_utils.py:11-13 | once the touched keys hold zeros and the others their old arrays, the dictionary's value is `ZeroedBadAnts` of its old value |
| CalUtils.MaskedView | cal_utils.py:20-24 | once every array holds its old cells masked, the dictionary's value is `Masked` of its old value |
| CalUtils.MaskedCellsGrid | cal_utils.py:21-24 | an array whose cells are a grid masked has that grid masked as its value |
| PySlice.Bound | cal_utils.py:21-22 | a Python slice bound: negative counts back from the end, clamped to `0..n` |
| PySlice.Stride2 | ps_comp.py:38-39 | `s[start:stop:2]` holds `(stop - start + 1) / 2` elements, the `k`-th being `s[start + 2k]` |
| PySlice.Step2 | ps_comp.py:38-39 | `s[start:stop:2]` with bounds written as Python writes them, normalised by `Bound` |
| PsComp.UVData | ps_comp.py:27-39 | the dataset as `pspec_calc` uses it: the time of each baseline-time row and the visibilities indexed `[blt, spw, freq, pol]`, with one time per row |
| PsComp.Scale | ps_comp.py:34 | a complex visibility multiplied by a real factor |
| PsComp.Broadcasts | ps_comp.py:34 | numpy accepts the in-place product exactly when the factor has one entry per channel or a single entry |
| PsComp.FactorAt | ps_comp.py:34 | the factor channel `f` is multiplied by under broadcasting |
| PsComp.ScaleByFrequency | ps_comp.py:34 | when the factor broadcasts, each sample at channel `f` becomes its old value times the factor of `f`, for every blt, spectral window and polarisation; otherwise it fails with nothing changed |
| PsComp.ScaleUndone | ps_comp.py:34 | scaling by a non-zero factor is undone by scaling by its inverse |
| PsComp.InsertSorted | ps_comp.py:88 | inserting into a strictly increasing list keeps it strictly increasing and adds exactly the new value |
| PsComp.Unique | ps_comp.py:88-89 | `np.unique` is strictly increasing and holds exactly the elements of its input |
| PsComp.IncreasingSameElements | ps_comp.py:88-89 | two strictly increasing lists with the same elements are equal |
| PsComp.UniqueIsCanonical | ps_comp.py:88-89 | `blps` is the only strictly increasing list holding exactly the reported pairs |
| PsComp.FirstHalf | ps_comp.py:38 | `np.unique(time_array)[:-1:2]`, the times of the first dataset |
| PsComp.SecondHalf | ps_comp.py:39 | `np.unique(time_array)[1::2]`, the times of the second dataset |
| PsComp.HalvesInterleave | ps_comp.py:38-39 | each half holds `n / 2` of the `n` distinct times; the `k`-th time of the first is distinct time `2k`, of the second `2k + 1` |
| PsComp.IncreasingInjective | ps_comp.py:38-39 | in the sorted distinct times equal values sit at equal indices |
| PsComp.StridePlace | ps_comp.py:38-39 | a stride of the distinct times holds time `i` exactly when `i` is one of its indices |
| PsComp.StrideIndex | ps_comp.py:38-39 | the indices a stride of `n / 2` elements covers are those of its parity, short of the last one when `n` is odd |
| PsComp.FirstHalfPlace | ps_comp.py:38 | distinct time `i` is in the first half exactly when `i` is even and not the last index |
| PsComp.SecondHalfPlace | ps_comp.py:39 | distinct time `i` is in the second half exactly when `i` is odd |
| PsComp.HalvesDisjoint | ps_comp.py:38-39 | no time is in both halves |
| PsComp.HalvesCover | ps_comp.py:38-39 | a time is in one of the halves exactly when the number of distinct times is even or it is not the latest time |
| PsComp.SelectTimes | ps_comp.py:38-39 | `select(times=keep)` keeps exactly the rows whose time is in `keep`, in their order |
| PsComp.SplitRowsDisjoint | ps_comp.py:38-39 | no baseline-time row goes to both datasets |
| PsComp.SplitRowsCover | ps_comp.py:38-39 | a row goes to one of the datasets exactly when the number of distinct times is even or its time is not the latest |
| PsComp.Flatten | ps_comp.py:71 | the list of every baseline of every group, in order |
| PsComp.AlreadyCollapsed | ps_comp.py:71 | the test: as many groups as baselines across all groups |
| PsComp.CollapsedIffSingletons | ps_comp.py:71 | for non-empty groups, there are at least as many baselines as groups, and the collapsed test holds exactly when every group is a single baseline |
| PsComp.PairsWith | ps_comp.py:81-82 | the pairs of `x` with the members of `ys` other than `x`, each once when `ys` has no repeats |
| PsComp.OrderedPairs | ps_comp.py:81-82 | every ordered pair of distinct members of the two lists, and only those, each once when neither list has repeats |
| PsComp.ConstructBlpairs | ps_comp.py:81-82 | `bls1` and `bls2` have one length; no baseline is paired with itself; every pair is drawn from the list; both orders of every two distinct baselines are present; for a list without repeats no ordered pair occurs twice |
| PsComp.AntPairsOf | ps_comp.py:79-80 | the antenna pairs of a group, in the group's order |
| PsComp.FromGroup | ps_comp.py:79-80 | every antenna pair of that list decodes a baseline of the group |
| PsComp.SelectBlPairs | ps_comp.py:71-82 | fails, with `IndexError`, exactly when the collapsed branch finds no group or an empty group 0, or the other branch finds fewer than two groups |
| PsComp.SelectCollapsed | ps_comp.py:72-74 | collapsed branch: `bls1 == bls2 == [antnums(groups[0][0])]`, and group 0 is that single baseline when no group is empty |
| PsComp.SelectFromSecondGroup | ps_comp.py:76-82 | other branch: `bls1` and `bls2` have one length, no baseline is paired with itself, and every paired baseline decodes a baseline of group 1 |
| PsComp.SelectPairsOnce | ps_comp.py:76-82 | other branch: when the baselines of group 1 decode to distinct antenna pairs, no ordered pair is handed to the estimator twice |
| PsComp.SelectBothOrders | ps_comp.py:76-82 | other branch: two baselines of group 1 with different antenna pairs are correlated in both orders |
| PsComp.SingleGroupFails | ps_comp.py:71-76 | a single group of two or more baselines makes the code index the missing group 1 |
| PsComp.PspecCalc | ps_comp.py:14-91 | a factor that does not broadcast fails with `ShapeMismatch` and leaves the data unchanged; otherwise the data is scaled per channel before the split; an `IndexError` from the group choice is passed on; on success the two datasets are the rows of the two interleaved halves, the pairs are those of the group choice, and `blps` is `np.unique` of the reported pairs |

## Left out

- Plotting (`waterfall_column`, `plot_vis`, `plot_reds` in `cal_utils.py`): matplotlib rendering only.
- The probing of install paths with `os.path.exists` (`ps_comp.py:17-22`): environment plumbing.
- Reading the data file and the beam file (`ps_comp.py:22-28`): file I/O.
- The numeric values of the Jy-to-mK factor (`ps_comp.py:31`) come from a foreign beam model. `PspecCalc` takes the factor as a parameter, and only the broadcast shape of the scaling is modelled.
- Complex arithmetic on visibilities is modelled over `real` pairs, not floating point.
- The complex values of the zero and of the sentinel `-1-1e-16j` (`cal_utils.py:13, 19`) are the abstract values `Zero` and `Sentinel`.
- `get_baseline_redundancies` (`ps_comp.py:57-65`) and the single-time copy it is given: its grouping algorithm is not part of this model. The groups are a parameter of `PspecCalc`.
- `baseline_to_antnums` (`ps_comp.py:73, 79`) is a foreign decoding. It is a function parameter `antnums`.
- `construct_blpairs` belongs to hera_pspec, not to this repository. `ConstructBlpairs` gives it a definition whose contract states what its flags `exclude_permutations=False, exclude_auto_bls=True` ask for: both orders of every two distinct baselines, each once, and no auto pair. Its third list `blp` is unused by `pspec_calc` and not modelled.
- `ds.rephase_to_dset(0)` (`ps_comp.py:50`) is foreign phase arithmetic on the estimator object.
- The `vis_units` tags (`ps_comp.py:53-54`) are metadata strings.
- `ds.pspec` (`ps_comp.py:85-86`) is the foreign quadratic estimator. Its `blpair_array` is the parameter `blpairArray`, an arbitrary list.
- `PspecCalc` returns the row indices of the two datasets rather than building the `UVData` copies. pyuvdata's own errors in `select` (for example no matching time when there are fewer than two distinct times) are not modelled.
- Times are modelled as integers; only their order and equality matter to the split.
- CalUtils.ApplyMask: requires that no two keys share one array object. Under aliasing Python would mask one array twice, and the model does not describe that.
- CalUtils.ApplyMask: requires that, when flags are given, every data key has a flag array of its shape. Python raises `KeyError` or `IndexError` part-way through the loop instead, after masking some entries; that partial state is not modelled.
