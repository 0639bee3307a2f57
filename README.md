# FramewiseVOE in Dafny

This project models the violation-of-expectation (VoE) core of an agent that
judges scenes of moving objects as plausible or implausible.

## The engine

The engine is `FramewiseVOE` in `physicsvoe/framewisevoe.py`, which does
four things:

- It records, per frame time, the ids, positions and presence flags of the
  tracked objects.
- It builds a training set from the recorded history. It keeps only present
  observations, and only of objects seen at least `min_hist_count` times. Per
  object it keeps at most the `max_hist_count` latest observations.
- It asks a learned predictor where every object ever seen should be at the
  query time. An object without training history is masked out.
- It reports a `PresenceViolation` for each masked-in object missing from the
  frame, and a `PositionViolation` for each one farther from its prediction
  than `dist_thresh`.

## The agent

`physics_voe_agent.py` uses the engine's output:

- It squashes per-object masks into one id map.
- It folds each frame's violations into a heatmap and turns the list into a
  per-frame verdict.
- It ORs those verdicts into a scene verdict.
- It reports both to the controller as `plausible` or `implausible`.

## Modules

| module | file | contents |
|---|---|---|
| `Observations` | `observations.dfy` | positions, frames, training observations and list helpers: per-object and per-time sublists, counts, `list.index`, an enumeration of a set |
| `HistoryFilter` | `history_filter.dfy` | `_filter_inputs` as a specification: a stable latest-first sort, then a per-object capped walk, with the filter's properties |
| `Violations` | `violations.dfy` | the two violation kinds, the distance test, the comparison loop of `detect`, and properties of its output |
| `Heatmap` | `heatmap.dfy` | `fill_heatmap` and `make_voe_heatmap`, both as written and as intended |
| `FramewiseVoe` | `framewise_voe.dfy` | the class `FramewiseVOE` with its state, `record_obs`, `_get_inputs`, `_filter_inputs`, `_get_targets`, `predict` and `detect` |
| `VoeAgent` | `voe_agent.dfy` | `squash_masks`, `plausible_str`, the per-frame verdict, the scene loop of `run_scene`, and the engine part of `calc_voe` |

The engine's state changes in place, so it is a Dafny `class`. Its fields
are:

- `frameHistory`: a map from time to frame;
- `timeOrder`: the key order of the Python dict, which keeps insertion order;
- `allIds`: the set of every id recorded.

`Valid()` ties `timeOrder` and `allIds` to `frameHistory`. Each method is
proved against a ghost specification function of that state:

- `Inputs()` is the filtered training set;
- `PredictionAt(time)` is what `predict` returns.

The properties the source promises are proved as lemmas about those
functions.

The predictor `ThorNLLS` is a function-valued constant field `net`. The
engine relies on nothing about it beyond its inputs. Python's iteration
order over a set, which `list(self.all_ids)` exposes, is the constant field
`listIds`. `Valid()` constrains it only to list every member of a set
exactly once (`IsListing`), so no contract fixes the order of the query or
of the violations. `Observations.Enumerate`, the ascending listing, shows
that such a listing exists. `torch.dist` is the
Euclidean distance over reals. It is compared through its square (`Exceeds`),
and `ExceedsIsStrict` shows that this is the source's strict test `d > thresh`.
The list lemmas take the distance test as a parameter, so they hold for any
such test.

Several specification functions stand for source expressions:

- `Filtered`: `_filter_inputs`;
- `Retain`: its counter walk;
- `SortLatestFirst`: `sorted(..., reverse=True)`;
- `EligibleIds`: `obj_valid`;
- `FrameObs`: the inner `zip` loop of `_get_inputs`
  (`physicsvoe/framewisevoe.py:66-71`);
- `HistoryObs`: the whole flattening in `_get_inputs`;
- `RegistryOf`: the union of `all_ids` with each recorded id list
  (`physicsvoe/framewisevoe.py:25`);
- `ViolationsUpTo` and `ViolationsOf`: the loop of `detect` over the first
  entries and over all of them;
- `FoldHeatmap` and `FoldHeatmapAsWritten`: the loop of `make_voe_heatmap`,
  intended and as written;
- `Zeros`: `np.zeros_like`;
- `Painted`: the painting loop of `squash_masks`;
- `SceneVerdict`: the OR-accumulation of `run_scene`.

They have no rows of their own. The rows of the lemmas and methods that
characterise them, which cite the same lines, cover them.

## Model

| member | source | states |
|---|---|---|
| FramewiseVoe.FramewiseVOE.constructor | physicsvoe/framewisevoe.py:14-20 | a fresh engine has an empty history and registry, keeps the given thresholds, predictor and set listing, and has no training inputs |
| FramewiseVoe.FramewiseVOE.RecordObs | physicsvoe/framewisevoe.py:22-25 | a time already recorded is refused and changes nothing. A new time maps to exactly the given frame, is appended to the key order, grows the registry by every given id (present or not), and extends the training candidates by exactly the frame's present entries. The engine invariant is kept |
| FramewiseVoe.RegistryOfMembers | physicsvoe/framewisevoe.py:25 | an id is in the registry exactly when some recorded frame lists it |
| FramewiseVoe.HistoryObsPresentOnly | physicsvoe/framewisevoe.py:64-71 | every flattened observation is a present, zipped entry of the frame recorded at its time |
| FramewiseVoe.HistoryObsComplete | physicsvoe/framewisevoe.py:64-71 | every present entry of a recorded frame appears in the flattened history |
| FramewiseVoe.FramewiseVOE.GetInputs | physicsvoe/framewisevoe.py:61-74 | the nested loops over the frames in insertion order, followed by the filter, give the specified training inputs. The result is `None` exactly when the filter leaves nothing |
| FramewiseVoe.InputsPresentOnly | physicsvoe/framewisevoe.py:65-74 | every training observation is a present entry of a recorded frame, and its object has at least `min_hist_count` observations |
| FramewiseVoe.FramewiseVOE.FilterInputs | physicsvoe/framewisevoe.py:81-97 | the filter method returns exactly the specified filter output, including the empty input |
| FramewiseVoe.AdmitLatest | physicsvoe/framewisevoe.py:88-96 | the counter walk admits exactly the observations that the declarative `Retain` keeps |
| HistoryFilter.RetainStep | physicsvoe/framewisevoe.py:91-96 | one step of the walk: the next observation is admitted exactly when its object is valid and fewer than the cap of its observations are already admitted |
| HistoryFilter.SortLatestFirstCorrect | physicsvoe/framewisevoe.py:87 | the sort output is ordered latest first, is a permutation of the input, keeps observations of equal time in input order, and keeps every per-object count |
| HistoryFilter.RetainById | physicsvoe/framewisevoe.py:91-96 | per valid object the walk keeps exactly the first `cap` of its observations in walk order; of an invalid object it keeps none |
| HistoryFilter.FilteredEligible | physicsvoe/framewisevoe.py:85-92 | the filter invents nothing and keeps only objects with at least `min_hist_count` observations |
| HistoryFilter.FilteredPerId | physicsvoe/framewisevoe.py:85-96 | per object the output is its latest `max_hist_count` observations, latest first, when it has at least `min_hist_count` observations, and nothing otherwise |
| HistoryFilter.FilteredCount | physicsvoe/framewisevoe.py:85-96 | the number kept per object is min(count, max_hist_count) for eligible objects and 0 otherwise, so never above the cap |
| HistoryFilter.FilteredLatestFirst | physicsvoe/framewisevoe.py:87 | the filter output is ordered latest first |
| HistoryFilter.FilteredRecency | physicsvoe/framewisevoe.py:87-96 | when an observation of an object is kept, every strictly later observation of that object is kept too |
| HistoryFilter.FilteredKeepsTimeOrder | physicsvoe/framewisevoe.py:87-96 | observations of the same time keep their input order through the filter |
| FramewiseVoe.BackedIffEligible | physicsvoe/framewisevoe.py:33-36 | an object is backed by training history (masked in) exactly when it has at least max(min_hist_count, 1) present observations and max_hist_count >= 1 |
| FramewiseVoe.FilteredEmptyIff | physicsvoe/framewisevoe.py:72-74 | the training set is empty, so that `predict` returns `None`, exactly when no object is backed |
| FramewiseVoe.FramewiseVOE.GetTargets | physicsvoe/framewisevoe.py:99-102 | the query lists every registered id exactly once, in the engine's set-listing order, and every query time is the given time |
| Observations.Enumerate | physicsvoe/framewisevoe.py:100 | one admissible `list(all_ids)`: a duplicate-free list of exactly the set's members, strictly ascending |
| Observations.EnumerateIsListing | physicsvoe/framewisevoe.py:100 | the ascending listing meets what Python promises of `list` over a set, so the engine's listing requirement can be met |
| FramewiseVoe.FramewiseVOE.PredictionAt | physicsvoe/framewisevoe.py:27-37 | the prediction is `None` exactly when there are no inputs. Otherwise its ids enumerate the registry without duplicates, its positions are the net's answer, and an entry is masked in exactly when its id occurs in the training inputs |
| FramewiseVoe.FramewiseVOE.Predict | physicsvoe/framewisevoe.py:27-37 | the method returns exactly the specified prediction |
| FramewiseVoe.FramewiseVOE.Detect | physicsvoe/framewisevoe.py:39-59 | the result is `None` exactly when the prediction is `None`. Otherwise it is the violations of the masked-in entries of the specified prediction, under the distance test with `dist_thresh` |
| Violations.CompareWithActual | physicsvoe/framewisevoe.py:45-58 | the comparison loop returns the violations specified entry by entry, in zip order |
| Observations.IndexOf | physicsvoe/framewisevoe.py:49 | `actual_ids.index(id)` is the first position holding `id` |
| Violations.ExceedsIsStrict | physicsvoe/framewisevoe.py:51-52 | a position violation is raised exactly when the Euclidean distance strictly exceeds the threshold |
| Violations.ViolationsOnlyBacked | physicsvoe/framewisevoe.py:45-47 | every violation concerns a masked-in prediction entry and carries that entry's id and predicted position |
| Violations.ViolationsPerObject | physicsvoe/framewisevoe.py:45-58 | per predicted object, with duplicate-free ids: nothing when masked out; exactly one presence violation when missing from the frame; exactly one position violation, against the position at the id's first index, when the distance test fires, and nothing otherwise |
| Violations.ViolationsInPredictionOrder | physicsvoe/framewisevoe.py:45-58 | violations appear in the order of the predictor's ids |
| Violations.ViolationsNonEmpty | physicsvoe/framewisevoe.py:45-58 | the list is non-empty exactly when some entry yields a violation |
| Heatmap.FillHeatmap | physicsvoe/framewisevoe.py:113-114 | a position violation sets exactly its object's pixels and changes no other; a presence violation changes nothing (intended behaviour, see Findings) |
| Heatmap.FillHeatmapAsWritten | physicsvoe/framewisevoe.py:113-126 | as written, a presence violation returns no buffer, and a position violation applied to no buffer raises over a non-empty mask and yields an empty array over an empty one |
| Heatmap.FoldHeatmapCells | physicsvoe/framewisevoe.py:135-136 | after folding, a pixel is set exactly when it was already set or its object has a position violation |
| Heatmap.FoldHeatmapIdempotent | physicsvoe/framewisevoe.py:135-136 | folding the same violations twice changes nothing |
| Heatmap.MakeVoeHeatmap | physicsvoe/framewisevoe.py:132-137 | the heatmap has the mask's shape. `None` counts as no violations. A pixel is set exactly when a position violation concerns the object the mask shows there |
| Heatmap.MakeVoeHeatmapAsWritten | physicsvoe/framewisevoe.py:132-137 | the source's loop computes the as-written fold |
| Heatmap.AsWrittenAgreesWithoutPresence | physicsvoe/framewisevoe.py:132-137 | without presence violations, the source's fold and the intended one agree |
| Heatmap.AsWrittenLosesBuffer | physicsvoe/framewisevoe.py:124-126 | over a non-empty mask, any presence violation leaves the source's fold without a buffer; over an empty mask the fold ends with no buffer or the empty one |
| Heatmap.AsWrittenEmptyMaskNeverCrashes | physicsvoe/framewisevoe.py:114 | over an empty mask the source's fold never raises |
| Heatmap.PresenceViolationDropsHeatmap | physicsvoe/framewisevoe.py:124-126 | a single presence violation yields `None` as written, where an all-false heatmap was intended |
| VoeAgent.SquashMasks | physics_voe_agent.py:109-113 | the squashed map has the reference's shape, and each pixel holds the id of the last zipped mask covering it, or -1 |
| VoeAgent.UncoveredStaysUnset | physics_voe_agent.py:110 | a pixel no mask covers stays -1 |
| VoeAgent.LastCoveringMaskWins | physics_voe_agent.py:111-112 | a pixel shows the id of the last mask covering it |
| VoeAgent.PaintedProvenance | physics_voe_agent.py:111-112 | a value other than -1 is the id of some mask covering that pixel |
| VoeAgent.PaintedIgnoresExtraPairs | physics_voe_agent.py:111 | masks or ids beyond the shorter list change nothing |
| VoeAgent.PlausibleStr | physics_voe_agent.py:127-128 | `implausible` exactly when a violation was detected, and `plausible` exactly when none was |
| VoeAgent.VoeDetected | physics_voe_agent.py:85 | a frame without an opinion (`None`) and a frame with an empty list both count as no violation; a non-empty list counts as a violation |
| VoeAgent.FrameFlagged | physics_voe_agent.py:85 | a judged frame is flagged exactly when some masked-in object is missing from the frame or fails the distance test |
| VoeAgent.SceneVerdictIffSomeFrame | physics_voe_agent.py:37-41 | the scene verdict is positive exactly when some frame's verdict is |
| VoeAgent.SceneVerdictMonotone | physics_voe_agent.py:41 | once positive, the scene verdict stays positive whatever frames follow |
| VoeAgent.RunScene | physics_voe_agent.py:37-49 | there is one step choice per frame, each the string of that frame's verdict. The scene flag is the OR of the frame verdicts, and the scene choice is its string |
| VoeAgent.CalcVoe | physics_voe_agent.py:77-85 | one frame is detected against the history before it, then folded into a heatmap, then recorded. The verdict is true exactly when that prediction exists and its violation list is non-empty. A heatmap pixel is set exactly when a position violation of that prediction concerns the object the mask shows there. A new frame time is recorded with exactly the given frame, appended to the key order, and its ids join the registry; a time already recorded changes nothing |

## Left out

- The neural predictor `ThorNLLS` and the tensor plumbing (`unsqueeze`, `squeeze`, `torch.stack`, the all-true input mask) are not modelled. The predictor is an arbitrary function field `net`, and `zip` truncation of its output against the query is modelled.
- `torch.dist` on float tensors is modelled as the Euclidean distance over exact reals. Floating-point rounding is not modelled.
- FramewiseVoe.FramewiseVOE.RecordObs: the `assert time not in self.frame_history` failure is modelled as the result `ok == false` with the state unchanged, not as an exception.
- FramewiseVoe.FramewiseVOE.Detect: it requires `|actualIds| <= |actualPoss|`. The `IndexError` that shorter position lists can raise in the source is not modelled.
- VoeAgent.SquashMasks: each mask is required to have the reference image's length, since numpy would raise otherwise. Images are flattened row-major, ids are unbounded integers rather than the reference's dtype, and the array stays local.
- VoeAgent.RunScene: the model takes the frames' `detect` results as input. The controller calls, the folder check, the `choice` sanity assertion and the `break` on a missing step output are I/O or control flow outside the verdict logic.
- VoeAgent.CalcVoe: the heatmap is the intended fold `Heatmap.MakeVoeHeatmap`, not the source's as-written `make_voe_heatmap` at `physics_voe_agent.py:78`. As written, a presence violation makes that call return `None`, or raise `TypeError` when a position violation follows, and `Image.fromarray` at `physics_voe_agent.py:86` would then fail. Findings records this.
- VoeAgent.CalcVoe: the source calls `detect` with six arguments and `record_obs` with five, which `physicsvoe/framewisevoe.py` does not accept. The model uses the engine's own signatures. Mask selection per level, tracking, occlusion detection (`make_occ_heatmap`, `detect_occlusions`), `calc_world_pos`, `output_voe`, `show_scene` and the image conversion are outside this model.
- The occlusion check marked as a TODO at `physicsvoe/framewisevoe.py:56` is not modelled, since the source does not implement it.
- `NoViolation`, `describe`, `output_voe`, `show_scene`, `make_parser`, `main`, `full_voe`, `calc_world_pos` and `find_scenes` (printing, plotting, file I/O, argument parsing) are not part of this model. Neither are `oracle_masks`, `level1_masks`, `level2_masks` and `prob_to_mask` (vision models).
- `tracker/appearance.py` and `simple_eval3_agent.py` are not part of this model.

## Findings

| source | as written | input that shows it | evidently intended | confidence | as-written member | corrected member |
|---|---|---|---|---|---|---|
| physicsvoe/framewisevoe.py:124-126 | `PresenceViolation.fill_heatmap` has the body `pass`, so it returns `None`. Over a non-empty mask, `make_voe_heatmap` then returns `None`, or raises `TypeError` when a position violation follows | a single `PresenceViolation` over a one-pixel mask gives `None` (witness `Heatmap.PresenceViolationDropsHeatmap`) | a presence violation leaves the heatmap unchanged, so the result is an all-false array of the mask's shape | not executed | Heatmap.AsWrittenLosesBuffer | Heatmap.MakeVoeHeatmap |
