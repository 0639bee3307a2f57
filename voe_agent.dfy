/**
  The helpers of `physics_voe_agent.py` that consume the engine's output:
  squashing per-object masks into one id map, the per-frame verdict, its
  string form, and the scene verdict accumulated over a scene's frames.

  2-D images are flattened row-major into sequences; every mask has the
  shape of the reference image.
 */
module VoeAgent {
  import opened Wrappers
  import opened Observations
  import opened Violations
  import opened Heatmap
  import opened FramewiseVoe

  /**
    The id a pixel shows after the first `n` (mask, id) pairs have been
    painted, later pairs over earlier ones; -1 when none of them covers it.
   */
  function Painted(masks: seq<seq<bool>>, ids: seq<int>, n: nat, p: nat): int
    requires n <= |masks| && n <= |ids|
    requires forall k :: 0 <= k < n ==> p < |masks[k]|
  {
    if n == 0 then -1
    else if masks[n - 1][p] then ids[n - 1]
    else Painted(masks, ids, n - 1, p)
  }

  /**
    `squash_masks`: a buffer shaped like `ref`, initialised to -1, in which
    each mask of the pairs `zip` yields paints its id over its pixels.
   */
  method SquashMasks(ref: seq<real>, masks: seq<seq<bool>>, ids: seq<int>) returns (flat: seq<int>)
    requires forall k :: 0 <= k < |masks| ==> |masks[k]| == |ref|
    ensures |flat| == |ref|
    ensures forall p :: 0 <= p < |flat| ==> flat[p] == Painted(masks, ids, Min(|masks|, |ids|), p)
  {
    var buf := new int[|ref|](_ => -1);
    var n := Min(|masks|, |ids|);
    var k := 0;
    while k < n
      invariant 0 <= k <= n
      invariant forall p :: 0 <= p < buf.Length ==> buf[p] == Painted(masks, ids, k, p)
    {
      forall p | 0 <= p < buf.Length && masks[k][p] {
        buf[p] := ids[k];
      }
      k := k + 1;
    }
    flat := buf[..];
  }

  /** A pixel no mask covers stays -1. */
  lemma {:induction false} UncoveredStaysUnset(masks: seq<seq<bool>>, ids: seq<int>, n: nat, p: nat)
    requires n <= |masks| && n <= |ids|
    requires forall k :: 0 <= k < n ==> p < |masks[k]|
    requires forall k :: 0 <= k < n ==> !masks[k][p]
    ensures Painted(masks, ids, n, p) == -1
  {
    if n > 0 {
      UncoveredStaysUnset(masks, ids, n - 1, p);
    }
  }

  /** A pixel covered by mask `k` and by no later mask shows `ids[k]`: later masks win. */
  lemma {:induction false} LastCoveringMaskWins(masks: seq<seq<bool>>, ids: seq<int>, n: nat, p: nat, k: nat)
    requires n <= |masks| && n <= |ids|
    requires forall j :: 0 <= j < n ==> p < |masks[j]|
    requires k < n && masks[k][p]
    requires forall j :: k < j < n ==> !masks[j][p]
    ensures Painted(masks, ids, n, p) == ids[k]
  {
    if k < n - 1 {
      LastCoveringMaskWins(masks, ids, n - 1, p, k);
    }
  }

  /** A painted value other than the initial -1 is the id of some covering mask. */
  lemma {:induction false} PaintedProvenance(masks: seq<seq<bool>>, ids: seq<int>, n: nat, p: nat)
    requires n <= |masks| && n <= |ids|
    requires forall k :: 0 <= k < n ==> p < |masks[k]|
    ensures Painted(masks, ids, n, p) == -1
         || exists k :: 0 <= k < n && masks[k][p] && ids[k] == Painted(masks, ids, n, p)
  {
    if n > 0 && !masks[n - 1][p] {
      PaintedProvenance(masks, ids, n - 1, p);
    }
  }

  /**
    Only the pairs `zip` yields take effect: masks beyond the shorter of
    the two lists, or ids beyond it, change nothing.
   */
  lemma {:induction false} PaintedIgnoresExtraPairs(masks: seq<seq<bool>>, ids: seq<int>,
                                                    masks': seq<seq<bool>>, ids': seq<int>, n: nat, p: nat)
    requires n <= |masks| && n <= |ids| && n <= |masks'| && n <= |ids'|
    requires masks[..n] == masks'[..n] && ids[..n] == ids'[..n]
    requires forall k :: 0 <= k < n ==> p < |masks[k]|
    ensures forall k :: 0 <= k < n ==> p < |masks'[k]|
    ensures Painted(masks, ids, n, p) == Painted(masks', ids', n, p)
  {
    assert forall k :: 0 <= k < n ==> masks'[k] == masks'[..n][k] == masks[..n][k] == masks[k];
    if n > 0 {
      assert masks[..n - 1] == masks[..n][..n - 1] && masks'[..n - 1] == masks'[..n][..n - 1];
      assert ids[..n - 1] == ids[..n][..n - 1] && ids'[..n - 1] == ids'[..n][..n - 1];
      assert ids[n - 1] == ids[..n][n - 1] == ids'[..n][n - 1] == ids'[n - 1];
      PaintedIgnoresExtraPairs(masks, ids, masks', ids', n - 1, p);
    }
  }

  /** `plausible_str`. */
  function PlausibleStr(violationDetected: bool): (s: string)
    ensures s == "implausible" <==> violationDetected
    ensures s == "plausible" <==> !violationDetected
  {
    if violationDetected then "implausible" else "plausible"
  }

  /**
    The per-frame verdict of `calc_voe`: a violation is detected only when
    `detect` gave a list and the list is non-empty, so an undeterminable
    frame and a frame without violations both count as plausible.
   */
  function VoeDetected(viols: Option<seq<Violation>>): (d: bool)
    ensures viols.None? ==> !d
    ensures viols == Some([]) ==> !d
    ensures viols.Some? && viols.value != [] ==> d
  {
    viols.Some? && |viols.value| > 0
  }

  /**
    For a frame the engine can judge, the verdict is positive exactly when
    some masked-in prediction entry has its object missing from the actual
    ids, or found there but farther from the prediction than the test allows.
   */
  lemma FrameFlagged(p: Prediction, actualPoss: seq<Pos>, actualIds: seq<int>, exceeds: (Pos, Pos) -> bool)
    requires |actualIds| <= |actualPoss|
    ensures VoeDetected(Some(ViolationsOf(p, actualPoss, actualIds, exceeds)))
        <==> exists i :: 0 <= i < p.ZipLen() && p.mask[i]
               && (p.ids[i] !in actualIds || exceeds(actualPoss[IndexOf(actualIds, p.ids[i])], p.poss[i]))
  {
    ViolationsNonEmpty(p, p.ZipLen(), actualPoss, actualIds, exceeds);
    forall i | 0 <= i < p.ZipLen()
      ensures Entry(p, i, actualPoss, actualIds, exceeds) != []
          <==> p.mask[i] && (p.ids[i] !in actualIds || exceeds(actualPoss[IndexOf(actualIds, p.ids[i])], p.poss[i]))
    {
    }
  }

  /** The scene verdict after the frames `frames`: the OR of their verdicts, first frame first. */
  function SceneVerdict(frames: seq<Option<seq<Violation>>>): bool {
    if frames == [] then false
    else SceneVerdict(frames[..|frames| - 1]) || VoeDetected(frames[|frames| - 1])
  }

  /** The scene is implausible exactly when some frame is. */
  lemma {:induction false} SceneVerdictIffSomeFrame(frames: seq<Option<seq<Violation>>>)
    ensures SceneVerdict(frames) <==> exists i :: 0 <= i < |frames| && VoeDetected(frames[i])
  {
    if frames != [] {
      var init := frames[..|frames| - 1];
      SceneVerdictIffSomeFrame(init);
      if exists i :: 0 <= i < |init| && VoeDetected(init[i]) {
        var i :| 0 <= i < |init| && VoeDetected(init[i]);
        assert frames[i] == init[i];
      }
      if exists i :: 0 <= i < |frames| && VoeDetected(frames[i]) {
        var i :| 0 <= i < |frames| && VoeDetected(frames[i]);
        if i < |init| {
          assert init[i] == frames[i];
        }
      }
    }
  }

  /** Once the scene verdict is positive it stays positive, whatever frames follow. */
  lemma SceneVerdictMonotone(frames: seq<Option<seq<Violation>>>, more: seq<Option<seq<Violation>>>)
    requires SceneVerdict(frames)
    ensures SceneVerdict(frames + more)
  {
    SceneVerdictIffSomeFrame(frames);
    SceneVerdictIffSomeFrame(frames + more);
    var i :| 0 <= i < |frames| && VoeDetected(frames[i]);
    assert (frames + more)[i] == frames[i];
  }

  /** One more step choice, for frame `i`. */
  function AppendChoice(stepChoices: seq<string>, frames: seq<Option<seq<Violation>>>, i: nat): (r: seq<string>)
    requires i == |stepChoices| < |frames|
    requires forall j :: 0 <= j < i ==> stepChoices[j] == PlausibleStr(VoeDetected(frames[j]))
    ensures |r| == i + 1
    ensures forall j :: 0 <= j <= i ==> r[j] == PlausibleStr(VoeDetected(frames[j]))
  {
    stepChoices + [PlausibleStr(VoeDetected(frames[i]))]
  }

  /**
    The verdict loop of `run_scene` over the frames' `detect` results:
    one step choice per frame, the scene flag OR-accumulated, and the scene
    choice from the final flag.
   */
  method RunScene(frames: seq<Option<seq<Violation>>>) returns (scene: bool, stepChoices: seq<string>, sceneChoice: string)
    ensures scene == SceneVerdict(frames)
    ensures |stepChoices| == |frames|
    ensures forall i :: 0 <= i < |frames| ==> stepChoices[i] == PlausibleStr(VoeDetected(frames[i]))
    ensures sceneChoice == PlausibleStr(scene)
  {
    scene := false;
    stepChoices := [];
    var i := 0;
    while i < |frames|
      invariant 0 <= i <= |frames|
      invariant scene == SceneVerdict(frames[..i])
      invariant |stepChoices| == i
      invariant forall j :: 0 <= j < i ==> stepChoices[j] == PlausibleStr(VoeDetected(frames[j]))
    {
      var voeDetected := VoeDetected(frames[i]);
      assert frames[..i + 1][..i] == frames[..i];
      assert SceneVerdict(frames[..i + 1]) == (scene || voeDetected);
      scene := scene || voeDetected;
      stepChoices := AppendChoice(stepChoices, frames, i);
      i := i + 1;
    }
    assert frames[..i] == frames;
    sceneChoice := PlausibleStr(scene);
  }

  /**
    The engine part of `calc_voe` for one frame: detect against the frame's
    own observations, fold the violations into a heatmap, then record the
    frame. The frame is judged against the history before it. The heatmap
    is the intended fold `MakeVoeHeatmap`, in which a presence violation
    marks nothing.
   */
  method CalcVoe(detector: FramewiseVOE, frameNum: int, ids: seq<int>, pos: seq<Pos>, present: seq<bool>,
                 objMask: seq<int>)
    returns (voeDetected: bool, hmap: seq<bool>, recorded: bool)
    requires detector.Valid()
    requires |ids| <= |pos|
    modifies detector
    ensures detector.Valid()
    ensures voeDetected <==> old(detector.PredictionAt(frameNum)).Some?
                             && ViolationsOf(old(detector.PredictionAt(frameNum)).value, pos, ids,
                                             DistanceTest(detector.distThresh)) != []
    ensures |hmap| == |objMask|
    ensures forall p :: 0 <= p < |hmap| ==>
      (hmap[p] <==> old(detector.PredictionAt(frameNum)).Some?
                    && Marked(ViolationsOf(old(detector.PredictionAt(frameNum)).value, pos, ids,
                                           DistanceTest(detector.distThresh)), objMask[p]))
    ensures recorded <==> frameNum !in old(detector.frameHistory)
    ensures recorded ==> detector.frameHistory == old(detector.frameHistory)[frameNum := Frame(ids, pos, present)]
    ensures recorded ==> detector.timeOrder == old(detector.timeOrder) + [frameNum]
    ensures recorded ==> detector.allIds == old(detector.allIds) + set id | id in ids
    ensures !recorded ==> detector.frameHistory == old(detector.frameHistory)
                          && detector.timeOrder == old(detector.timeOrder) && detector.allIds == old(detector.allIds)
  {
    var viols := detector.Detect(frameNum, pos, ids);
    hmap := MakeVoeHeatmap(viols, objMask);
    recorded := detector.RecordObs(frameNum, ids, pos, present);
    voeDetected := VoeDetected(viols);
  }
}
