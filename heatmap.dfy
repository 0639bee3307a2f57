/**
  `fill_heatmap` of the two violation kinds and `make_voe_heatmap`, which
  folds a frame's violations into one boolean buffer shaped like the
  object-id mask. The 2-D mask and buffer are flattened row-major into
  sequences of the same length.

  The source's `PresenceViolation.fill_heatmap` has the body `pass`, so it
  returns `None` and the fold's buffer is lost (`FillHeatmapAsWritten`,
  `MakeVoeHeatmapAsWritten`). `FillHeatmap` and `MakeVoeHeatmap` are the
  evidently intended behaviour, in which a presence violation leaves the
  buffer unchanged.
 */
module Heatmap {
  import opened Observations
  import opened Wrappers
  import opened Violations

  /**
    The intended `fill_heatmap`: a position violation ORs in exactly the
    pixels of its object and changes no other pixel; a presence violation
    has no mask region and changes nothing.
   */
  function FillHeatmap(v: Violation, hmap: seq<bool>, objMask: seq<int>): (r: seq<bool>)
    requires |hmap| == |objMask|
    ensures |r| == |hmap|
    ensures v.PositionViolation? ==> forall p :: 0 <= p < |r| && objMask[p] == v.objectId ==> r[p]
    ensures v.PositionViolation? ==> forall p :: 0 <= p < |r| && objMask[p] != v.objectId ==> r[p] == hmap[p]
    ensures v.PresenceViolation? ==> r == hmap
  {
    match v
    case PositionViolation(id, _, _) => seq(|hmap|, p requires 0 <= p < |hmap| => hmap[p] || objMask[p] == id)
    case PresenceViolation(_, _) => hmap
  }

  /** Folds `vs` into `hmap`, first violation first. */
  function FoldHeatmap(vs: seq<Violation>, hmap: seq<bool>, objMask: seq<int>): (r: seq<bool>)
    requires |hmap| == |objMask|
    ensures |r| == |hmap|
  {
    if vs == [] then hmap
    else FillHeatmap(vs[|vs| - 1], FoldHeatmap(vs[..|vs| - 1], hmap, objMask), objMask)
  }

  /** Some position violation in `vs` concerns object `id`. */
  ghost predicate Marked(vs: seq<Violation>, id: int) {
    exists v :: v in vs && v.PositionViolation? && v.objectId == id
  }

  /** After the fold a pixel is set exactly when it was set before or its object has a position violation. */
  lemma {:induction false} FoldHeatmapCells(vs: seq<Violation>, hmap: seq<bool>, objMask: seq<int>)
    requires |hmap| == |objMask|
    ensures forall p :: 0 <= p < |hmap| ==>
      (FoldHeatmap(vs, hmap, objMask)[p] <==> hmap[p] || Marked(vs, objMask[p]))
  {
    if vs != [] {
      var init, v := vs[..|vs| - 1], vs[|vs| - 1];
      FoldHeatmapCells(init, hmap, objMask);
      assert vs == init + [v];
      forall p | 0 <= p < |hmap|
        ensures FoldHeatmap(vs, hmap, objMask)[p] <==> hmap[p] || Marked(vs, objMask[p])
      {
        if Marked(vs, objMask[p]) && !Marked(init, objMask[p]) {
          var w :| w in vs && w.PositionViolation? && w.objectId == objMask[p];
          assert w == v;
        }
        if Marked(init, objMask[p]) {
          var w :| w in init && w.PositionViolation? && w.objectId == objMask[p];
          assert w in vs;
        }
      }
    }
  }

  /** Folding the same violations a second time changes nothing: the OR-fold is idempotent. */
  lemma FoldHeatmapIdempotent(vs: seq<Violation>, hmap: seq<bool>, objMask: seq<int>)
    requires |hmap| == |objMask|
    ensures FoldHeatmap(vs, FoldHeatmap(vs, hmap, objMask), objMask) == FoldHeatmap(vs, hmap, objMask)
  {
    var once := FoldHeatmap(vs, hmap, objMask);
    FoldHeatmapCells(vs, hmap, objMask);
    FoldHeatmapCells(vs, once, objMask);
  }

  /** `np.zeros_like(obj_mask, dtype=bool)`. */
  function Zeros(objMask: seq<int>): (r: seq<bool>)
    ensures |r| == |objMask| && forall p :: 0 <= p < |r| ==> !r[p]
  {
    seq(|objMask|, _ => false)
  }

  /**
    The intended `make_voe_heatmap`: `None` counts as no violations; a pixel
    of the result is set exactly when some position violation concerns the
    object the mask shows there.
   */
  method MakeVoeHeatmap(viols: Option<seq<Violation>>, objMask: seq<int>) returns (hmap: seq<bool>)
    ensures |hmap| == |objMask|
    ensures forall p :: 0 <= p < |hmap| ==>
      (hmap[p] <==> viols.Some? && Marked(viols.value, objMask[p]))
    ensures viols.Some? ==> hmap == FoldHeatmap(viols.value, Zeros(objMask), objMask)
  {
    hmap := Zeros(objMask);
    var vs := if viols.Some? then viols.value else [];
    var i := 0;
    while i < |vs|
      invariant 0 <= i <= |vs|
      invariant hmap == FoldHeatmap(vs[..i], Zeros(objMask), objMask)
    {
      assert vs[..i + 1][..i] == vs[..i];
      hmap := FillHeatmap(vs[i], hmap, objMask);
      i := i + 1;
    }
    assert vs[..i] == vs;
    FoldHeatmapCells(vs, Zeros(objMask), objMask);
  }

  /**
    The buffer as the source threads it through the fold: an array, or
    `None` after a presence violation, or a `TypeError` once a position
    violation is applied to `None` over a non-empty mask (`None + True`
    fails). Over an empty mask numpy broadcasts `None` against no elements
    and yields an empty array.
   */
  datatype HeatmapState = Buffer(cells: seq<bool>) | NoBuffer | Crashed

  /** `fill_heatmap` as written: `PresenceViolation.fill_heatmap` is `pass` and so returns `None`. */
  function FillHeatmapAsWritten(v: Violation, hmap: HeatmapState, objMask: seq<int>): (r: HeatmapState)
    requires hmap.Buffer? ==> |hmap.cells| == |objMask|
    ensures r.Buffer? ==> |r.cells| == |objMask|
    ensures v.PresenceViolation? ==> !r.Buffer?
    ensures v.PositionViolation? && hmap.Buffer? ==> r == Buffer(FillHeatmap(v, hmap.cells, objMask))
  {
    match hmap
    case Crashed => Crashed
    case NoBuffer =>
      if v.PresenceViolation? then NoBuffer
      else if |objMask| == 0 then Buffer([])
      else Crashed
    case Buffer(cells) => if v.PositionViolation? then Buffer(FillHeatmap(v, cells, objMask)) else NoBuffer
  }

  function FoldHeatmapAsWritten(vs: seq<Violation>, objMask: seq<int>): (r: HeatmapState)
    ensures r.Buffer? ==> |r.cells| == |objMask|
  {
    if vs == [] then Buffer(Zeros(objMask))
    else FillHeatmapAsWritten(vs[|vs| - 1], FoldHeatmapAsWritten(vs[..|vs| - 1], objMask), objMask)
  }

  /** `make_voe_heatmap` as written. */
  method MakeVoeHeatmapAsWritten(viols: Option<seq<Violation>>, objMask: seq<int>) returns (hmap: HeatmapState)
    ensures hmap == FoldHeatmapAsWritten(if viols.Some? then viols.value else [], objMask)
  {
    hmap := Buffer(Zeros(objMask));
    var vs := if viols.Some? then viols.value else [];
    var i := 0;
    while i < |vs|
      invariant 0 <= i <= |vs|
      invariant hmap == FoldHeatmapAsWritten(vs[..i], objMask)
    {
      assert vs[..i + 1][..i] == vs[..i];
      hmap := FillHeatmapAsWritten(vs[i], hmap, objMask);
      i := i + 1;
    }
    assert vs[..i] == vs;
  }

  /** Without presence violations the source's fold and the intended one agree. */
  lemma {:induction false} AsWrittenAgreesWithoutPresence(vs: seq<Violation>, objMask: seq<int>)
    requires forall v :: v in vs ==> v.PositionViolation?
    ensures FoldHeatmapAsWritten(vs, objMask) == Buffer(FoldHeatmap(vs, Zeros(objMask), objMask))
  {
    if vs != [] {
      var init := vs[..|vs| - 1];
      assert forall v :: v in init ==> v in vs;
      AsWrittenAgreesWithoutPresence(init, objMask);
    }
  }

  /** Over an empty mask the source's fold never raises. */
  lemma {:induction false} AsWrittenEmptyMaskNeverCrashes(vs: seq<Violation>, objMask: seq<int>)
    requires |objMask| == 0
    ensures FoldHeatmapAsWritten(vs, objMask) != Crashed
  {
    if vs != [] {
      AsWrittenEmptyMaskNeverCrashes(vs[..|vs| - 1], objMask);
    }
  }

  /**
    With a presence violation anywhere in the list, the source's fold over
    a non-empty mask ends without a buffer: `None`, or a `TypeError` if a
    position violation follows. Over an empty mask it ends with no buffer
    or with the empty one, the intended result.
   */
  lemma {:induction false} AsWrittenLosesBuffer(vs: seq<Violation>, objMask: seq<int>)
    requires exists v :: v in vs && v.PresenceViolation?
    ensures |objMask| > 0 ==> !FoldHeatmapAsWritten(vs, objMask).Buffer?
    ensures |objMask| == 0 ==> FoldHeatmapAsWritten(vs, objMask) == NoBuffer || FoldHeatmapAsWritten(vs, objMask) == Buffer([])
  {
    var init, last := vs[..|vs| - 1], vs[|vs| - 1];
    assert vs == init + [last];
    if |objMask| == 0 {
      AsWrittenEmptyMaskNeverCrashes(init, objMask);
    }
    if !last.PresenceViolation? {
      var v :| v in vs && v.PresenceViolation?;
      assert v in init;
      AsWrittenLosesBuffer(init, objMask);
      var before := FoldHeatmapAsWritten(init, objMask);
      assert FoldHeatmapAsWritten(vs, objMask) == FillHeatmapAsWritten(last, before, objMask);
      if |objMask| == 0 && before.Buffer? {
        assert |FillHeatmap(last, before.cells, objMask)| == 0;
      }
    }
  }

  /**
    The smallest witness: one presence violation over a one-pixel mask. The
    source returns `None` where an all-false buffer was intended.
   */
  lemma PresenceViolationDropsHeatmap()
    ensures FoldHeatmapAsWritten([PresenceViolation(0, Pos(0.0, 0.0, 0.0))], [0]) == NoBuffer
    ensures FoldHeatmap([PresenceViolation(0, Pos(0.0, 0.0, 0.0))], [false], [0]) == [false]
  {
    var vs := [PresenceViolation(0, Pos(0.0, 0.0, 0.0))];
    assert vs[..0] == [];
  }
}
