/**
  The violation taxonomy and the comparison `FramewiseVOE.detect` performs
  between a prediction and the actual observations of one frame.
 */
module Violations {
  import opened Observations

  /** `PositionViolation` and `PresenceViolation` of the source, as one closed variant type. */
  datatype Violation =
    | PositionViolation(objectId: int, predPos: Pos, actualPos: Pos)
    | PresenceViolation(objectId: int, predPos: Pos)

  /**
    `torch.dist(actual, pred) > thresh`, with the Euclidean distance kept
    squared: a distance is never negative, so it exceeds a negative
    threshold always and a non-negative one exactly when its square exceeds
    the threshold's square.
   */
  function Exceeds(actual: Pos, pred: Pos, thresh: real): bool {
    thresh < 0.0 || SqDist(actual, pred) > thresh * thresh
  }

  /** The comparison `detect` applies to an (actual, predicted) pair of positions. */
  function DistanceTest(thresh: real): (Pos, Pos) -> bool {
    (actual: Pos, pred: Pos) => Exceeds(actual, pred, thresh)
  }

  /**
    The test is strict: for the Euclidean distance `d` (the non-negative
    root of the squared distance), a violation is raised exactly when
    `d > thresh`, so a distance equal to the threshold raises none.
   */
  lemma ExceedsIsStrict(actual: Pos, pred: Pos, thresh: real, d: real)
    requires d >= 0.0 && d * d == SqDist(actual, pred)
    ensures Exceeds(actual, pred, thresh) <==> d > thresh
    ensures DistanceTest(thresh)(actual, pred) <==> d > thresh
  {
    if thresh >= 0.0 {
      if d > thresh {
        SquareStrictlyMonotone(d, thresh);
      } else if d < thresh {
        SquareStrictlyMonotone(thresh, d);
      }
    }
  }

  lemma SquareStrictlyMonotone(a: real, b: real)
    requires 0.0 <= b < a
    ensures b * b < a * a
  {
    calc {
      b * b;
    <= { ProductNonNegative(b, a - b); }
      a * b;
    <  { ProductPositive(a, a - b); }
      a * a;
    }
  }

  lemma ProductPositive(a: real, b: real)
    requires a > 0.0 && b > 0.0
    ensures a * b > 0.0
  {
  }

  lemma ProductNonNegative(a: real, b: real)
    requires a >= 0.0 && b >= 0.0
    ensures a * b >= 0.0
  {
  }

  /**
    What `FramewiseVOE.predict` returns when it has an opinion: the queried
    ids, the predicted position per id, and whether each id is backed by
    training history.
   */
  datatype Prediction = Prediction(ids: seq<int>, poss: seq<Pos>, mask: seq<bool>) {
    /** The number of entries `zip(pred_poss, pred_ids, pred_masks)` yields. */
    function ZipLen(): (n: nat)
      ensures n <= |ids| && n <= |poss| && n <= |mask|
    {
      Min(|poss|, Min(|ids|, |mask|))
    }
  }

  /** What one prediction entry contributes to the frame's violations. */
  function EntryViolations(id: int, pos: Pos, masked: bool, actualPoss: seq<Pos>, actualIds: seq<int>, exceeds: (Pos, Pos) -> bool)
    : seq<Violation>
    requires |actualIds| <= |actualPoss|
  {
    if !masked then []
    else if id in actualIds then
      var actual := actualPoss[IndexOf(actualIds, id)];
      if exceeds(actual, pos) then [PositionViolation(id, pos, actual)] else []
    else [PresenceViolation(id, pos)]
  }

  function Entry(p: Prediction, k: nat, actualPoss: seq<Pos>, actualIds: seq<int>, exceeds: (Pos, Pos) -> bool): seq<Violation>
    requires k < p.ZipLen() && |actualIds| <= |actualPoss|
  {
    EntryViolations(p.ids[k], p.poss[k], p.mask[k], actualPoss, actualIds, exceeds)
  }

  /** The violations of the first `k` prediction entries, in prediction order. */
  function ViolationsUpTo(p: Prediction, k: nat, actualPoss: seq<Pos>, actualIds: seq<int>, exceeds: (Pos, Pos) -> bool)
    : seq<Violation>
    requires k <= p.ZipLen() && |actualIds| <= |actualPoss|
  {
    if k == 0 then []
    else ViolationsUpTo(p, k - 1, actualPoss, actualIds, exceeds) + Entry(p, k - 1, actualPoss, actualIds, exceeds)
  }

  /** The list `detect` returns for prediction `p`. */
  function ViolationsOf(p: Prediction, actualPoss: seq<Pos>, actualIds: seq<int>, exceeds: (Pos, Pos) -> bool): seq<Violation>
    requires |actualIds| <= |actualPoss|
  {
    ViolationsUpTo(p, p.ZipLen(), actualPoss, actualIds, exceeds)
  }

  /**
    The loop of `FramewiseVOE.detect` once a prediction exists: entries are
    visited in prediction order, masked-out ones are skipped, an id missing
    from the actual ids is a presence violation, and an id found there (at
    its first occurrence) is a position violation when the distance exceeds
    the threshold.
   */
  method CompareWithActual(p: Prediction, actualPoss: seq<Pos>, actualIds: seq<int>, thresh: real)
    returns (violations: seq<Violation>)
    requires |actualIds| <= |actualPoss|
    ensures violations == ViolationsOf(p, actualPoss, actualIds, DistanceTest(thresh))
  {
    violations := [];
    var i := 0;
    while i < p.ZipLen()
      invariant 0 <= i <= p.ZipLen()
      invariant violations == ViolationsUpTo(p, i, actualPoss, actualIds, DistanceTest(thresh))
    {
      var predPos, predId, predMask := p.poss[i], p.ids[i], p.mask[i];
      if predMask {
        if predId in actualIds {
          var idx := IndexOf(actualIds, predId);
          var actualPos := actualPoss[idx];
          if Exceeds(actualPos, predPos, thresh) {
            violations := violations + [PositionViolation(predId, predPos, actualPos)];
          }
        } else {
          violations := violations + [PresenceViolation(predId, predPos)];
        }
      }
      i := i + 1;
    }
  }

  /** The violations about object `id`, in order. */
  function OfObject(vs: seq<Violation>, id: int): seq<Violation> {
    if vs == [] then [] else (if vs[0].objectId == id then [vs[0]] else []) + OfObject(vs[1..], id)
  }

  lemma {:induction false} OfObjectConcat(a: seq<Violation>, b: seq<Violation>, id: int)
    ensures OfObject(a + b, id) == OfObject(a, id) + OfObject(b, id)
  {
    if a == [] {
      assert a + b == b;
    } else {
      var c, h := a + b, if a[0].objectId == id then [a[0]] else [];
      assert c[0] == a[0] && c[1..] == a[1..] + b;
      OfObjectConcat(a[1..], b, id);
      assert OfObject(c, id) == h + (OfObject(a[1..], id) + OfObject(b, id));
      assert h + (OfObject(a[1..], id) + OfObject(b, id)) == (h + OfObject(a[1..], id)) + OfObject(b, id);
    }
  }

  lemma OfObjectSingle(e: seq<Violation>, id: int)
    requires |e| <= 1
    ensures OfObject(e, id) == if e != [] && e[0].objectId == id then e else []
  {
    if e != [] {
      assert e[1..] == [];
    }
  }

  /** Every violation of an entry concerns that entry's id, and only a masked-in entry has any. */
  lemma EntryShape(id: int, pos: Pos, masked: bool, actualPoss: seq<Pos>, actualIds: seq<int>, exceeds: (Pos, Pos) -> bool)
    requires |actualIds| <= |actualPoss|
    ensures var vs := EntryViolations(id, pos, masked, actualPoss, actualIds, exceeds);
      |vs| <= 1 && (vs != [] ==> masked && vs[0].objectId == id && vs[0].predPos == pos)
  {
  }

  /**
    Provenance: each violation comes from a masked-in entry among the first
    `k`, with that entry's id and predicted position.
   */
  lemma {:induction false} ViolationsUpToProvenance(p: Prediction, k: nat, actualPoss: seq<Pos>, actualIds: seq<int>,
                                                    exceeds: (Pos, Pos) -> bool, v: Violation)
    requires k <= p.ZipLen() && |actualIds| <= |actualPoss|
    requires v in ViolationsUpTo(p, k, actualPoss, actualIds, exceeds)
    ensures exists i :: 0 <= i < k && p.mask[i] && p.ids[i] == v.objectId && p.poss[i] == v.predPos
  {
    var prev := ViolationsUpTo(p, k - 1, actualPoss, actualIds, exceeds);
    EntryShape(p.ids[k - 1], p.poss[k - 1], p.mask[k - 1], actualPoss, actualIds, exceeds);
    if v in prev {
      ViolationsUpToProvenance(p, k - 1, actualPoss, actualIds, exceeds, v);
    } else {
      assert v in Entry(p, k - 1, actualPoss, actualIds, exceeds);
    }
  }

  /**
    Only backed (masked-in) predictions can be violated: every violation
    concerns an id the predictor was queried for and whose mask is true, and
    carries that entry's predicted position.
   */
  lemma ViolationsOnlyBacked(p: Prediction, actualPoss: seq<Pos>, actualIds: seq<int>, exceeds: (Pos, Pos) -> bool, v: Violation)
    requires |actualIds| <= |actualPoss|
    requires v in ViolationsOf(p, actualPoss, actualIds, exceeds)
    ensures exists i :: 0 <= i < p.ZipLen() && p.mask[i] && p.ids[i] == v.objectId && p.poss[i] == v.predPos
  {
    ViolationsUpToProvenance(p, p.ZipLen(), actualPoss, actualIds, exceeds, v);
  }

  /** Entries of other objects contribute nothing about `id`. */
  lemma {:induction false} ViolationsUpToOtherObjects(p: Prediction, k: nat, actualPoss: seq<Pos>, actualIds: seq<int>,
                                                      exceeds: (Pos, Pos) -> bool, id: int)
    requires k <= p.ZipLen() && |actualIds| <= |actualPoss|
    requires forall i :: 0 <= i < k ==> p.ids[i] != id
    ensures OfObject(ViolationsUpTo(p, k, actualPoss, actualIds, exceeds), id) == []
  {
    if k > 0 {
      var prev := ViolationsUpTo(p, k - 1, actualPoss, actualIds, exceeds);
      var e := Entry(p, k - 1, actualPoss, actualIds, exceeds);
      ViolationsUpToOtherObjects(p, k - 1, actualPoss, actualIds, exceeds, id);
      OfObjectConcat(prev, e, id);
      EntryShape(p.ids[k - 1], p.poss[k - 1], p.mask[k - 1], actualPoss, actualIds, exceeds);
      OfObjectSingle(e, id);
    }
  }

  /** Appending an entry's violations (at most one, all about `eid`) to `prev`, seen from object `id`. */
  lemma OfObjectAppendEntry(prev: seq<Violation>, e: seq<Violation>, eid: int, id: int)
    requires |e| <= 1 && (e != [] ==> e[0].objectId == eid)
    ensures OfObject(prev + e, id) == if eid == id then OfObject(prev, id) + e else OfObject(prev, id)
  {
    OfObjectConcat(prev, e, id);
    OfObjectSingle(e, id);
    assert OfObject(prev, id) + [] == OfObject(prev, id);
  }

  /** Seen from object `id`, the last of the first `k` entries adds its own violations when it is about `id`, and nothing otherwise. */
  lemma ViolationsUpToLastEntry(p: Prediction, k: nat, actualPoss: seq<Pos>, actualIds: seq<int>,
                                exceeds: (Pos, Pos) -> bool, id: int)
    requires 0 < k <= p.ZipLen() && |actualIds| <= |actualPoss|
    ensures OfObject(ViolationsUpTo(p, k, actualPoss, actualIds, exceeds), id)
         == OfObject(ViolationsUpTo(p, k - 1, actualPoss, actualIds, exceeds), id)
            + (if p.ids[k - 1] == id then Entry(p, k - 1, actualPoss, actualIds, exceeds) else [])
  {
    var prev := ViolationsUpTo(p, k - 1, actualPoss, actualIds, exceeds);
    var e := Entry(p, k - 1, actualPoss, actualIds, exceeds);
    EntryShape(p.ids[k - 1], p.poss[k - 1], p.mask[k - 1], actualPoss, actualIds, exceeds);
    OfObjectAppendEntry(prev, e, p.ids[k - 1], id);
    assert OfObject(prev, id) + [] == OfObject(prev, id);
  }

  /** When no earlier entry is about the same object, entry `k - 1` alone makes up what the first `k` entries report about its object. */
  lemma ViolationsUpToOwnEntry(p: Prediction, k: nat, actualPoss: seq<Pos>, actualIds: seq<int>, exceeds: (Pos, Pos) -> bool)
    requires 0 < k <= p.ZipLen() && |actualIds| <= |actualPoss|
    requires forall i :: 0 <= i < k - 1 ==> p.ids[i] != p.ids[k - 1]
    ensures OfObject(ViolationsUpTo(p, k, actualPoss, actualIds, exceeds), p.ids[k - 1])
         == Entry(p, k - 1, actualPoss, actualIds, exceeds)
  {
    var e := Entry(p, k - 1, actualPoss, actualIds, exceeds);
    ViolationsUpToLastEntry(p, k, actualPoss, actualIds, exceeds, p.ids[k - 1]);
    ViolationsUpToOtherObjects(p, k - 1, actualPoss, actualIds, exceeds, p.ids[k - 1]);
    assert [] + e == e;
  }

  /** Seen from another object, entry `k - 1` adds nothing. */
  lemma ViolationsUpToSkipEntry(p: Prediction, k: nat, actualPoss: seq<Pos>, actualIds: seq<int>,
                                exceeds: (Pos, Pos) -> bool, id: int)
    requires 0 < k <= p.ZipLen() && |actualIds| <= |actualPoss|
    requires p.ids[k - 1] != id
    ensures OfObject(ViolationsUpTo(p, k, actualPoss, actualIds, exceeds), id)
         == OfObject(ViolationsUpTo(p, k - 1, actualPoss, actualIds, exceeds), id)
  {
    ViolationsUpToLastEntry(p, k, actualPoss, actualIds, exceeds, id);
  }

  lemma {:induction false} ViolationsUpToOfObject(p: Prediction, k: nat, actualPoss: seq<Pos>, actualIds: seq<int>,
                                                  exceeds: (Pos, Pos) -> bool, j: nat)
    requires k <= p.ZipLen() && |actualIds| <= |actualPoss|
    requires j < p.ZipLen() && forall i :: 0 <= i < p.ZipLen() && i != j ==> p.ids[i] != p.ids[j]
    ensures OfObject(ViolationsUpTo(p, k, actualPoss, actualIds, exceeds), p.ids[j])
         == if j < k then Entry(p, j, actualPoss, actualIds, exceeds) else []
  {
    if j >= k {
      ViolationsUpToOtherObjects(p, k, actualPoss, actualIds, exceeds, p.ids[j]);
    } else if j == k - 1 {
      ViolationsUpToOwnEntry(p, k, actualPoss, actualIds, exceeds);
    } else {
      ViolationsUpToSkipEntry(p, k, actualPoss, actualIds, exceeds, p.ids[j]);
      ViolationsUpToOfObject(p, k - 1, actualPoss, actualIds, exceeds, j);
    }
  }

  /**
    Per object, with the predictor's ids duplicate-free as `predict`
    produces them: the violations `detect` reports about a predicted id are
    exactly what its entry yields — nothing when the mask is false; exactly
    one `PresenceViolation` when the id is missing from the actual ids; and
    one `PositionViolation`, against the actual position at the id's first
    index, exactly when the distance exceeds the threshold.
   */
  lemma ViolationsPerObject(p: Prediction, actualPoss: seq<Pos>, actualIds: seq<int>, exceeds: (Pos, Pos) -> bool, k: nat)
    requires |actualIds| <= |actualPoss|
    requires Distinct(p.ids) && k < p.ZipLen()
    ensures var id := p.ids[k];
      var vs := OfObject(ViolationsOf(p, actualPoss, actualIds, exceeds), id);
      && (!p.mask[k] ==> vs == [])
      && (p.mask[k] && id !in actualIds ==> vs == [PresenceViolation(id, p.poss[k])])
      && (p.mask[k] && id in actualIds ==>
            var actual := actualPoss[IndexOf(actualIds, id)];
            vs == if exceeds(actual, p.poss[k]) then [PositionViolation(id, p.poss[k], actual)] else [])
  {
    assert forall i :: 0 <= i < p.ZipLen() && i != k ==> p.ids[i] != p.ids[k] by {
      forall i | 0 <= i < p.ZipLen() && i != k ensures p.ids[i] != p.ids[k] {
        if i < k { assert p.ids[i] != p.ids[k]; } else { assert p.ids[k] != p.ids[i]; }
      }
    }
    ViolationsUpToOfObject(p, p.ZipLen(), actualPoss, actualIds, exceeds, k);
  }

  /**
    Of two violations in `vs`, the earlier one concerns an id that comes
    earlier among the first `p.ZipLen()` ids of the prediction.
   */
  ghost predicate InPredictionOrder(p: Prediction, vs: seq<Violation>) {
    forall a, b, i, j ::
      (0 <= a < b < |vs| && 0 <= i < p.ZipLen() && 0 <= j < p.ZipLen()
       && p.ids[i] == vs[a].objectId && p.ids[j] == vs[b].objectId) ==> i < j
  }

  lemma {:induction false} ViolationsUpToOrdered(p: Prediction, k: nat, actualPoss: seq<Pos>, actualIds: seq<int>,
                                                 exceeds: (Pos, Pos) -> bool)
    requires k <= p.ZipLen() && |actualIds| <= |actualPoss|
    requires Distinct(p.ids)
    ensures InPredictionOrder(p, ViolationsUpTo(p, k, actualPoss, actualIds, exceeds))
  {
    if k > 0 {
      var vs := ViolationsUpTo(p, k, actualPoss, actualIds, exceeds);
      var prev := ViolationsUpTo(p, k - 1, actualPoss, actualIds, exceeds);
      var e := Entry(p, k - 1, actualPoss, actualIds, exceeds);
      ViolationsUpToOrdered(p, k - 1, actualPoss, actualIds, exceeds);
      EntryShape(p.ids[k - 1], p.poss[k - 1], p.mask[k - 1], actualPoss, actualIds, exceeds);
      forall a, b, i, j | 0 <= a < b < |vs| && 0 <= i < p.ZipLen() && 0 <= j < p.ZipLen()
        && p.ids[i] == vs[a].objectId && p.ids[j] == vs[b].objectId
        ensures i < j
      {
        assert vs == prev + e;
        if b < |prev| {
          assert vs[a] == prev[a] && vs[b] == prev[b];
          assert p.ids[i] == prev[a].objectId && p.ids[j] == prev[b].objectId;
          assert InPredictionOrder(p, prev);
        } else {
          assert b == |prev| && vs[b] == e[0];
          assert p.ids[j] == p.ids[k - 1];
          assert j == k - 1;
          assert vs[a] == prev[a];
          ViolationsUpToProvenance(p, k - 1, actualPoss, actualIds, exceeds, prev[a]);
          var i' :| 0 <= i' < k - 1 && p.mask[i'] && p.ids[i'] == prev[a].objectId && p.poss[i'] == prev[a].predPos;
          assert i == i';
        }
      }
    }
  }

  /**
    Violations appear in prediction order: of two violations, the earlier
    one concerns an id that comes earlier in the predictor's id list.
   */
  lemma ViolationsInPredictionOrder(p: Prediction, actualPoss: seq<Pos>, actualIds: seq<int>, exceeds: (Pos, Pos) -> bool)
    requires |actualIds| <= |actualPoss|
    requires Distinct(p.ids)
    ensures InPredictionOrder(p, ViolationsOf(p, actualPoss, actualIds, exceeds))
  {
    assert ViolationsOf(p, actualPoss, actualIds, exceeds) == ViolationsUpTo(p, p.ZipLen(), actualPoss, actualIds, exceeds);
    ViolationsUpToOrdered(p, p.ZipLen(), actualPoss, actualIds, exceeds);
  }

  /**
    A frame has violations exactly when some masked-in entry is either
    missing from the actual ids or displaced beyond the threshold.
   */
  lemma {:induction false} ViolationsNonEmpty(p: Prediction, k: nat, actualPoss: seq<Pos>, actualIds: seq<int>,
                                              exceeds: (Pos, Pos) -> bool)
    requires k <= p.ZipLen() && |actualIds| <= |actualPoss|
    ensures ViolationsUpTo(p, k, actualPoss, actualIds, exceeds) != []
        <==> exists i :: 0 <= i < k && Entry(p, i, actualPoss, actualIds, exceeds) != []
  {
    if k > 0 {
      ViolationsNonEmpty(p, k - 1, actualPoss, actualIds, exceeds);
    }
  }
}
