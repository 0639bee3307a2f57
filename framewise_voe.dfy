/**
  `FramewiseVOE`, the scene-scoped engine of `physicsvoe/framewisevoe.py`.
  It records one frame of observations per time (`RecordObs`), and for a
  query time predicts where every object ever seen should be and compares
  that with the actual observations (`Predict`, `Detect`).

  The learned predictor is the function-valued field `net`: from the
  training observations and the query (times, ids) it returns one position
  per query entry. The engine relies on nothing else about it.
 */
module FramewiseVoe {
  import opened Wrappers
  import opened Observations
  import opened HistoryFilter
  import opened Violations

  /**
    The position predictor: (training observations, query times, query ids)
    to predicted positions, meant to be aligned 1:1 with the query.
   */
  type Predictor = (seq<Obs>, seq<int>, seq<int>) -> seq<Pos>

  /** What `_get_targets` returns: the query times and ids. */
  datatype Query = Query(times: seq<int>, ids: seq<int>)

  /** The present observations among the first `k` zipped entries of frame `f`, recorded at time `t`. */
  function FrameObs(t: int, f: Frame, k: nat): seq<Obs>
    requires k <= f.ZipLen()
  {
    if k == 0 then []
    else FrameObs(t, f, k - 1) + (if f.present[k - 1] then [Obs(t, f.ids[k - 1], f.pos[k - 1])] else [])
  }

  /** The flattened history `_get_inputs` builds, frame by frame in the dictionary's insertion order `order`. */
  function HistoryObs(order: seq<int>, h: map<int, Frame>): seq<Obs>
    requires forall t :: t in order ==> t in h
  {
    if order == [] then []
    else
      var t := order[|order| - 1];
      HistoryObs(order[..|order| - 1], h) + FrameObs(t, h[t], h[t].ZipLen())
  }

  /** The union of the id lists of the frames recorded at the times in `order`, present or not. */
  function RegistryOf(order: seq<int>, h: map<int, Frame>): set<int>
    requires forall t :: t in order ==> t in h
  {
    if order == [] then {}
    else
      var t := order[|order| - 1];
      RegistryOf(order[..|order| - 1], h) + set id | id in h[t].ids
  }

  /** `x` is a present, zipped entry of the frame recorded at `x.time`. */
  ghost predicate RecordedPresent(h: map<int, Frame>, x: Obs) {
    x.time in h &&
    exists k :: 0 <= k < h[x.time].ZipLen() && h[x.time].present[k] && h[x.time].ids[k] == x.id && h[x.time].pos[k] == x.pos
  }

  lemma {:induction false} FrameObsSound(t: int, f: Frame, k: nat, x: Obs)
    requires k <= f.ZipLen()
    requires x in FrameObs(t, f, k)
    ensures x.time == t
    ensures exists i :: 0 <= i < k && f.present[i] && f.ids[i] == x.id && f.pos[i] == x.pos
  {
    if x !in FrameObs(t, f, k - 1) {
      assert f.present[k - 1] && x == Obs(t, f.ids[k - 1], f.pos[k - 1]);
    } else {
      FrameObsSound(t, f, k - 1, x);
    }
  }

  lemma {:induction false} FrameObsComplete(t: int, f: Frame, k: nat, i: nat)
    requires i < k <= f.ZipLen() && f.present[i]
    ensures Obs(t, f.ids[i], f.pos[i]) in FrameObs(t, f, k)
  {
    if i < k - 1 {
      FrameObsComplete(t, f, k - 1, i);
    }
  }

  /**
    Training candidates are only present observations: every observation in
    the flattened history is a present entry of a frame recorded at its time.
   */
  lemma {:induction false} HistoryObsPresentOnly(order: seq<int>, h: map<int, Frame>, x: Obs)
    requires forall t :: t in order ==> t in h
    requires x in HistoryObs(order, h)
    ensures x.time in order && RecordedPresent(h, x)
  {
    var init, t := order[..|order| - 1], order[|order| - 1];
    if x in HistoryObs(init, h) {
      HistoryObsPresentOnly(init, h, x);
    } else {
      FrameObsSound(t, h[t], h[t].ZipLen(), x);
    }
  }

  /** And every present entry of a recorded frame is a training candidate. */
  lemma {:induction false} HistoryObsComplete(order: seq<int>, h: map<int, Frame>, t: int, i: nat)
    requires forall t :: t in order ==> t in h
    requires t in order && i < h[t].ZipLen() && h[t].present[i]
    ensures Obs(t, h[t].ids[i], h[t].pos[i]) in HistoryObs(order, h)
  {
    var init, last := order[..|order| - 1], order[|order| - 1];
    assert order == init + [last];
    if t == last {
      FrameObsComplete(t, h[t], h[t].ZipLen(), i);
    } else {
      HistoryObsComplete(init, h, t, i);
    }
  }

  /**
    The registry holds exactly the ids of the recorded frames, whether or
    not they were present.
   */
  lemma {:induction false} RegistryOfMembers(order: seq<int>, h: map<int, Frame>, id: int)
    requires forall t :: t in order ==> t in h
    ensures id in RegistryOf(order, h) <==> exists t :: t in order && id in h[t].ids
  {
    if order != [] {
      var init, last := order[..|order| - 1], order[|order| - 1];
      assert order == init + [last];
      RegistryOfMembers(init, h, id);
      if id in RegistryOf(order, h) && id !in RegistryOf(init, h) {
        assert id in h[last].ids;
      }
      if exists t :: t in order && id in h[t].ids {
        var t :| t in order && id in h[t].ids;
        if t != last {
          assert t in init;
        }
      }
    }
  }

  lemma {:induction false} RegistryOfUnchanged(order: seq<int>, h: map<int, Frame>, t: int, f: Frame)
    requires forall u :: u in order ==> u in h
    requires t !in order
    ensures RegistryOf(order, h[t := f]) == RegistryOf(order, h)
  {
    if order != [] {
      RegistryOfUnchanged(order[..|order| - 1], h, t, f);
    }
  }

  lemma {:induction false} HistoryObsUnchanged(order: seq<int>, h: map<int, Frame>, t: int, f: Frame)
    requires forall u :: u in order ==> u in h
    requires t !in order
    ensures HistoryObs(order, h[t := f]) == HistoryObs(order, h)
  {
    if order != [] {
      HistoryObsUnchanged(order[..|order| - 1], h, t, f);
    }
  }

  /**
    Every training observation is a present entry of a recorded frame, and
    its object has at least `minHistCount` present observations in the
    history.
   */
  lemma InputsPresentOnly(order: seq<int>, h: map<int, Frame>, minHistCount: int, maxHistCount: int, x: Obs)
    requires forall t :: t in order ==> t in h
    requires x in Filtered(HistoryObs(order, h), minHistCount, maxHistCount)
    ensures x.time in order && RecordedPresent(h, x)
    ensures CountId(HistoryObs(order, h), x.id) >= minHistCount
  {
    FilteredEligible(HistoryObs(order, h), minHistCount, maxHistCount, x);
    HistoryObsPresentOnly(order, h, x);
  }

  /**
    An object is backed by training history (its id occurs in the filtered
    inputs) exactly when it has at least max(minHistCount, 1) present
    observations and the cap admits at least one.
   */
  lemma BackedIffEligible(obs: seq<Obs>, minHistCount: int, maxHistCount: int, id: int)
    ensures id in IdSet(Filtered(obs, minHistCount, maxHistCount))
        <==> CountId(obs, id) >= Max(minHistCount, 1) && maxHistCount >= 1
  {
    FilteredCount(obs, minHistCount, maxHistCount, id);
    IdSetCount(Filtered(obs, minHistCount, maxHistCount), id);
  }

  /**
    The filtered inputs are empty, and so `predict` has no opinion, exactly
    when no object is backed by enough history.
   */
  lemma FilteredEmptyIff(obs: seq<Obs>, minHistCount: int, maxHistCount: int)
    ensures Filtered(obs, minHistCount, maxHistCount) == []
        <==> forall id :: !(CountId(obs, id) >= Max(minHistCount, 1) && maxHistCount >= 1)
  {
    var f := Filtered(obs, minHistCount, maxHistCount);
    if f != [] {
      assert f[0].id in IdSet(f);
      BackedIffEligible(obs, minHistCount, maxHistCount, f[0].id);
    } else {
      forall id
        ensures !(CountId(obs, id) >= Max(minHistCount, 1) && maxHistCount >= 1)
      {
        BackedIffEligible(obs, minHistCount, maxHistCount, id);
      }
    }
  }

  /** A per-object counter as `_filter_inputs` keeps it: a missing key reads as zero. */
  function Counter(count: map<int, nat>, id: int): nat {
    if id in count then count[id] else 0
  }

  /** Bumping the counter of `x.id` keeps the counters equal to the per-object counts of the admitted list. */
  lemma CounterStep(count: map<int, nat>, r: seq<Obs>, x: Obs)
    requires forall id :: Counter(count, id) == CountId(r, id)
    ensures forall id :: Counter(count[x.id := Counter(count, x.id) + 1], id) == CountId(r + [x], id)
  {
    forall id
      ensures Counter(count[x.id := Counter(count, x.id) + 1], id) == CountId(r + [x], id)
    {
      CountAppend(r, x, id);
    }
  }

  /**
    One iteration of the `_filter_inputs` walk keeps its invariant: the
    admitted list is `Retain` of the visited prefix and the counters are
    its per-object counts.
   */
  lemma FilterStep(comb: seq<Obs>, i: nat, valid: set<int>, cap: int, r: seq<Obs>, count: map<int, nat>)
    requires i < |comb|
    requires r == Retain(comb[..i], valid, cap)
    requires forall id :: Counter(count, id) == CountId(r, id)
    ensures var x := comb[i];
      var c := Counter(count, x.id);
      && (c < cap && x.id in valid ==>
            Retain(comb[..i + 1], valid, cap) == r + [x]
            && forall id :: Counter(count[x.id := c + 1], id) == CountId(r + [x], id))
      && (!(c < cap && x.id in valid) ==> Retain(comb[..i + 1], valid, cap) == r)
  {
    var x := comb[i];
    assert comb[..i + 1] == comb[..i] + [x];
    RetainStep(comb[..i], x, valid, cap);
    CounterStep(count, r, x);
  }

  /**
    The walk of `_filter_inputs` over the latest-first list `comb`, with a
    counter per object: an observation is admitted while its counter is
    below `cap` and its object is valid.
   */
  method AdmitLatest(comb: seq<Obs>, valid: set<int>, cap: int) returns (r: seq<Obs>)
    ensures r == Retain(comb, valid, cap)
  {
    var count: map<int, nat> := map[];
    r := [];
    var i := 0;
    while i < |comb|
      invariant 0 <= i <= |comb|
      invariant r == Retain(comb[..i], valid, cap)
      invariant forall id :: Counter(count, id) == CountId(r, id)
    {
      var x := comb[i];
      var c := Counter(count, x.id);
      FilterStep(comb, i, valid, cap, r, count);
      if c < cap && x.id in valid {
        r := r + [x];
        count := count[x.id := c + 1];
      }
      i := i + 1;
    }
    assert comb[..i] == comb;
  }

  class FramewiseVOE {
    /** `frame_history`: time to the frame recorded then. */
    var frameHistory: map<int, Frame>
    /** The insertion order of `frameHistory`'s keys, which Python's dict keeps. */
    var timeOrder: seq<int>
    /** `all_ids`: every id ever recorded. */
    var allIds: set<int>
    const minHistCount: int
    const maxHistCount: int
    const distThresh: real
    const net: Predictor
    /** Python's iteration order over a set of ids, as `list(self.all_ids)` exposes it. */
    const listIds: set<int> -> seq<int>

    /**
      No time is recorded twice, `timeOrder` enumerates the recorded times,
      and the registry is the union of all recorded id lists.
     */
    ghost predicate Valid()
      reads this
    {
      && Distinct(timeOrder)
      && (forall t :: t in timeOrder <==> t in frameHistory)
      && allIds == RegistryOf(timeOrder, frameHistory)
      && IsListing(listIds)
    }

    /** The training observations `_get_inputs` yields, or `None` when the filter leaves none. */
    ghost function Inputs(): Option<seq<Obs>>
      reads this
      requires Valid()
    {
      var f := Filtered(HistoryObs(timeOrder, frameHistory), minHistCount, maxHistCount);
      if f == [] then None else Some(f)
    }

    /**
      What `predict(time)` returns. `None` exactly when there are no
      training inputs, before the net is consulted. Otherwise the query is
      a duplicate-free enumeration of the registry, the positions are the
      net's answer to it, and an entry is masked in exactly when its id
      occurs in the training inputs.
     */
    ghost function PredictionAt(time: int): (r: Option<Prediction>)
      reads this
      requires Valid()
      ensures r.None? <==> Inputs().None?
      ensures r.Some? ==>
        && Distinct(r.value.ids)
        && (forall id :: id in r.value.ids <==> id in allIds)
        && |r.value.mask| == |r.value.ids|
        && (forall k :: 0 <= k < |r.value.ids| ==> (r.value.mask[k] <==> r.value.ids[k] in IdSet(Inputs().value)))
        && r.value.poss == net(Inputs().value, GetTargets(time).times, r.value.ids)
    {
      match Inputs()
      case None => None
      case Some(training) =>
        var q := GetTargets(time);
        Some(Prediction(q.ids, net(training, q.times, q.ids),
                        seq(|q.ids|, k requires 0 <= k < |q.ids| => q.ids[k] in IdSet(training))))
    }

    constructor (minHistCount: int, maxHistCount: int, distThresh: real, net: Predictor, listIds: set<int> -> seq<int>)
      requires IsListing(listIds)
      ensures Valid()
      ensures frameHistory == map[] && timeOrder == [] && allIds == {}
      ensures this.minHistCount == minHistCount && this.maxHistCount == maxHistCount
      ensures this.distThresh == distThresh && this.net == net && this.listIds == listIds
      ensures Inputs() == None
    {
      frameHistory := map[];
      timeOrder := [];
      allIds := {};
      this.minHistCount := minHistCount;
      this.maxHistCount := maxHistCount;
      this.distThresh := distThresh;
      this.net := net;
      this.listIds := listIds;
    }

    /**
      `record_obs`. Recording a time that is already recorded fails its
      assertion: `ok` is false and nothing changes. Otherwise the time maps
      to exactly the given frame, every other time is untouched, the
      registry grows by all the given ids (present or not), and the training
      candidates grow by the frame's present entries.
     */
    method RecordObs(time: int, ids: seq<int>, pos: seq<Pos>, present: seq<bool>) returns (ok: bool)
      requires Valid()
      modifies this
      ensures Valid()
      ensures ok <==> time !in old(frameHistory)
      ensures ok ==> frameHistory == old(frameHistory)[time := Frame(ids, pos, present)]
      ensures ok ==> timeOrder == old(timeOrder) + [time]
      ensures ok ==> allIds == old(allIds) + set id | id in ids
      ensures ok ==> (HistoryObs(timeOrder, frameHistory)
                      == old(HistoryObs(timeOrder, frameHistory)) + FrameObs(time, Frame(ids, pos, present), Frame(ids, pos, present).ZipLen()))
      ensures !ok ==> frameHistory == old(frameHistory) && timeOrder == old(timeOrder) && allIds == old(allIds)
      ensures old(allIds) <= allIds
    {
      if time in frameHistory {
        return false;
      }
      var f := Frame(ids, pos, present);
      RegistryOfUnchanged(timeOrder, frameHistory, time, f);
      HistoryObsUnchanged(timeOrder, frameHistory, time, f);
      var newOrder := timeOrder + [time];
      assert newOrder[..|newOrder| - 1] == timeOrder;
      frameHistory := frameHistory[time := f];
      timeOrder := newOrder;
      allIds := allIds + set id | id in ids;
      ok := true;
    }

    /** `_filter_inputs`. */
    method FilterInputs(obs: seq<Obs>) returns (r: seq<Obs>)
      ensures r == Filtered(obs, minHistCount, maxHistCount)
    {
      if |obs| == 0 {
        return obs;
      }
      // `obj_valid`, held as the set of ids it maps to true
      var valid := EligibleIds(obs, minHistCount);
      var comb := SortLatestFirst(obs);
      r := AdmitLatest(comb, valid, maxHistCount);
    }

    /** `_get_inputs`: flatten the history, keeping present entries, then filter. */
    method GetInputs() returns (r: Option<seq<Obs>>)
      requires Valid()
      ensures r == Inputs()
    {
      var obs: seq<Obs> := [];
      var i := 0;
      while i < |timeOrder|
        invariant 0 <= i <= |timeOrder|
        invariant obs == HistoryObs(timeOrder[..i], frameHistory)
      {
        var t := timeOrder[i];
        var f := frameHistory[t];
        var k := 0;
        while k < f.ZipLen()
          invariant 0 <= k <= f.ZipLen()
          invariant obs == HistoryObs(timeOrder[..i], frameHistory) + FrameObs(t, f, k)
        {
          if f.present[k] {
            obs := obs + [Obs(t, f.ids[k], f.pos[k])];
          }
          k := k + 1;
        }
        assert timeOrder[..i + 1][..i] == timeOrder[..i];
        i := i + 1;
      }
      assert timeOrder[..i] == timeOrder;
      var filtered := FilterInputs(obs);
      if |filtered| == 0 {
        r := None;
      } else {
        r := Some(filtered);
      }
    }

    /**
      `_get_targets`: one query entry per registered id, in some
      duplicate-free order, every one at the given time.
     */
    function GetTargets(time: int): (q: Query)
      reads this
      requires Valid()
      ensures |q.ids| == |allIds| && |q.times| == |q.ids|
      ensures Distinct(q.ids) && forall id :: id in q.ids <==> id in allIds
      ensures forall k :: 0 <= k < |q.times| ==> q.times[k] == time
    {
      var ids := listIds(allIds);
      Query(seq(|ids|, _ => time), ids)
    }

    /** `predict`. */
    method Predict(time: int) returns (r: Option<Prediction>)
      requires Valid()
      ensures r == PredictionAt(time)
    {
      var inputs := GetInputs();
      if inputs.None? {
        return None;
      }
      var training := inputs.value;
      var q := GetTargets(time);
      var poss := net(training, q.times, q.ids);
      var trainingIds := IdSet(training);
      var mask := seq(|q.ids|, k requires 0 <= k < |q.ids| => q.ids[k] in trainingIds);
      r := Some(Prediction(q.ids, poss, mask));
    }

    /**
      `detect`: `None` exactly when `predict` has no opinion; otherwise the
      violations of the masked-in prediction entries, in prediction order.
     */
    method Detect(time: int, actualPoss: seq<Pos>, actualIds: seq<int>) returns (r: Option<seq<Violation>>)
      requires Valid()
      requires |actualIds| <= |actualPoss|
      ensures r.None? <==> PredictionAt(time).None?
      ensures r.Some? ==> r.value == ViolationsOf(PredictionAt(time).value, actualPoss, actualIds, DistanceTest(distThresh))
    {
      var pred := Predict(time);
      if pred.None? {
        return None;
      }
      var violations := CompareWithActual(pred.value, actualPoss, actualIds, distThresh);
      r := Some(violations);
    }
  }
}
