/**
  The retention policy of `FramewiseVOE._filter_inputs`: the training set
  is drawn from the present observations, latest first, keeping at most
  `maxHistCount` observations of each object and only objects observed at
  least `minHistCount` times in all.

  Everything here is a specification: `SortLatestFirst` is Python's stable
  `sorted(..., key=time, reverse=True)`, `Retain` says declaratively which
  observations the counter loop admits, and `Filtered` composes them. The
  loop itself is `FramewiseVoe.FramewiseVOE.FilterInputs`.
 */
module HistoryFilter {
  import opened Observations

  /** Times never increase along `s`. */
  ghost predicate LatestFirst(s: seq<Obs>) {
    forall i, j :: 0 <= i < j < |s| ==> s[i].time >= s[j].time
  }

  /**
    Puts `x` in front of the first element that is not later than it. Since
    `x` comes before the elements of `s` in the input, this keeps equal
    times in input order.
   */
  function InsertLatestFirst(x: Obs, s: seq<Obs>): seq<Obs> {
    if s == [] || s[0].time <= x.time then [x] + s
    else [s[0]] + InsertLatestFirst(x, s[1..])
  }

  /** Python's `sorted(comb, key=lambda x: x[0], reverse=True)`, a stable sort. */
  function SortLatestFirst(s: seq<Obs>): seq<Obs> {
    if s == [] then [] else InsertLatestFirst(s[0], SortLatestFirst(s[1..]))
  }

  lemma {:induction false} InsertPermutes(x: Obs, s: seq<Obs>)
    ensures multiset(InsertLatestFirst(x, s)) == multiset{x} + multiset(s)
  {
    if s != [] && s[0].time > x.time {
      InsertPermutes(x, s[1..]);
      assert s == [s[0]] + s[1..];
    }
  }

  lemma {:induction false} InsertKeepsLatestFirst(x: Obs, s: seq<Obs>)
    requires LatestFirst(s)
    ensures LatestFirst(InsertLatestFirst(x, s))
  {
    if s != [] && s[0].time > x.time {
      var tail := s[1..];
      InsertKeepsLatestFirst(x, tail);
      InsertPermutes(x, tail);
      var r := InsertLatestFirst(x, tail);
      forall k | 0 <= k < |r|
        ensures s[0].time >= r[k].time
      {
        assert r[k] in multiset(r);
        if r[k] != x {
          assert r[k] in multiset(tail);
          var j :| 0 <= j < |tail| && tail[j] == r[k];
          assert s[j + 1] == r[k];
        }
      }
    }
  }

  lemma {:induction false} InsertCount(x: Obs, s: seq<Obs>, id: int)
    ensures CountId(InsertLatestFirst(x, s), id) == CountId([x], id) + CountId(s, id)
  {
    assert OfId([x], id) == if x.id == id then [x] else [];
    if s != [] && s[0].time > x.time {
      InsertCount(x, s[1..], id);
      assert [s[0]] + InsertLatestFirst(x, s[1..]) == InsertLatestFirst(x, s);
      OfIdConcat([s[0]], InsertLatestFirst(x, s[1..]), id);
      OfIdConcat([s[0]], s[1..], id);
      assert s == [s[0]] + s[1..];
    } else {
      OfIdConcat([x], s, id);
    }
  }

  lemma {:induction false} InsertStable(x: Obs, s: seq<Obs>, t: int)
    requires LatestFirst(s)
    ensures OfTime(InsertLatestFirst(x, s), t) == OfTime([x], t) + OfTime(s, t)
  {
    if s != [] && s[0].time > x.time {
      var head, tail := [s[0]], s[1..];
      assert s == head + tail;
      assert LatestFirst(tail);
      InsertStable(x, tail, t);
      OfTimeConcat(head, InsertLatestFirst(x, tail), t);
      OfTimeConcat(head, tail, t);
      var ox, oh := OfTime([x], t), OfTime(head, t);
      assert ox == if x.time == t then [x] else [];
      assert oh == if s[0].time == t then [s[0]] else [];
      // at most one of `x` and `s[0]` is of time `t`, so their order does not matter
      assert oh + ox == ox + oh;
      calc {
        OfTime(InsertLatestFirst(x, s), t);
        oh + (ox + OfTime(tail, t));
        (oh + ox) + OfTime(tail, t);
        ox + (oh + OfTime(tail, t));
      }
    } else {
      OfTimeConcat([x], s, t);
    }
  }

  /**
    The sort puts the latest observations first, is a permutation of its
    input, and is stable: the observations of any one time keep their input
    order.
   */
  lemma {:induction false} SortLatestFirstCorrect(s: seq<Obs>)
    ensures LatestFirst(SortLatestFirst(s))
    ensures multiset(SortLatestFirst(s)) == multiset(s)
    ensures forall t :: OfTime(SortLatestFirst(s), t) == OfTime(s, t)
    ensures forall id :: CountId(SortLatestFirst(s), id) == CountId(s, id)
  {
    if s != [] {
      var rest := SortLatestFirst(s[1..]);
      SortLatestFirstCorrect(s[1..]);
      InsertKeepsLatestFirst(s[0], rest);
      InsertPermutes(s[0], rest);
      assert s == [s[0]] + s[1..];
      forall t
        ensures OfTime(SortLatestFirst(s), t) == OfTime(s, t)
      {
        InsertStable(s[0], rest, t);
        OfTimeConcat([s[0]], s[1..], t);
      }
      forall id
        ensures CountId(SortLatestFirst(s), id) == CountId(s, id)
      {
        InsertCount(s[0], rest, id);
        OfIdConcat([s[0]], s[1..], id);
      }
    }
  }

  /**
    The observations the walk over a latest-first list `s` admits: one is
    kept exactly when its object is eligible and fewer than `cap`
    observations of that object come before it in `s`.
   */
  function Retain(s: seq<Obs>, eligible: set<int>, cap: int): seq<Obs> {
    if s == [] then []
    else
      var init, x := s[..|s| - 1], s[|s| - 1];
      Retain(init, eligible, cap) + (if x.id in eligible && CountId(init, x.id) < cap then [x] else [])
  }

  lemma {:induction false} RetainMember(s: seq<Obs>, eligible: set<int>, cap: int, x: Obs)
    requires x in Retain(s, eligible, cap)
    ensures x in s && x.id in eligible
  {
    var init, y := s[..|s| - 1], s[|s| - 1];
    var kept := if y.id in eligible && CountId(init, y.id) < cap then [y] else [];
    assert Retain(s, eligible, cap) == Retain(init, eligible, cap) + kept;
    assert s == init + [y];
    if x in Retain(init, eligible, cap) {
      RetainMember(init, eligible, cap, x);
    } else {
      assert x in kept;
    }
  }

  /**
    Of each eligible object, `Retain` keeps exactly its first `cap`
    observations in `s`, in their order there; of any other object, none.
   */
  lemma {:induction false} RetainById(s: seq<Obs>, eligible: set<int>, cap: int, id: int)
    ensures OfId(Retain(s, eligible, cap), id) == if id in eligible then Take(OfId(s, id), cap) else []
  {
    if s != [] {
      var init, x := s[..|s| - 1], s[|s| - 1];
      assert s == init + [x];
      RetainById(init, eligible, cap, id);
      OfIdConcat(init, [x], id);
      var kept := if x.id in eligible && CountId(init, x.id) < cap then [x] else [];
      OfIdConcat(Retain(init, eligible, cap), kept, id);
      assert OfId([x], id) == if x.id == id then [x] else [];
      assert OfId([], id) == [];
    }
  }

  /**
    One step of the walk: the next observation is admitted exactly when its
    object is eligible and fewer than `cap` of its observations have been
    admitted so far, which is the counter `_filter_inputs` keeps.
   */
  lemma RetainStep(s: seq<Obs>, x: Obs, eligible: set<int>, cap: int)
    ensures Retain(s + [x], eligible, cap)
         == Retain(s, eligible, cap) + (if x.id in eligible && CountId(Retain(s, eligible, cap), x.id) < cap then [x] else [])
  {
    assert (s + [x])[..|s|] == s;
    RetainById(s, eligible, cap, x.id);
  }

  lemma {:induction false} RetainKeepsLatestFirst(s: seq<Obs>, eligible: set<int>, cap: int)
    requires LatestFirst(s)
    ensures LatestFirst(Retain(s, eligible, cap))
  {
    if s != [] {
      var init, x := s[..|s| - 1], s[|s| - 1];
      RetainKeepsLatestFirst(init, eligible, cap);
      var r := Retain(init, eligible, cap);
      forall k | 0 <= k < |r|
        ensures r[k].time >= x.time
      {
        RetainMember(init, eligible, cap, r[k]);
        var j :| 0 <= j < |init| && init[j] == r[k];
        assert s[j] == r[k];
      }
    }
  }

  /** The ids `_filter_inputs` marks valid in `obj_valid`. */
  function EligibleIds(obs: seq<Obs>, minHistCount: int): set<int> {
    set id | id in IdSet(obs) && CountId(obs, id) >= minHistCount
  }

  /** What `_filter_inputs` returns for the present observations `obs`. */
  function Filtered(obs: seq<Obs>, minHistCount: int, maxHistCount: int): seq<Obs> {
    if obs == [] then []
    else Retain(SortLatestFirst(obs), EligibleIds(obs, minHistCount), maxHistCount)
  }

  lemma EligibleIdsCount(obs: seq<Obs>, minHistCount: int, id: int)
    ensures id in EligibleIds(obs, minHistCount) <==> CountId(obs, id) >= minHistCount && CountId(obs, id) >= 1
  {
    IdSetCount(obs, id);
  }

  /** Only observations of eligible objects survive, and nothing is invented. */
  lemma FilteredEligible(obs: seq<Obs>, minHistCount: int, maxHistCount: int, x: Obs)
    requires x in Filtered(obs, minHistCount, maxHistCount)
    ensures x in obs
    ensures CountId(obs, x.id) >= minHistCount
  {
    var sorted := SortLatestFirst(obs);
    RetainMember(sorted, EligibleIds(obs, minHistCount), maxHistCount, x);
    SortLatestFirstCorrect(obs);
    assert x in multiset(sorted);
    EligibleIdsCount(obs, minHistCount, x.id);
  }

  /**
    Per object, the filter keeps the first `maxHistCount` observations of
    the latest-first order when the object is eligible, and none otherwise.
   */
  lemma FilteredPerId(obs: seq<Obs>, minHistCount: int, maxHistCount: int, id: int)
    ensures OfId(Filtered(obs, minHistCount, maxHistCount), id)
         == if CountId(obs, id) >= minHistCount then Take(OfId(SortLatestFirst(obs), id), maxHistCount) else []
  {
    if obs != [] {
      var e := EligibleIds(obs, minHistCount);
      RetainById(SortLatestFirst(obs), e, maxHistCount, id);
      EligibleIdsCount(obs, minHistCount, id);
      SortLatestFirstCorrect(obs);
    }
  }

  /**
    Per object, the filter keeps min(total, maxHistCount) observations when
    the object has at least minHistCount of them, and none otherwise.
   */
  lemma FilteredCount(obs: seq<Obs>, minHistCount: int, maxHistCount: int, id: int)
    ensures CountId(Filtered(obs, minHistCount, maxHistCount), id)
         == if CountId(obs, id) >= minHistCount then Min(CountId(obs, id), Max(maxHistCount, 0)) else 0
    ensures CountId(Filtered(obs, minHistCount, maxHistCount), id) <= Max(maxHistCount, 0)
  {
    FilteredPerId(obs, minHistCount, maxHistCount, id);
    SortLatestFirstCorrect(obs);
  }

  /** The filter's output is ordered latest first. */
  lemma FilteredLatestFirst(obs: seq<Obs>, minHistCount: int, maxHistCount: int)
    ensures LatestFirst(Filtered(obs, minHistCount, maxHistCount))
  {
    if obs != [] {
      SortLatestFirstCorrect(obs);
      RetainKeepsLatestFirst(SortLatestFirst(obs), EligibleIds(obs, minHistCount), maxHistCount);
    }
  }

  lemma {:induction false} OfIdKeepsLatestFirst(s: seq<Obs>, id: int)
    requires LatestFirst(s)
    ensures LatestFirst(OfId(s, id))
  {
    if s != [] {
      OfIdKeepsLatestFirst(s[1..], id);
      var rest := OfId(s[1..], id);
      forall k | 0 <= k < |rest|
        ensures s[0].time >= rest[k].time
      {
        OfIdMember(s[1..], id, rest[k]);
        var j :| 0 <= j < |s[1..]| && s[1..][j] == rest[k];
        assert s[j + 1] == rest[k];
      }
    }
  }

  lemma LaterInPrefix(q: seq<Obs>, n: int, x: Obs, y: Obs)
    requires LatestFirst(q)
    requires x in Take(q, n) && y in q && y.time > x.time
    ensures y in Take(q, n)
  {
    var kept := Take(q, n);
    var i :| 0 <= i < |kept| && kept[i] == x;
    var j :| 0 <= j < |q| && q[j] == y;
    assert q[i] == x;
    assert j < i;
    assert kept[j] == y;
  }

  /**
    Recency: whenever an observation of an object is kept, every strictly
    later observation of the same object is kept too.
   */
  lemma FilteredRecency(obs: seq<Obs>, minHistCount: int, maxHistCount: int, x: Obs, y: Obs)
    requires x in Filtered(obs, minHistCount, maxHistCount)
    requires y in obs && y.id == x.id && y.time > x.time
    ensures y in Filtered(obs, minHistCount, maxHistCount)
  {
    var f := Filtered(obs, minHistCount, maxHistCount);
    var sorted := SortLatestFirst(obs);
    var q := OfId(sorted, x.id);
    SortLatestFirstCorrect(obs);
    OfIdKeepsLatestFirst(sorted, x.id);
    FilteredPerId(obs, minHistCount, maxHistCount, x.id);
    OfIdMember(f, x.id, x);
    assert OfId(f, x.id) == Take(q, maxHistCount);
    assert y in multiset(sorted);
    OfIdMember(sorted, x.id, y);
    LaterInPrefix(q, maxHistCount, x, y);
    OfIdMember(f, x.id, y);
  }

  /** `a` is `b` with some elements dropped and the rest kept in order (matched from the back). */
  function IsSubseq(a: seq<Obs>, b: seq<Obs>): bool {
    if a == [] then true
    else if b == [] then false
    else if a[|a| - 1] == b[|b| - 1] then IsSubseq(a[..|a| - 1], b[..|b| - 1])
    else IsSubseq(a, b[..|b| - 1])
  }

  lemma {:induction false} SubseqDropLast(a: seq<Obs>, b: seq<Obs>)
    requires a != [] && IsSubseq(a, b)
    ensures IsSubseq(a[..|a| - 1], b)
    decreases |a| + |b|
  {
    var bi := b[..|b| - 1];
    if a[|a| - 1] == b[|b| - 1] {
      SubseqExtend(a[..|a| - 1], bi, b[|b| - 1]);
      assert bi + [b[|b| - 1]] == b;
    } else {
      SubseqDropLast(a, bi);
      SubseqExtend(a[..|a| - 1], bi, b[|b| - 1]);
      assert bi + [b[|b| - 1]] == b;
    }
  }

  lemma {:induction false} SubseqExtend(a: seq<Obs>, b: seq<Obs>, x: Obs)
    requires IsSubseq(a, b)
    ensures IsSubseq(a, b + [x])
    decreases |a| + |b| + 1
  {
    assert (b + [x])[..|b|] == b;
    if a != [] && a[|a| - 1] == x {
      SubseqDropLast(a, b);
    }
  }

  lemma SubseqAppendBoth(a: seq<Obs>, b: seq<Obs>, x: Obs)
    requires IsSubseq(a, b)
    ensures IsSubseq(a + [x], b + [x])
  {
    assert (a + [x])[..|a|] == a;
    assert (b + [x])[..|b|] == b;
  }

  lemma OfTimeSingle(x: Obs, t: int)
    ensures OfTime([x], t) == if x.time == t then [x] else []
  {
    assert OfTime([x], t) == (if x.time == t then [x] else []) + OfTime([], t);
  }

  /** Appending `x` to the input, and either `x` or nothing to the output, keeps the per-time subsequence. */
  lemma TimeSubseqStep(a: seq<Obs>, b: seq<Obs>, x: Obs, kept: seq<Obs>, t: int)
    requires IsSubseq(a, b)
    requires kept == [] || kept == [x]
    ensures IsSubseq(a + OfTime(kept, t), b + OfTime([x], t))
  {
    OfTimeSingle(x, t);
    if kept == [x] && x.time == t {
      SubseqAppendBoth(a, b, x);
    } else if x.time == t {
      assert OfTime(kept, t) == [];
      assert a + [] == a;
      SubseqExtend(a, b, x);
    } else {
      assert OfTime(kept, t) == [];
      assert a + [] == a && b + [] == b;
    }
  }

  /** Per time, `Retain` keeps a subsequence of its input. */
  lemma {:induction false} RetainKeepsTimeOrder(s: seq<Obs>, eligible: set<int>, cap: int, t: int)
    ensures IsSubseq(OfTime(Retain(s, eligible, cap), t), OfTime(s, t))
  {
    if s != [] {
      var init, x := s[..|s| - 1], s[|s| - 1];
      assert s == init + [x];
      var kept := if x.id in eligible && CountId(init, x.id) < cap then [x] else [];
      assert Retain(s, eligible, cap) == Retain(init, eligible, cap) + kept;
      RetainKeepsTimeOrder(init, eligible, cap, t);
      OfTimeConcat(Retain(init, eligible, cap), kept, t);
      OfTimeConcat(init, [x], t);
      TimeSubseqStep(OfTime(Retain(init, eligible, cap), t), OfTime(init, t), x, kept, t);
    }
  }

  /**
    Observations of one time keep their input order through the filter: the
    sort is stable and the walk only drops observations.
   */
  lemma FilteredKeepsTimeOrder(obs: seq<Obs>, minHistCount: int, maxHistCount: int, t: int)
    ensures IsSubseq(OfTime(Filtered(obs, minHistCount, maxHistCount), t), OfTime(obs, t))
  {
    if obs != [] {
      SortLatestFirstCorrect(obs);
      RetainKeepsTimeOrder(SortLatestFirst(obs), EligibleIds(obs, minHistCount), maxHistCount, t);
    }
  }
}
