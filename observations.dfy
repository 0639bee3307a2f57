/**
  Values shared by the frame-wise violation-of-expectation engine:
  positions, per-frame records, observations, and the small sequence
  helpers (filtering by object id or by time, counting, enumeration of a
  set of ids) in terms of which the engine is specified.
 */
module Observations {

  /** A 3-D world position. Coordinates are reals: floating point is not modelled. */
  datatype Pos = Pos(x: real, y: real, z: real)

  /** Squared Euclidean distance between two positions. */
  function SqDist(a: Pos, b: Pos): (d: real)
    ensures d >= 0.0
  {
    var dx, dy, dz := a.x - b.x, a.y - b.y, a.z - b.z;
    dx * dx + dy * dy + dz * dz
  }

  /**
    What `record_obs` stores for one time: three parallel lists of object
    ids, positions and presence flags.
   */
  datatype Frame = Frame(ids: seq<int>, pos: seq<Pos>, present: seq<bool>) {
    /** The number of entries Python's `zip` over the three lists yields. */
    function ZipLen(): (n: nat)
      ensures n <= |ids| && n <= |pos| && n <= |present|
      ensures n == |ids| || n == |pos| || n == |present|
    {
      Min(|ids|, Min(|pos|, |present|))
    }
  }

  /** One training observation: the triple (time, id, position) the engine feeds the predictor. */
  datatype Obs = Obs(time: int, id: int, pos: Pos)

  function Min(a: int, b: int): int { if a <= b then a else b }

  function Max(a: int, b: int): int { if a <= b then b else a }

  /** No element occurs twice. */
  ghost predicate Distinct<T>(s: seq<T>) {
    forall i, j :: 0 <= i < j < |s| ==> s[i] != s[j]
  }

  /** The observations of object `id`, in their order in `s`. */
  function OfId(s: seq<Obs>, id: int): seq<Obs> {
    if s == [] then [] else (if s[0].id == id then [s[0]] else []) + OfId(s[1..], id)
  }

  /** The observations made at time `t`, in their order in `s`. */
  function OfTime(s: seq<Obs>, t: int): seq<Obs> {
    if s == [] then [] else (if s[0].time == t then [s[0]] else []) + OfTime(s[1..], t)
  }

  /** Python's `id_l.count(id)`. */
  function CountId(s: seq<Obs>, id: int): nat {
    |OfId(s, id)|
  }

  /** Python's `set(id_l)`. */
  function IdSet(s: seq<Obs>): set<int> {
    set o | o in s :: o.id
  }

  /** The first `n` elements of `q`, or all of them when there are fewer (Python's slice `q[:n]` for n >= 0). */
  function Take<T>(q: seq<T>, n: int): (r: seq<T>)
    ensures |r| == if n <= 0 then 0 else Min(|q|, n)
    ensures r == q[..|r|]
  {
    if n <= 0 then [] else if |q| <= n then q else q[..n]
  }

  lemma {:induction false} OfIdConcat(a: seq<Obs>, b: seq<Obs>, id: int)
    ensures OfId(a + b, id) == OfId(a, id) + OfId(b, id)
  {
    if a == [] {
      assert a + b == b;
    } else {
      var c, h := a + b, if a[0].id == id then [a[0]] else [];
      assert c[0] == a[0] && c[1..] == a[1..] + b;
      OfIdConcat(a[1..], b, id);
      assert OfId(c, id) == h + (OfId(a[1..], id) + OfId(b, id));
      assert h + (OfId(a[1..], id) + OfId(b, id)) == (h + OfId(a[1..], id)) + OfId(b, id);
    }
  }

  lemma {:induction false} OfTimeConcat(a: seq<Obs>, b: seq<Obs>, t: int)
    ensures OfTime(a + b, t) == OfTime(a, t) + OfTime(b, t)
  {
    if a == [] {
      assert a + b == b;
    } else {
      var c, h := a + b, if a[0].time == t then [a[0]] else [];
      assert c[0] == a[0] && c[1..] == a[1..] + b;
      OfTimeConcat(a[1..], b, t);
      assert OfTime(c, t) == h + (OfTime(a[1..], t) + OfTime(b, t));
      assert h + (OfTime(a[1..], t) + OfTime(b, t)) == (h + OfTime(a[1..], t)) + OfTime(b, t);
    }
  }

  lemma CountAppend(s: seq<Obs>, x: Obs, id: int)
    ensures CountId(s + [x], id) == CountId(s, id) + (if x.id == id then 1 else 0)
  {
    OfIdConcat(s, [x], id);
    assert OfId([x], id) == (if x.id == id then [x] else []) + OfId([], id);
  }

  /** `OfId` keeps exactly the observations of `id`. */
  lemma {:induction false} OfIdMember(s: seq<Obs>, id: int, x: Obs)
    ensures x in OfId(s, id) <==> x in s && x.id == id
  {
    if s != [] {
      OfIdMember(s[1..], id, x);
      assert s == [s[0]] + s[1..];
    }
  }

  /** An id occurs in a list exactly when its count there is positive. */
  lemma {:induction false} IdSetCount(s: seq<Obs>, id: int)
    ensures id in IdSet(s) <==> CountId(s, id) >= 1
  {
    if CountId(s, id) >= 1 {
      var o := OfId(s, id)[0];
      OfIdMember(s, id, o);
      assert o.id in IdSet(s);
    } else {
      forall o | o in s
        ensures o.id != id
      {
        OfIdMember(s, id, o);
      }
    }
  }

  lemma NonEmptyHasMember(s: set<int>)
    requires |s| > 0
    ensures exists m :: m in s
  {
    if forall m :: m !in s {
      assert false;
    }
  }

  lemma {:induction false} LeastExists(s: set<int>)
    requires |s| > 0
    ensures exists m :: m in s && forall y :: y in s ==> m <= y
    decreases |s|
  {
    NonEmptyHasMember(s);
    var x :| x in s;
    var rest := s - {x};
    if rest == {} {
      forall y | y in s
        ensures x <= y
      {
        assert y !in rest;
      }
    } else {
      LeastExists(rest);
      var m :| m in rest && forall y :: y in rest ==> m <= y;
      var least := if x < m then x else m;
      forall y | y in s
        ensures least <= y
      {
        if y != x {
          assert y in rest;
        }
      }
    }
  }

  /** `r` lists every member of `s` exactly once, in some order. */
  ghost predicate Lists(r: seq<int>, s: set<int>) {
    |r| == |s| && Distinct(r) && forall id :: id in r <==> id in s
  }

  /**
    What Python promises of `list(s)` for a set `s` of ids: each member
    exactly once, in an order the language leaves unspecified.
   */
  ghost predicate IsListing(listing: set<int> -> seq<int>) {
    forall s :: Lists(listing(s), s)
  }

  /** The elements of `r` strictly increase. */
  ghost predicate Ascending(r: seq<int>) {
    forall i, j :: 0 <= i < j < |r| ==> r[i] < r[j]
  }

  /** One admissible listing of a set of ids: ascending order. */
  function Enumerate(s: set<int>): (r: seq<int>)
    ensures Lists(r, s) && Ascending(r)
    decreases |s|
  {
    if s == {} then []
    else
      assert |s| > 0;
      LeastExists(s);
      var m :| m in s && forall y :: y in s ==> m <= y;
      var rest := Enumerate(s - {m});
      ListLeastFirst(s, m, rest);
      [m] + rest
  }

  /** Putting the least member in front of an ascending listing of the others lists the whole set in ascending order. */
  lemma ListLeastFirst(s: set<int>, m: int, rest: seq<int>)
    requires m in s && forall y :: y in s ==> m <= y
    requires Lists(rest, s - {m}) && Ascending(rest)
    ensures Lists([m] + rest, s) && Ascending([m] + rest)
  {
    var r := [m] + rest;
    assert forall k :: 0 <= k < |rest| ==> m < rest[k] by {
      forall k | 0 <= k < |rest| ensures m < rest[k] {
        assert rest[k] in rest;
      }
    }
    assert s == (s - {m}) + {m};
    forall i, j | 0 <= i < j < |r| ensures r[i] != r[j] && r[i] < r[j] {
      if i > 0 {
        assert r[i] == rest[i - 1] && r[j] == rest[j - 1];
      }
    }
  }

  /** Listings exist: the ascending one meets the contract of `list(s)`. */
  lemma EnumerateIsListing()
    ensures IsListing(s => Enumerate(s))
  {
    forall s: set<int>
      ensures Lists(Enumerate(s), s)
    {
    }
  }

  /** Python's `s.index(x)`: the first position of `x` in `s`. */
  function IndexOf(s: seq<int>, x: int): (k: nat)
    requires x in s
    ensures k < |s| && s[k] == x
    ensures forall j :: 0 <= j < k ==> s[j] != x
  {
    if s[0] == x then 0 else 1 + IndexOf(s[1..], x)
  }
}
