/**
  The waypoint route of the elbow example: time-tagged points, sorted by
  time, split into coordinate columns, and interpolated piecewise-linearly.
 */
module SimpleElbow {
  import opened Wrappers
  import opened Geometry

  /** A point `[[x, y, z], time]`. */
  datatype Waypoint = Waypoint(pos: Vec3, time: real)

  /** `next(...)` over a generator that yields nothing raises StopIteration. */
  datatype RouteError = StopIteration

  predicate SortedByTime(ps: seq<Waypoint>) {
    forall i, j :: 0 <= i < j < |ps| ==> ps[i].time <= ps[j].time
  }

  /** Places `w` in front of the first entry of `s` whose time is at least its own. */
  function Insert(w: Waypoint, s: seq<Waypoint>): (r: seq<Waypoint>)
    requires SortedByTime(s)
    ensures SortedByTime(r)
    ensures |r| == |s| + 1 && (r[0] == w || (s != [] && r[0] == s[0]))
  {
    if s == [] || w.time <= s[0].time then [w] + s
    else [s[0]] + Insert(w, s[1..])
  }

  /** Inserting adds `w` and loses nothing. */
  lemma {:induction false} InsertPermutes(w: Waypoint, s: seq<Waypoint>)
    requires SortedByTime(s)
    ensures multiset(Insert(w, s)) == multiset(s) + multiset{w}
  {
    if s != [] && w.time > s[0].time {
      assert s == [s[0]] + s[1..];
      InsertPermutes(w, s[1..]);
    }
  }

  /** `points.sort(key=lambda x: x[1])`: an ordering of the points by time. */
  function SortByTime(ps: seq<Waypoint>): (r: seq<Waypoint>)
    ensures SortedByTime(r)
    ensures multiset(r) == multiset(ps)
  {
    if ps == [] then []
    else
      assert ps == [ps[0]] + ps[1..];
      InsertPermutes(ps[0], SortByTime(ps[1..]));
      Insert(ps[0], SortByTime(ps[1..]))
  }

  /** The points of `s` tagged with time `t`, in their order in `s`. */
  function AtTime(s: seq<Waypoint>, t: real): seq<Waypoint> {
    if s == [] then []
    else (if s[0].time == t then [s[0]] else []) + AtTime(s[1..], t)
  }

  lemma {:induction false} AtTimeConcat(a: seq<Waypoint>, b: seq<Waypoint>, t: real)
    ensures AtTime(a + b, t) == AtTime(a, t) + AtTime(b, t)
  {
    if a == [] {
      assert a + b == b;
    } else {
      var head := if a[0].time == t then [a[0]] else [];
      assert (a + b)[0] == a[0] && (a + b)[1..] == a[1..] + b;
      calc {
        AtTime(a + b, t);
        head + AtTime(a[1..] + b, t);
        { AtTimeConcat(a[1..], b, t); }
        head + (AtTime(a[1..], t) + AtTime(b, t));
        (head + AtTime(a[1..], t)) + AtTime(b, t);
      }
    }
  }

  lemma {:induction false} InsertAtTime(w: Waypoint, s: seq<Waypoint>, t: real)
    requires SortedByTime(s)
    ensures AtTime(Insert(w, s), t) == (if w.time == t then [w] else []) + AtTime(s, t)
  {
    if s == [] || w.time <= s[0].time {
      AtTimeConcat([w], s, t);
    } else {
      InsertAtTime(w, s[1..], t);
      AtTimeConcat([s[0]], Insert(w, s[1..]), t);
      AtTimeConcat([s[0]], s[1..], t);
      assert [s[0]] + s[1..] == s;
    }
  }

  /** The sort is stable: points with equal times keep their relative order. */
  lemma {:induction false} SortIsStable(ps: seq<Waypoint>, t: real)
    ensures AtTime(SortByTime(ps), t) == AtTime(ps, t)
  {
    if ps != [] {
      SortIsStable(ps[1..], t);
      InsertAtTime(ps[0], SortByTime(ps[1..]), t);
    }
  }

  /** The result of `points_converter`: `([xs, ys, zs], ts)`. */
  datatype Columns = Columns(xs: seq<real>, ys: seq<real>, zs: seq<real>, ts: seq<real>)

  /** `points_converter(points)`: one column per coordinate and one for the times. */
  function PointsConverter(ps: seq<Waypoint>): (c: Columns)
    ensures |c.xs| == |c.ys| == |c.zs| == |c.ts| == |ps|
  {
    Columns(seq(|ps|, i requires 0 <= i < |ps| => ps[i].pos.x),
            seq(|ps|, i requires 0 <= i < |ps| => ps[i].pos.y),
            seq(|ps|, i requires 0 <= i < |ps| => ps[i].pos.z),
            seq(|ps|, i requires 0 <= i < |ps| => ps[i].time))
  }

  /** The waypoints read back row by row from four columns of equal length. */
  function Zip(c: Columns): seq<Waypoint>
    requires |c.xs| == |c.ys| == |c.zs| == |c.ts|
  {
    seq(|c.xs|, i requires 0 <= i < |c.xs| => Waypoint(Vec3(c.xs[i], c.ys[i], c.zs[i]), c.ts[i]))
  }

  /** The columns hold exactly the points: reading them back gives the points, and vice versa. */
  lemma ConverterRoundTrip(ps: seq<Waypoint>, c: Columns)
    requires |c.xs| == |c.ys| == |c.zs| == |c.ts|
    ensures Zip(PointsConverter(ps)) == ps
    ensures PointsConverter(Zip(c)) == c
  {
  }

  /**
    `next(point for point in reversed(points) if point[1] <= time)`: the index
    of the last point at or before `t`.
   */
  function LastAtOrBefore(ps: seq<Waypoint>, t: real): (r: Option<nat>)
    ensures r.Some? ==> r.value < |ps| && ps[r.value].time <= t
    ensures r.Some? ==> forall k :: r.value < k < |ps| ==> ps[k].time > t
    ensures r.None? ==> forall k :: 0 <= k < |ps| ==> ps[k].time > t
  {
    if ps == [] then None
    else if ps[|ps| - 1].time <= t then Some(|ps| - 1)
    else LastAtOrBefore(ps[..|ps| - 1], t)
  }

  /**
    `next(point for point in points if point[1] >= time)`: the index of the
    first point at or after `t`.
   */
  function FirstAtOrAfter(ps: seq<Waypoint>, t: real): (r: Option<nat>)
    ensures r.Some? ==> r.value < |ps| && ps[r.value].time >= t
    ensures r.Some? ==> forall k :: 0 <= k < r.value ==> ps[k].time < t
    ensures r.None? ==> forall k :: 0 <= k < |ps| ==> ps[k].time < t
  {
    if ps == [] then None
    else if ps[0].time >= t then Some(0)
    else match FirstAtOrAfter(ps[1..], t)
      case None => None
      case Some(k) => Some(k + 1)
  }

  /** The straight-line point a fraction `s` of the way from `p` to `q`. */
  function Lerp(p: Vec3, q: Vec3, s: real): (r: Vec3)
    ensures s == 0.0 ==> r == p
    ensures s == 1.0 ==> r == q
  {
    Add(p, Scale(s, Sub(q, p)))
  }

  /**
    `points_to_route(points, time)`: the position at time `t` on the route
    through the points. It fails when no point is at or before `t`, or none
    at or after it; it does not clamp to the end points.
   */
  function PointsToRoute(ps: seq<Waypoint>, t: real): (r: Result<Vec3, RouteError>)
    ensures r.Success? <==>
              (exists i :: 0 <= i < |ps| && ps[i].time <= t) && (exists j :: 0 <= j < |ps| && ps[j].time >= t)
  {
    match (LastAtOrBefore(ps, t), FirstAtOrAfter(ps, t))
    case (Some(i), Some(j)) =>
      var lastPoint, nextPoint := ps[i], ps[j];
      var interval := nextPoint.time - lastPoint.time;
      var offsetTime := t - lastPoint.time;
      if interval == 0.0 then Success(lastPoint.pos)
      else Success(Lerp(lastPoint.pos, nextPoint.pos, offsetTime / interval))
    case _ => Failure(StopIteration)
  }

  /** On sorted points a route position exists exactly from the first time to the last. */
  lemma RouteSpan(ps: seq<Waypoint>, t: real)
    requires SortedByTime(ps) && |ps| > 0
    ensures PointsToRoute(ps, t).Success? <==> ps[0].time <= t <= ps[|ps| - 1].time
  {
    if PointsToRoute(ps, t).Success? {
      var i :| 0 <= i < |ps| && ps[i].time <= t;
      var j :| 0 <= j < |ps| && ps[j].time >= t;
      assert ps[0].time <= ps[i].time;
      assert ps[j].time <= ps[|ps| - 1].time;
    }
  }

  /**
    On sorted points the search brackets `t`: the last point is at or before
    it, the next at or after it, so the interval is never negative.
   */
  lemma RouteBrackets(ps: seq<Waypoint>, t: real)
    requires SortedByTime(ps) && |ps| > 0 && ps[0].time <= t <= ps[|ps| - 1].time
    ensures LastAtOrBefore(ps, t).Some? && FirstAtOrAfter(ps, t).Some?
    ensures ps[LastAtOrBefore(ps, t).value].time <= t <= ps[FirstAtOrAfter(ps, t).value].time
  {
    RouteSpan(ps, t);
  }

  /**
    At the time of point k, when k is the last point with that time (on
    sorted points), the route is exactly at point k: with duplicate times it
    is the later duplicate that is returned.
   */
  lemma {:induction false} RouteAtWaypoint(ps: seq<Waypoint>, k: nat)
    requires SortedByTime(ps) && k < |ps|
    requires k == |ps| - 1 || ps[k + 1].time > ps[k].time
    ensures PointsToRoute(ps, ps[k].time) == Success(ps[k].pos)
  {
    var t := ps[k].time;
    forall m | k < m < |ps|
      ensures ps[m].time > t
    {
      assert ps[k + 1].time <= ps[m].time;
    }
    var i := LastAtOrBefore(ps, t).value;
    var j := FirstAtOrAfter(ps, t).value;
    assert i == k;
    assert j <= k;
    assert ps[j].time <= t by {
      if j < k { assert ps[j].time <= ps[k].time; }
    }
  }

  /** At the time of a point whose time no other point shares, the route is at that point. */
  lemma RouteAtUniqueWaypoint(ps: seq<Waypoint>, k: nat)
    requires SortedByTime(ps) && k < |ps|
    requires forall m :: 0 <= m < |ps| && m != k ==> ps[m].time != ps[k].time
    ensures PointsToRoute(ps, ps[k].time) == Success(ps[k].pos)
  {
    RouteAtWaypoint(ps, k);
  }

  /**
    On sorted points the route is piecewise linear: either `t` is the time of
    the last point at or before it and the route is at that point, or `t`
    falls strictly between two consecutive points and the route is the
    straight-line interpolation between them.
   */
  lemma {:induction false} RouteIsPiecewiseLinear(ps: seq<Waypoint>, t: real)
    requires SortedByTime(ps) && |ps| > 0 && ps[0].time <= t <= ps[|ps| - 1].time
    ensures var i := LastAtOrBefore(ps, t).value;
            || (ps[i].time == t && PointsToRoute(ps, t) == Success(ps[i].pos))
            || (&& i + 1 < |ps| && ps[i].time < t < ps[i + 1].time
                && PointsToRoute(ps, t) ==
                   Success(Lerp(ps[i].pos, ps[i + 1].pos, (t - ps[i].time) / (ps[i + 1].time - ps[i].time))))
  {
    RouteBrackets(ps, t);
    var i := LastAtOrBefore(ps, t).value;
    var j := FirstAtOrAfter(ps, t).value;
    if ps[i].time == t {
      assert j <= i;
      assert ps[j].time <= t by {
        if j < i { assert ps[j].time <= ps[i].time; }
      }
    } else {
      assert i + 1 < |ps| && ps[i + 1].time > t;
      forall m | 0 <= m <= i
        ensures ps[m].time < t
      {
        if m < i { assert ps[m].time <= ps[i].time; }
      }
      assert j == i + 1;
    }
  }

  /** `v` lies between `a` and `b`, whichever way round they are. */
  predicate Between(a: real, b: real, v: real) {
    (a <= v <= b) || (b <= v <= a)
  }

  lemma ProductNonNegative(x: real, y: real)
    requires x >= 0.0 && y >= 0.0
    ensures x * y >= 0.0
  {
  }

  /** `a + s * (b - a)` lies between a and b for every fraction s in [0, 1]. */
  lemma LerpFractionBetween(a: real, b: real, s: real)
    requires 0.0 <= s <= 1.0
    ensures Between(a, b, a + s * (b - a))
  {
    var d := s * (b - a);
    assert (1.0 - s) * (b - a) == (b - a) - d;
    if a <= b {
      ProductNonNegative(s, b - a);
      ProductNonNegative(1.0 - s, b - a);
      assert a <= a + d <= b;
    } else {
      ProductNonNegative(s, a - b);
      ProductNonNegative(1.0 - s, a - b);
      assert s * (a - b) == -d;
      assert (1.0 - s) * (a - b) == (a - b) + d;
      assert b <= a + d <= a;
    }
  }

  lemma FractionInUnit(offset: real, interval: real)
    requires 0.0 <= offset <= interval && interval > 0.0
    ensures 0.0 <= offset / interval <= 1.0
  {
    var q := offset / interval;
    assert q * interval == offset;
    assert (1.0 - q) * interval == interval - offset;
  }

  /** Every coordinate of a point on the segment from p to q lies between those of p and q. */
  lemma LerpBetweenPoints(p: Vec3, q: Vec3, s: real)
    requires 0.0 <= s <= 1.0
    ensures var r := Lerp(p, q, s);
            Between(p.x, q.x, r.x) && Between(p.y, q.y, r.y) && Between(p.z, q.z, r.z)
  {
    LerpFractionBetween(p.x, q.x, s);
    LerpFractionBetween(p.y, q.y, s);
    LerpFractionBetween(p.z, q.z, s);
  }

  /**
    On sorted points every coordinate of the route position lies between the
    same coordinate of the last and the next point.
   */
  lemma {:induction false} RouteStaysOnSegment(ps: seq<Waypoint>, t: real)
    requires SortedByTime(ps) && |ps| > 0 && ps[0].time <= t <= ps[|ps| - 1].time
    ensures var p, q, r := ps[LastAtOrBefore(ps, t).value].pos, ps[FirstAtOrAfter(ps, t).value].pos,
                           PointsToRoute(ps, t).value;
            Between(p.x, q.x, r.x) && Between(p.y, q.y, r.y) && Between(p.z, q.z, r.z)
  {
    RouteBrackets(ps, t);
    var i := LastAtOrBefore(ps, t).value;
    var j := FirstAtOrAfter(ps, t).value;
    var interval := ps[j].time - ps[i].time;
    if interval != 0.0 {
      var s := (t - ps[i].time) / interval;
      FractionInUnit(t - ps[i].time, interval);
      assert PointsToRoute(ps, t) == Success(Lerp(ps[i].pos, ps[j].pos, s));
      LerpBetweenPoints(ps[i].pos, ps[j].pos, s);
    } else {
      assert PointsToRoute(ps, t) == Success(ps[i].pos);
    }
  }

  /** Two points both at time 0: at time 0 the route is at the second of them. */
  lemma DuplicateTimeTakesLater()
    ensures PointsToRoute([Waypoint(Vec3(0.0, 0.0, 0.0), 0.0), Waypoint(Vec3(1.0, 2.0, 3.0), 0.0)], 0.0)
            == Success(Vec3(1.0, 2.0, 3.0))
  {
    var ps := [Waypoint(Vec3(0.0, 0.0, 0.0), 0.0), Waypoint(Vec3(1.0, 2.0, 3.0), 0.0)];
    RouteAtWaypoint(ps, 1);
  }

  /** Two points: (0,0,0) at time 0 and (10,0,0) at time 10. */
  const TwoPoints: seq<Waypoint> := [Waypoint(Vec3(0.0, 0.0, 0.0), 0.0), Waypoint(Vec3(10.0, 0.0, 0.0), 10.0)]

  /** On the two points the route is at each point at its own time. */
  lemma TwoPointEnds()
    ensures PointsToRoute(TwoPoints, 0.0) == Success(Vec3(0.0, 0.0, 0.0))
    ensures PointsToRoute(TwoPoints, 10.0) == Success(Vec3(10.0, 0.0, 0.0))
  {
    RouteAtWaypoint(TwoPoints, 0);
    RouteAtWaypoint(TwoPoints, 1);
  }

  /** On the two points a time before the first or after the last has no position. */
  lemma TwoPointNoClamp()
    ensures PointsToRoute(TwoPoints, -5.0) == Failure(StopIteration)
    ensures PointsToRoute(TwoPoints, 15.0) == Failure(StopIteration)
  {
    RouteSpan(TwoPoints, -5.0);
    RouteSpan(TwoPoints, 15.0);
  }
}
