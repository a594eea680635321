/** The overlay's point history: a first-in first-out queue of tapped or detected points that
    holds at most `maxPoints` of them, dropping the oldest when full, and the rule that a circle
    is only fitted once it holds three points. */
module PointHistory {
  import opened Wrappers
  import opened Geometry
  import CircleFit

  /** The queue `pts`, oldest first, and the capacity `maxPoints` (a public, writable field). */
  datatype History = History(pts: seq<Point>, maxPoints: int)

  const DefaultMaxPoints: int := 240

  /** A freshly created overlay. */
  const Empty := History([], DefaultMaxPoints)

  /** The last `m` elements of `s`, or all of `s` when it is shorter. */
  function Window(s: seq<Point>, m: nat): (w: seq<Point>)
    ensures |w| <= m && |w| <= |s|
    ensures |s| <= m ==> w == s
    ensures |s| > m ==> |w| == m
  {
    if |s| <= m then s else s[|s| - m..]
  }

  /** `clearPoints`. */
  function Clear(h: History): (r: History)
    ensures |r.pts| == 0 && r.maxPoints == h.maxPoints
  {
    h.(pts := [])
  }

  /** `addPoint`: when the queue is full the oldest point is removed first. With a capacity of
      zero or less and an empty queue, the removal has nothing to remove and the app throws
      `NoSuchElementException`; that outcome is `None`. */
  function AddPoint(h: History, p: Point): (r: Option<History>)
    ensures r.None? <==> h.maxPoints <= 0 && |h.pts| == 0
    ensures r.Some? ==> r.value.maxPoints == h.maxPoints
    ensures r.Some? ==> |r.value.pts| > 0 && r.value.pts[|r.value.pts| - 1] == p
    ensures r.Some? && |h.pts| < h.maxPoints ==>
      |r.value.pts| == |h.pts| + 1 && r.value.pts[..|h.pts|] == h.pts
    ensures r.Some? && |h.pts| >= h.maxPoints ==>
      |r.value.pts| == |h.pts| && r.value.pts[..|h.pts| - 1] == h.pts[1..]
    ensures r.Some? && |h.pts| <= h.maxPoints ==> |r.value.pts| <= h.maxPoints
  {
    if |h.pts| >= h.maxPoints then
      if |h.pts| == 0 then None
      else Some(h.(pts := h.pts[1..] + [p]))
    else Some(h.(pts := h.pts + [p]))
  }

  /** `getPoints`: the queue as a list, oldest first. */
  function Points(h: History): seq<Point>
  {
    h.pts
  }

  /** Adding the points of `ps` one after the other; `None` as soon as one addition throws. */
  function AddAll(h: History, ps: seq<Point>): Option<History>
    decreases |ps|
  {
    if |ps| == 0 then Some(h)
    else match AddPoint(h, ps[0])
      case None => None
      case Some(h1) => AddAll(h1, ps[1..])
  }

  /** The fit gate of `onDraw`: a circle is fitted only when at least three points are held. */
  function DrawnFit(h: History, sqrt: real -> real): (r: Option<CircleFit.FitResult>)
    ensures r.Some? ==> |h.pts| >= 3
  {
    if |h.pts| >= 3 then CircleFit.Fit(Points(h), sqrt) else None
  }

  // ---------------------------------------------------------------------------------------
  // Properties

  /** A suffix that keeps at least the last `m` elements has the same window. */
  lemma WindowOfSuffix(v: seq<Point>, k: nat, m: nat)
    requires k <= |v| && (k == 0 || |v| - k >= m)
    ensures Window(v[k..], m) == Window(v, m)
  {
    if k > 0 && |v| - k > m {
      assert v[k..][|v| - k - m..] == v[|v| - m..];
    }
  }

  /** Taking the window first and appending afterwards does not change the final window. */
  lemma WindowAbsorbs(a: seq<Point>, t: seq<Point>, m: nat)
    ensures Window(Window(a, m) + t, m) == Window(a + t, m)
  {
    if |a| > m {
      assert Window(a, m) + t == (a + t)[|a| - m..];
      WindowOfSuffix(a + t, |a| - m, m);
    }
  }

  /** One addition to a queue within its capacity keeps the window of everything added. */
  lemma AddPointWindow(h: History, p: Point)
    requires h.maxPoints >= 1 && |h.pts| <= h.maxPoints
    ensures AddPoint(h, p) == Some(History(Window(h.pts + [p], h.maxPoints), h.maxPoints))
  {
    var all := h.pts + [p];
    if |h.pts| == h.maxPoints {
      assert h.pts[1..] + [p] == all[1..];
      assert Window(all, h.maxPoints) == all[1..];
    } else {
      assert Window(all, h.maxPoints) == all;
    }
  }

  /** [WindowAbsorbs] for a sequence split into its head and tail. */
  lemma WindowAbsorbsHead(a: seq<Point>, ps: seq<Point>, m: nat)
    requires |ps| > 0
    ensures Window(Window(a + [ps[0]], m) + ps[1..], m) == Window(a + ps, m)
  {
    WindowAbsorbs(a + [ps[0]], ps[1..], m);
    assert a + [ps[0]] + ps[1..] == a + ps;
  }

  /** A window of a queue already within the capacity is the queue itself. */
  lemma WindowOfShort(h: History)
    requires h.maxPoints >= 1 && |h.pts| <= h.maxPoints
    ensures History(Window(h.pts + [], h.maxPoints), h.maxPoints) == h
  {
    assert h.pts + [] == h.pts;
  }

  /** The sliding window: adding `ps` to a queue within its capacity leaves exactly the last
      `maxPoints` points of the old contents followed by `ps`, in their original order. */
  lemma {:induction false} SlidingWindow(h: History, ps: seq<Point>)
    requires h.maxPoints >= 1 && |h.pts| <= h.maxPoints
    ensures AddAll(h, ps) == Some(History(Window(h.pts + ps, h.maxPoints), h.maxPoints))
    decreases |ps|
  {
    if |ps| > 0 {
      AddPointWindow(h, ps[0]);
      var h1 := History(Window(h.pts + [ps[0]], h.maxPoints), h.maxPoints);
      SlidingWindow(h1, ps[1..]);
      WindowAbsorbsHead(h.pts, ps, h.maxPoints);
    } else {
      WindowOfShort(h);
      assert ps == [];
    }
  }

  /** `getPoints` after adding `ps` to a cleared overlay: the last `maxPoints` of `ps` in
      insertion order. */
  lemma PointsInInsertionOrder(h: History, ps: seq<Point>)
    requires h.maxPoints >= 1
    ensures AddAll(Clear(h), ps).Some?
    ensures Points(AddAll(Clear(h), ps).value) == Window(ps, h.maxPoints)
  {
    SlidingWindow(Clear(h), ps);
    assert Clear(h).pts + ps == ps;
  }

  /** With at least `maxPoints` points added, exactly the last `maxPoints` of them are held. */
  lemma OldestDropped(h: History, ps: seq<Point>)
    requires 1 <= h.maxPoints <= |ps|
    ensures AddAll(Clear(h), ps).Some?
    ensures Points(AddAll(Clear(h), ps).value) == ps[|ps| - h.maxPoints..]
  {
    PointsInInsertionOrder(h, ps);
    if |ps| == h.maxPoints {
      assert ps[0..] == ps;
    }
  }

  /** A capacity of at least one keeps the queue within it forever. */
  lemma {:induction false} CapacityKept(h: History, ps: seq<Point>)
    requires h.maxPoints >= 1 && |h.pts| <= h.maxPoints
    ensures AddAll(h, ps).Some? && |AddAll(h, ps).value.pts| <= h.maxPoints
  {
    SlidingWindow(h, ps);
  }

  /** With capacity zero the first addition to an empty overlay throws. */
  lemma ZeroCapacityThrows(p: Point)
    ensures AddPoint(History([], 0), p).None?
  {
  }

  /** The gate in `onDraw` is never what rejects: the fit itself refuses fewer than three
      points, so the drawn fit is always the fit of the held points. */
  lemma DrawnFitIsFit(h: History, sqrt: real -> real)
    ensures DrawnFit(h, sqrt) == CircleFit.Fit(h.pts, sqrt)
  {
  }
}
