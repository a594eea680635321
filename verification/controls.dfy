/** The screen's controls: the four sliders that write into the detector configuration, the
    calibrate button, and the touch handler that either calibrates the millimetre scale from two
    taps or adds the tapped point to the overlay. */
module Controls {
  import opened Wrappers
  import opened RealMath
  import opened Geometry
  import opened Config
  import opened PointHistory
  import BlobDetector

  // ---------------------------------------------------------------------------------------
  // Sliders. Each receives the slider's integer progress `p` and writes one field.

  /** The minimum-area slider: at least one pixel. */
  function SetMinArea(cfg: DetectorConfig, p: int): (r: DetectorConfig)
    ensures r.minAreaPx >= 1 && r.minAreaPx >= p
    ensures r.minAreaPx == p || r.minAreaPx == 1
    ensures r.maxAreaPx == cfg.maxAreaPx && r.minCircularity == cfg.minCircularity
    ensures r.kStd == cfg.kStd && r.downscale == cfg.downscale
  {
    cfg.(minAreaPx := MaxInt(1, p))
  }

  /** The maximum-area slider: strictly above the minimum area in force when it moves. */
  function SetMaxArea(cfg: DetectorConfig, p: int): (r: DetectorConfig)
    ensures r.maxAreaPx > cfg.minAreaPx && r.maxAreaPx >= p
    ensures r.maxAreaPx == p || r.maxAreaPx == cfg.minAreaPx + 1
    ensures r.minAreaPx == cfg.minAreaPx && r.minCircularity == cfg.minCircularity
    ensures r.kStd == cfg.kStd && r.downscale == cfg.downscale
  {
    cfg.(maxAreaPx := MaxInt(cfg.minAreaPx + 1, p))
  }

  /** The circularity slider: hundredths, forced into [0, 1]. */
  function SetCircularity(cfg: DetectorConfig, p: int): (r: DetectorConfig)
    ensures 0.0 <= r.minCircularity <= 1.0
    ensures r.minAreaPx == cfg.minAreaPx && r.maxAreaPx == cfg.maxAreaPx
    ensures r.kStd == cfg.kStd && r.downscale == cfg.downscale
  {
    cfg.(minCircularity := Clamp(p as real / 100.0, 0.0, 1.0))
  }

  /** The threshold slider: hundredths, with no clamp. */
  function SetKStd(cfg: DetectorConfig, p: int): (r: DetectorConfig)
    ensures r.kStd * 100.0 == p as real
    ensures r.minAreaPx == cfg.minAreaPx && r.maxAreaPx == cfg.maxAreaPx
    ensures r.minCircularity == cfg.minCircularity && r.downscale == cfg.downscale
  {
    cfg.(kStd := p as real / 100.0)
  }

  /** On a valid configuration the minimum-area slider keeps it valid exactly when the new
      progress stays below the maximum area. */
  lemma MinAreaValidity(cfg: DetectorConfig, p: int)
    requires Valid(cfg)
    ensures Valid(SetMinArea(cfg, p)) <==> p < cfg.maxAreaPx
  {
  }

  /** The maximum-area slider restores a valid configuration whatever its progress. */
  lemma MaxAreaRestoresValidity(cfg: DetectorConfig, p: int)
    requires cfg.minAreaPx >= 1 && 0.0 <= cfg.minCircularity <= 1.0 && cfg.downscale > 0
    ensures Valid(SetMaxArea(cfg, p))
  {
  }

  /** Moving the maximum slider to 300 and then the minimum slider to 500 leaves the minimum
      above the maximum, and from then on the detector accepts no frame at all. */
  lemma SlidersCanCross(g: seq<seq<real>>, sqrt: real -> real)
    ensures var cfg := SetMinArea(SetMaxArea(Default, 300), 500);
      cfg.minAreaPx == 500 && cfg.maxAreaPx == 300 && !Valid(cfg)
      && BlobDetector.Detect(g, cfg, sqrt) == None
  {
    var cfg := SetMinArea(SetMaxArea(Default, 300), 500);
    BlobDetector.CrossedAreaBoundsRejectAll(g, cfg, sqrt);
  }

  /** Within the slider's range the stored circularity is exactly the progress in hundredths;
      below it the value is 0 and above it 1. */
  lemma CircularityReading(cfg: DetectorConfig, p: int)
    ensures 0 <= p <= 100 ==> SetCircularity(cfg, p).minCircularity * 100.0 == p as real
    ensures p < 0 ==> SetCircularity(cfg, p).minCircularity == 0.0
    ensures p > 100 ==> SetCircularity(cfg, p).minCircularity == 1.0
  {
  }

  /** A larger progress never yields a smaller circularity. */
  lemma CircularityMonotone(cfg: DetectorConfig, p: int, q: int)
    requires p <= q
    ensures SetCircularity(cfg, p).minCircularity <= SetCircularity(cfg, q).minCircularity
  {
  }

  // ---------------------------------------------------------------------------------------
  // The touch state machine

  /** The screen state the touch handler reads and writes. `mmPerPx` is the millimetre scale
      shared with the overlay; `calP1` is the first calibration tap, when one is stored. */
  datatype Session = Session(
    cfg: DetectorConfig,
    calMode: bool,
    calP1: Option<Point>,
    mmPerPx: Option<real>,
    knownMm: real,
    autoDetect: bool,
    simulate: bool,
    overlay: History)

  /** The state when the screen is created. */
  const Initial := Session(Default, false, None, None, 10.0, true, false, Empty)

  /** The calibrate button. */
  function PressCalibrate(s: Session): (r: Session)
    ensures r.calMode && r.calP1.None?
    ensures r.cfg == s.cfg && r.mmPerPx == s.mmPerPx && r.knownMm == s.knownMm
    ensures r.autoDetect == s.autoDetect && r.simulate == s.simulate && r.overlay == s.overlay
  {
    s.(calMode := true, calP1 := None)
  }

  /** The distance in pixels between two taps, as `hypot` computes it. */
  function TapDistance(p: Point, q: Point, sqrt: real -> real): real
  {
    sqrt(SqDist(q, p.x, p.y))
  }

  /** A touch-down at `(x, y)`. In calibration mode the first tap is stored and the second
      sets the scale to `knownMm` over the distance between the two, unless the taps coincide,
      and leaves calibration mode. Otherwise the point is added to the overlay when detection is
      manual or the target is simulated. `None` when the overlay's addition throws. */
  function Tap(s: Session, x: real, y: real, sqrt: real -> real): (r: Option<Session>)
    ensures s.calMode ==> r.Some? && r.value.overlay == s.overlay
    ensures r.Some? ==> r.value.cfg == s.cfg && r.value.knownMm == s.knownMm
    ensures r.Some? ==> r.value.autoDetect == s.autoDetect && r.value.simulate == s.simulate
  {
    if s.calMode then
      match s.calP1
      case None => Some(s.(calP1 := Some(Point(x, y))))
      case Some(p1) =>
        var dp := TapDistance(p1, Point(x, y), sqrt);
        var mm := if dp > 0.0 then Some(s.knownMm / dp) else s.mmPerPx;
        Some(s.(mmPerPx := mm, calP1 := None, calMode := false))
    else if !s.autoDetect || s.simulate then
      match AddPoint(s.overlay, Point(x, y))
      case None => None
      case Some(h) => Some(s.(overlay := h))
    else
      Some(s)
  }

  /** The distance is positive exactly when the taps differ, and its square is the squared
      Euclidean distance. */
  lemma TapDistanceMeaning(p: Point, q: Point, sqrt: real -> real)
    requires IsSqrt(sqrt)
    ensures TapDistance(p, q, sqrt) >= 0.0
    ensures TapDistance(p, q, sqrt) * TapDistance(p, q, sqrt) == SqDist(q, p.x, p.y)
    ensures TapDistance(p, q, sqrt) > 0.0 <==> p != q
  {
    SqDistPositive(q, p.x, p.y);
    SqrtPositive(sqrt, SqDist(q, p.x, p.y));
  }

  /** The first calibration tap stores the point and stays in calibration mode; nothing else
      changes. */
  lemma FirstTapStores(s: Session, x: real, y: real, sqrt: real -> real)
    requires s.calMode && s.calP1.None?
    ensures Tap(s, x, y, sqrt).Some?
    ensures var r := Tap(s, x, y, sqrt).value;
      r.calMode && r.calP1 == Some(Point(x, y)) && r.mmPerPx == s.mmPerPx
  {
  }

  /** The second calibration tap always leaves calibration mode with no stored point. The scale
      becomes `knownMm` per tap distance when the taps differ and is unchanged when they
      coincide. */
  lemma SecondTapCalibrates(s: Session, x: real, y: real, sqrt: real -> real)
    requires IsSqrt(sqrt)
    requires s.calMode && s.calP1.Some?
    ensures Tap(s, x, y, sqrt).Some?
    ensures var r := Tap(s, x, y, sqrt).value;
      !r.calMode && r.calP1.None?
      && (Point(x, y) == s.calP1.value ==> r.mmPerPx == s.mmPerPx)
      && (Point(x, y) != s.calP1.value ==>
            r.mmPerPx.Some?
            && r.mmPerPx.value * TapDistance(s.calP1.value, Point(x, y), sqrt) == s.knownMm)
  {
    var p1 := s.calP1.value;
    TapDistanceMeaning(p1, Point(x, y), sqrt);
    var dp := TapDistance(p1, Point(x, y), sqrt);
    if dp > 0.0 {
      QuotientTimes(s.knownMm, dp);
    }
  }

  /** The whole calibration: the button, then taps at two distinct points `a` and `b`. The
      result is back out of calibration mode with `mmPerPx` times the pixel distance equal to
      `knownMm`, and the overlay untouched. */
  lemma TwoTapCalibration(s: Session, a: Point, b: Point, sqrt: real -> real)
    requires IsSqrt(sqrt) && a != b
    ensures Tap(PressCalibrate(s), a.x, a.y, sqrt).Some?
    ensures var s1 := Tap(PressCalibrate(s), a.x, a.y, sqrt).value;
      Tap(s1, b.x, b.y, sqrt).Some?
      && var s2 := Tap(s1, b.x, b.y, sqrt).value;
      !s2.calMode && s2.calP1.None? && s2.overlay == s.overlay && s2.cfg == s.cfg
      && s2.mmPerPx.Some? && s2.mmPerPx.value * TapDistance(a, b, sqrt) == s.knownMm
  {
    var s0 := PressCalibrate(s);
    FirstTapStores(s0, a.x, a.y, sqrt);
    var s1 := Tap(s0, a.x, a.y, sqrt).value;
    SecondTapCalibrates(s1, b.x, b.y, sqrt);
  }

  /** Outside calibration mode a tap adds the point exactly when detection is manual or the
      target is simulated; otherwise the state is unchanged. */
  lemma TapAddsPoint(s: Session, x: real, y: real, sqrt: real -> real)
    requires !s.calMode
    ensures (!s.autoDetect || s.simulate) ==>
      match AddPoint(s.overlay, Point(x, y))
      case None => Tap(s, x, y, sqrt).None?
      case Some(h) => Tap(s, x, y, sqrt) == Some(s.(overlay := h))
    ensures (s.autoDetect && !s.simulate) ==> Tap(s, x, y, sqrt) == Some(s)
  {
  }

  /** A tap changes the overlay only outside calibration mode with manual detection or a
      simulated target, and then it holds the tapped point as its newest entry. */
  lemma TapChangesOverlayOnlyWhenAdding(s: Session, x: real, y: real, sqrt: real -> real)
    requires Tap(s, x, y, sqrt).Some? && Tap(s, x, y, sqrt).value.overlay != s.overlay
    ensures !s.calMode && (!s.autoDetect || s.simulate)
    ensures var pts := Tap(s, x, y, sqrt).value.overlay.pts;
      |pts| > 0 && pts[|pts| - 1] == Point(x, y)
  {
  }

  /** On a freshly created screen detection is automatic, so taps are ignored. */
  lemma InitialTapIgnored(x: real, y: real, sqrt: real -> real)
    ensures Tap(Initial, x, y, sqrt) == Some(Initial)
  {
  }
}
