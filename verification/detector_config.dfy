/** The detector's tuning record. */
module Config {

  /** Area bounds are in full-resolution pixels; `kStd` scales the standard deviation subtracted
      from the mean intensity to obtain the dark threshold; `downscale` is the sampling stride. */
  datatype DetectorConfig = DetectorConfig(
    minAreaPx: int,
    maxAreaPx: int,
    minCircularity: real,
    kStd: real,
    downscale: int)

  /** The defaults the record is constructed with. */
  const Default := DetectorConfig(200, 8000, 0.5, 1.0, 4)

  /** The settings the user interface aims for: a positive minimum area strictly below the
      maximum, a circularity in [0, 1] and a positive sampling stride. */
  predicate Valid(cfg: DetectorConfig)
  {
    1 <= cfg.minAreaPx < cfg.maxAreaPx
    && 0.0 <= cfg.minCircularity <= 1.0
    && cfg.downscale > 0
  }
}
