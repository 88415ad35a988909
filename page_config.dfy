/** Page geometry and bend tunables of the castle book (main.js, "Page config" and "Bend params"). */
module PageConfig {
  /** Width of one page along the x axis; the spine sits at x = 0. */
  const PageWidth: real := 1.28
  /** Number of equal-width segments the page box is subdivided into along its width. */
  const PageSegments: nat := 30
  /** Width of one segment: PAGE_WIDTH / PAGE_SEGMENTS. */
  const SegmentWidth: real := PageWidth / PageSegments as real
  /** A page carries one bone per segment boundary, spine included. */
  const BoneCount: nat := PageSegments + 1

  /** Weight of the target in the exponential smoothing of a bone's rotation. */
  const EasingFactor: real := 0.5
  const InsideCurve: real := 0.18
  const OutsideCurve: real := 0.05
  const TurnStrength: real := 0.09
  /** Fixed amount the turn progress advances per animation frame. */
  const ProgressStep: real := 0.02
}

/** The nullable references of the source (`null` or an object). */
module Optional {
  datatype Option<+T> = None | Some(value: T)

  /** The set of the referenced values: empty for `null`. */
  function Elems<T>(o: Option<T>): set<T> {
    if o.Some? then {o.value} else {}
  }
}
