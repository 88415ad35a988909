/**
 * The skin attributes shared by every page (main.js:37-50): each vertex is
 * bound to the bone at the start of the segment it lies in and to the next
 * bone, with weights interpolating linearly across the segment.
 */
module SkinBinding {
  import opened PageConfig
  import opened JointChain

  /** JavaScript's `%` on numbers: truncating division, so the remainder has the dividend's sign. */
  function JsRem(a: real, b: real): real
    requires b != 0.0
  {
    var q := a / b;
    var t := if q >= 0.0 then q.Floor else -((-q).Floor);
    a - b * t as real
  }

  /**
   * For a non-negative dividend and positive divisor, `%` is the floored
   * remainder: it lies in [0, b) and completes a / b rounded down.
   */
  lemma {:induction false} JsRemNonNegative(a: real, b: real)
    requires 0.0 <= a && 0.0 < b
    ensures 0.0 <= JsRem(a, b) < b
    ensures a == b * (a / b).Floor as real + JsRem(a, b)
  {
    var q := a / b;
    DivSign(a, b);
    MulDivCancel(a, b);
    var t := q.Floor as real;
    MulSubDistrib(b, q, t);
    ScaledFractionNonNegative(b, q - t, JsRem(a, b));
  }

  /** For a non-positive dividend and positive divisor, `%` lies in (-b, 0]: it keeps the dividend's sign. */
  lemma {:induction false} JsRemNonPositive(a: real, b: real)
    requires a <= 0.0 && 0.0 < b
    ensures -b < JsRem(a, b) <= 0.0
  {
    var q := a / b;
    DivSign(a, b);
    MulDivCancel(a, b);
    var t := if q >= 0.0 then q.Floor as real else -((-q).Floor) as real;
    MulSubDistrib(b, q, t);
    ScaledFractionNonPositive(b, q - t, JsRem(a, b));
  }

  lemma DivSign(a: real, b: real)
    requires 0.0 < b
    ensures 0.0 <= a ==> 0.0 <= a / b
    ensures a <= 0.0 ==> a / b <= 0.0
  {
  }

  lemma MulDivCancel(a: real, b: real)
    requires b != 0.0
    ensures b * (a / b) == a
  {
  }

  lemma MulSubDistrib(b: real, u: real, v: real)
    ensures b * u - b * v == b * (u - v)
  {
  }

  lemma MulAddDistrib(u: real, v: real, w: real)
    ensures (u + v) * w == u * w + v * w
  {
  }

  /** A fraction in [0, 1) of a positive width lies in [0, width). */
  lemma ScaledFractionNonNegative(b: real, d: real, r: real)
    requires 0.0 < b && 0.0 <= d < 1.0 && r == b * d
    ensures 0.0 <= r < b
  {
  }

  /** A fraction in (-1, 0] of a positive width lies in (-width, 0]. */
  lemma ScaledFractionNonPositive(b: real, d: real, r: real)
    requires 0.0 < b && -1.0 < d <= 0.0 && r == b * d
    ensures -b < r <= 0.0
  {
  }

  /** `si`: the segment the vertex at `x` lies in, `Math.floor(x / SEGMENT_WIDTH)`. */
  function SegmentIndex(x: real): int {
    (x / SegmentWidth).Floor
  }

  /** `sw`: how far across its segment the vertex lies, `(x % SEGMENT_WIDTH) / SEGMENT_WIDTH`. */
  function SegmentWeight(x: real): real {
    JsRem(x, SegmentWidth) / SegmentWidth
  }

  /**
   * For a vertex on the page, the first bone index is a real bone, the weight
   * `sw` lies in [0, 1), so the first weight `1 - sw` lies in (0, 1], and the
   * vertex lies `sw` of the way across segment `si`. The first index is the
   * last bone exactly at the free edge.
   */
  lemma BindingOnPage(x: real)
    requires 0.0 <= x <= PageWidth
    ensures 0 <= SegmentIndex(x) <= PageSegments
    ensures 0.0 <= SegmentWeight(x) < 1.0
    ensures 0.0 < 1.0 - SegmentWeight(x) <= 1.0
    ensures x == (SegmentIndex(x) as real + SegmentWeight(x)) * SegmentWidth
    ensures SegmentIndex(x) == PageSegments <==> x == PageWidth
  {
    var q := x / SegmentWidth;
    assert q == x * 30.0 / 1.28;
    assert 0.0 <= q <= 30.0;
    assert q.Floor as real <= q < q.Floor as real + 1.0;
    assert JsRem(x, SegmentWidth) == x - SegmentWidth * q.Floor as real;
  }

  /**
   * At the free edge (x = PAGE_WIDTH) the binding is (PAGE_SEGMENTS, PAGE_SEGMENTS + 1)
   * with weights (1, 0): the second index is one past the last of the
   * BoneCount bones, carried with weight 0.
   */
  lemma FreeEdgeBindsPastLastBone()
    ensures SegmentIndex(PageWidth) == PageSegments
    ensures SegmentWeight(PageWidth) == 0.0
    ensures SegmentIndex(PageWidth) + 1 == BoneCount
  {
    BindingOnPage(PageWidth);
  }

  /**
   * Every vertex strictly before the free edge is bound to two bones of a
   * linear chain, lies between their rest positions, and the weighted sum of
   * those rest positions is the vertex itself; a vertex at the free edge has
   * a second index past the chain's end.
   */
  lemma BindingInterpolatesRestPositions(bones: seq<Bone>, x: real)
    requires IsLinearChain(bones)
    requires 0.0 <= x <= PageWidth
    ensures ParentsPrecede(bones)
    ensures x < PageWidth <==> SegmentIndex(x) + 1 < |bones|
    ensures x < PageWidth ==>
      && RestX(bones, SegmentIndex(x)) <= x < RestX(bones, SegmentIndex(x) + 1)
      && (1.0 - SegmentWeight(x)) * RestX(bones, SegmentIndex(x))
         + SegmentWeight(x) * RestX(bones, SegmentIndex(x) + 1) == x
  {
    LinearChainParentsPrecede(bones);
    BindingOnPage(x);
    if x < PageWidth {
      BlendNeighbourBones(bones, x, SegmentIndex(x), SegmentWeight(x));
    }
  }

  lemma BlendNeighbourBones(bones: seq<Bone>, x: real, si: int, sw: real)
    requires IsLinearChain(bones)
    requires 0 <= si < PageSegments && 0.0 <= sw < 1.0
    requires x == (si as real + sw) * SegmentWidth
    ensures ParentsPrecede(bones)
    ensures RestX(bones, si) <= x < RestX(bones, si + 1)
    ensures (1.0 - sw) * RestX(bones, si) + sw * RestX(bones, si + 1) == x
  {
    ChainRestPosition(bones, si);
    ChainRestPosition(bones, si + 1);
    WithinSegment(si, sw, SegmentWidth);
    BlendSegmentEnds(si, sw, SegmentWidth);
  }

  /** A point s of the way across the k-th interval of width w lies between its two ends. */
  lemma WithinSegment(k: int, s: real, w: real)
    requires 0.0 < w && 0.0 <= s < 1.0
    ensures k as real * w <= (k as real + s) * w < (k + 1) as real * w
  {
    MulAddDistrib(k as real, s, w);
    MulAddDistrib(k as real, 1.0, w);
    ScaledFractionNonNegative(w, s, s * w);
  }

  /** Blending the ends of the k-th interval of width w with weights (1 - s, s) lands s of the way across. */
  lemma BlendSegmentEnds(k: int, s: real, w: real)
    ensures (1.0 - s) * (k as real * w) + s * ((k + 1) as real * w) == (k as real + s) * w
  {
  }

  /**
   * The skin loop over the vertices' x coordinates: four skin indices and four
   * skin weights per vertex, (si, si+1, 0, 0) and (1-sw, sw, 0, 0).
   */
  method ComputeSkin(xs: seq<real>) returns (skinIndex: seq<int>, skinWeight: seq<real>)
    ensures |skinIndex| == 4 * |xs| && |skinWeight| == 4 * |xs|
    ensures forall i :: 0 <= i < |xs| ==>
      && skinIndex[4 * i] == SegmentIndex(xs[i]) && skinIndex[4 * i + 1] == SegmentIndex(xs[i]) + 1
      && skinIndex[4 * i + 2] == 0 && skinIndex[4 * i + 3] == 0
    ensures forall i :: 0 <= i < |xs| ==>
      && skinWeight[4 * i] == 1.0 - SegmentWeight(xs[i]) && skinWeight[4 * i + 1] == SegmentWeight(xs[i])
      && skinWeight[4 * i + 2] == 0.0 && skinWeight[4 * i + 3] == 0.0
  {
    skinIndex, skinWeight := [], [];
    var i := 0;
    while i < |xs|
      invariant 0 <= i <= |xs|
      invariant |skinIndex| == 4 * i && |skinWeight| == 4 * i
      invariant forall k :: 0 <= k < i ==>
        && skinIndex[4 * k] == SegmentIndex(xs[k]) && skinIndex[4 * k + 1] == SegmentIndex(xs[k]) + 1
        && skinIndex[4 * k + 2] == 0 && skinIndex[4 * k + 3] == 0
      invariant forall k :: 0 <= k < i ==>
        && skinWeight[4 * k] == 1.0 - SegmentWeight(xs[k]) && skinWeight[4 * k + 1] == SegmentWeight(xs[k])
        && skinWeight[4 * k + 2] == 0.0 && skinWeight[4 * k + 3] == 0.0
    {
      var x := xs[i];
      var si := (x / SegmentWidth).Floor;
      var sw := JsRem(x, SegmentWidth) / SegmentWidth;
      skinIndex := skinIndex + [si, si + 1, 0, 0];
      skinWeight := skinWeight + [1.0 - sw, sw, 0.0, 0.0];
      i := i + 1;
    }
  }

  /**
   * For vertices on the page, the computed attributes only reference bones
   * 0..PAGE_SEGMENTS+1, each vertex's weights sum to 1, and the out-of-range
   * index PAGE_SEGMENTS+1 appears exactly for the vertices at the free edge.
   */
  lemma SkinAttributesOnPage(xs: seq<real>, skinIndex: seq<int>, skinWeight: seq<real>, i: nat)
    requires forall k :: 0 <= k < |xs| ==> 0.0 <= xs[k] <= PageWidth
    requires |skinIndex| == 4 * |xs| && |skinWeight| == 4 * |xs|
    requires forall k :: 0 <= k < |xs| ==>
      && skinIndex[4 * k] == SegmentIndex(xs[k]) && skinIndex[4 * k + 1] == SegmentIndex(xs[k]) + 1
    requires forall k :: 0 <= k < |xs| ==>
      && skinWeight[4 * k] == 1.0 - SegmentWeight(xs[k]) && skinWeight[4 * k + 1] == SegmentWeight(xs[k])
    requires i < |xs|
    ensures 0 <= skinIndex[4 * i] <= PageSegments
    ensures skinIndex[4 * i + 1] <= PageSegments <==> xs[i] < PageWidth
    ensures 0.0 < skinWeight[4 * i] <= 1.0 && 0.0 <= skinWeight[4 * i + 1] < 1.0
    ensures skinWeight[4 * i] + skinWeight[4 * i + 1] == 1.0
  {
    BindingOnPage(xs[i]);
  }
}
