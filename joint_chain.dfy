/** The chain of bones built for every page mesh (`makePage`, main.js:69-77). */
module JointChain {
  import opened PageConfig
  import opened Optional

  /**
   * One bone of a page: the index of its parent bone (None for bone 0, which
   * hangs directly off the mesh), its x offset from that parent, and its
   * animated rotation about the vertical axis.
   */
  datatype Bone = Bone(parent: Option<nat>, offsetX: real, rotY: real)

  /** The static shape every page's chain has: a linear chain of equally spaced bones. */
  ghost predicate IsLinearChain(bones: seq<Bone>) {
    && |bones| == BoneCount
    && bones[0].parent == None && bones[0].offsetX == 0.0
    && forall i :: 1 <= i < |bones| ==> bones[i].parent == Some(i - 1) && bones[i].offsetX == SegmentWidth
  }

  /** Every bone's parent comes before it, so following parents terminates at bone 0. */
  ghost predicate ParentsPrecede(bones: seq<Bone>) {
    forall i :: 0 <= i < |bones| && bones[i].parent.Some? ==> bones[i].parent.value < i
  }

  /** Position of bone `i` along the page at rest: its offset added to its parent's, up to the mesh. */
  ghost function RestX(bones: seq<Bone>, i: nat): real
    requires i < |bones| && ParentsPrecede(bones)
    decreases i
  {
    match bones[i].parent
    case None => bones[i].offsetX
    case Some(p) => bones[i].offsetX + RestX(bones, p)
  }

  /** Number of bones above bone `i` in the hierarchy. */
  ghost function Depth(bones: seq<Bone>, i: nat): nat
    requires i < |bones| && ParentsPrecede(bones)
    decreases i
  {
    match bones[i].parent
    case None => 0
    case Some(p) => 1 + Depth(bones, p)
  }

  /**
   * The bone loop of `makePage`: PAGE_SEGMENTS + 1 bones, bone 0 at offset 0
   * and unparented, every later bone one segment further and attached to the
   * previous one; all start unrotated.
   */
  method MakeBones() returns (bones: seq<Bone>)
    ensures |bones| == PageSegments + 1
    ensures bones[0] == Bone(None, 0.0, 0.0)
    ensures forall i :: 1 <= i < |bones| ==> bones[i] == Bone(Some(i - 1), SegmentWidth, 0.0)
  {
    bones := [];
    var i := 0;
    while i <= PageSegments
      invariant 0 <= i <= PageSegments + 1
      invariant |bones| == i
      invariant i > 0 ==> bones[0] == Bone(None, 0.0, 0.0)
      invariant forall k :: 1 <= k < i ==> bones[k] == Bone(Some(k - 1), SegmentWidth, 0.0)
    {
      var b := Bone(None, if i == 0 then 0.0 else SegmentWidth, 0.0);
      if i > 0 {
        b := b.(parent := Some(i - 1));
      }
      bones := bones + [b];
      i := i + 1;
    }
  }

  /** A linear chain is well founded: every parent precedes its child. */
  lemma LinearChainParentsPrecede(bones: seq<Bone>)
    requires IsLinearChain(bones)
    ensures ParentsPrecede(bones)
  {
  }

  /** In a linear chain bone `i` rests `i` segment widths from the spine, at depth `i`. */
  lemma {:induction false} ChainRestPosition(bones: seq<Bone>, i: nat)
    requires IsLinearChain(bones) && i < |bones|
    ensures ParentsPrecede(bones)
    ensures RestX(bones, i) == i as real * SegmentWidth
    ensures Depth(bones, i) == i
  {
    LinearChainParentsPrecede(bones);
    if i > 0 {
      ChainRestPosition(bones, i - 1);
    }
  }

  /** The last bone of a linear chain sits at the free edge of the page. */
  lemma LastBoneAtFreeEdge(bones: seq<Bone>)
    requires IsLinearChain(bones)
    ensures ParentsPrecede(bones)
    ensures RestX(bones, PageSegments) == PageWidth
  {
    ChainRestPosition(bones, PageSegments);
  }
}
