/**
 * The spread controller and animation driver of main.js (lines 81-133): which
 * page meshes are in the scene, the one page being turned, the click handler
 * that starts a turn and the per-frame tick that advances and completes it.
 */
module SpreadController {
  import opened Optional
  import opened PageConfig
  import opened JointChain
  import opened BendSolver

  /** Identity of a mesh object; a fresh mesh gets an id never used before. */
  type MeshId = nat

  /** What the model keeps of a page mesh: its two face textures and its x position. */
  datatype PageMesh = PageMesh(front: string, back: string, x: real)

  /** JavaScript truthiness of `pages[i]`: the index is in range and the name is not empty. */
  predicate Present(pages: seq<string>, i: int) {
    0 <= i < |pages| && pages[i] != ""
  }

  function DescriptionPath(name: string): string { "/descriptions/" + name + ".png" }
  function PhotoPath(name: string): string { "/photos/" + name + ".jpg" }
  /** The back face of a right-hand page is looked up in a folder named `description`, singular. */
  function SingularDescriptionPath(name: string): string { "/description/" + name + ".png" }

  /** The left page of a spread: description in front, photo behind, one page width left of the spine. */
  function LeftPage(name: string): PageMesh { PageMesh(DescriptionPath(name), PhotoPath(name), -PageWidth) }
  /** The right page of a spread: photo in front, at the spine. */
  function RightPage(name: string): PageMesh { PageMesh(PhotoPath(name), SingularDescriptionPath(name), 0.0) }
  /** The page being turned: the next page's photo in front, its description behind, over the right page. */
  function FlipPage(name: string): PageMesh { PageMesh(PhotoPath(name), DescriptionPath(name), 0.0) }

  /** The right page's back texture is never the left page's front texture of the same name. */
  lemma RightBackIsNotDescription(name: string)
    ensures RightPage(name).back != LeftPage(name).front
    ensures RightPage(name).back != FlipPage(name).back
  {
    assert RightPage(name).back[12] == '/';
    assert LeftPage(name).front[12] == 's';
  }

  function Min(a: real, b: real): real { if a <= b then a else b }

  /**
   * One frame's progress update `Math.min(1, progress + 0.02)`: progress stays
   * in [0, 1], grows by exactly one step while that stays below 1, and is
   * capped at 1 otherwise.
   */
  function Advance(p: real): (r: real)
    ensures 0.0 <= p ==> 0.0 <= r
    ensures r <= 1.0
    ensures r == 1.0 <==> p + ProgressStep >= 1.0
    ensures r < 1.0 ==> r == p + ProgressStep
  {
    Min(1.0, p + ProgressStep)
  }

  /** Progress after `k` frames. */
  function AdvanceN(p: real, k: nat): real {
    if k == 0 then p else Advance(AdvanceN(p, k - 1))
  }

  /** From progress 0, frame `k` (up to 50) has progress exactly k * 0.02. */
  lemma {:induction false} AdvanceFromStart(k: nat)
    requires k <= 50
    ensures AdvanceN(0.0, k) == k as real * ProgressStep
  {
    if k > 0 {
      AdvanceFromStart(k - 1);
    }
  }

  /** A turn started at progress 0 completes on exactly the 50th frame, not before. */
  lemma TurnTakesFiftyFrames()
    ensures AdvanceN(0.0, 50) == 1.0
    ensures forall k :: 0 <= k < 50 ==> AdvanceN(0.0, k) < 1.0
  {
    AdvanceFromStart(50);
    forall k | 0 <= k < 50
      ensures AdvanceN(0.0, k) < 1.0
    {
      AdvanceFromStart(k);
    }
  }

  /** The state of the book: the module-level variables of main.js and the scene's page meshes. */
  class Book {
    const pages: seq<string>
    const trig: Trig

    var idx: int
    var leftMesh: Option<MeshId>
    var rightMesh: Option<MeshId>
    var flipMesh: Option<MeshId>
    var flipBones: Option<seq<Bone>>
    var flipping: bool
    var progress: real

    /** The page meshes currently added to the scene. */
    var scene: set<MeshId>
    /** Every page mesh built so far, by id. */
    var meshes: map<MeshId, PageMesh>
    /** The id the next built mesh gets. */
    var nextId: MeshId

    /**
     * The invariant the click handler and the tick keep: `idx` names a present
     * page (or is the initial 0), a turn is in flight exactly when a flip mesh
     * and its bones exist, the next page exists during a turn, and the scene
     * holds exactly the current spread and the turning page.
     */
    ghost predicate Valid()
      reads this
      ensures Valid() ==> 0 <= idx && (|pages| > 0 ==> idx < |pages|)
    {
      && 0 <= idx && (idx > 0 ==> Present(pages, idx))
      && 0.0 <= progress <= 1.0
      && (forall id :: id in meshes ==> id < nextId)
      && (flipping <==> flipMesh.Some?)
      && (flipping <==> flipBones.Some?)
      && (flipping ==>
            && progress < 1.0 && Present(pages, idx + 1)
            && flipMesh.value in meshes && meshes[flipMesh.value] == FlipPage(pages[idx + 1])
            && IsLinearChain(flipBones.value))
      && (Present(pages, idx) <==> leftMesh.Some?)
      && (Present(pages, idx) <==> rightMesh.Some?)
      && (Present(pages, idx) ==>
            && leftMesh.value in meshes && meshes[leftMesh.value] == LeftPage(pages[idx])
            && rightMesh.value in meshes && meshes[rightMesh.value] == RightPage(pages[idx])
            && leftMesh.value != rightMesh.value)
      && (flipping && Present(pages, idx) ==> flipMesh.value !in {leftMesh.value, rightMesh.value})
      && scene == Elems(leftMesh) + Elems(rightMesh) + Elems(flipMesh)
    }

    /** The initial state (main.js:85-87) followed by `showSpread(idx)` (main.js:103). */
    constructor (pages: seq<string>, trig: Trig)
      ensures Valid()
      ensures this.pages == pages && this.trig == trig
      ensures idx == 0 && !flipping && progress == 0.0
      ensures Present(pages, 0) ==>
        scene == {leftMesh.value, rightMesh.value}
        && meshes[leftMesh.value] == LeftPage(pages[0]) && meshes[rightMesh.value] == RightPage(pages[0])
      ensures !Present(pages, 0) ==> scene == {}
    {
      this.pages := pages;
      this.trig := trig;
      idx := 0;
      leftMesh, rightMesh, flipMesh, flipBones := None, None, None, None;
      flipping, progress := false, 0.0;
      scene, meshes, nextId := {}, map[], 0;
      new;
      ShowSpread(idx);
    }

    /** `makePage`: a fresh mesh with the two face textures, at x = 0, and its fresh bone chain. */
    method MakePage(front: string, back: string) returns (mesh: MeshId, bones: seq<Bone>)
      modifies this`meshes, this`nextId
      ensures mesh == old(nextId) && nextId == old(nextId) + 1
      ensures meshes == old(meshes)[mesh := PageMesh(front, back, 0.0)]
      ensures IsLinearChain(bones) && forall j :: 0 <= j < |bones| ==> bones[j].rotY == 0.0
    {
      mesh := nextId;
      nextId := nextId + 1;
      meshes := meshes[mesh := PageMesh(front, back, 0.0)];
      bones := MakeBones();
    }

    /**
     * `showSpread(i)`: take the previous left and right meshes out of the scene,
     * then, only if `pages[i]` exists, build and add a new left and right page.
     */
    method ShowSpread(i: int)
      modifies this`scene, this`meshes, this`nextId, this`leftMesh, this`rightMesh
      ensures var kept := old(scene) - Elems(old(leftMesh)) - Elems(old(rightMesh));
        if Present(pages, i) then
          && leftMesh == Some(old(nextId)) && rightMesh == Some(old(nextId) + 1)
          && nextId == old(nextId) + 2
          && scene == kept + {old(nextId), old(nextId) + 1}
          && meshes == old(meshes)[old(nextId) := LeftPage(pages[i])][old(nextId) + 1 := RightPage(pages[i])]
        else
          && scene == kept && meshes == old(meshes) && nextId == old(nextId)
          && leftMesh == old(leftMesh) && rightMesh == old(rightMesh)
    {
      scene := scene - Elems(leftMesh) - Elems(rightMesh);
      if Present(pages, i) {
        var left, _ := MakePage(DescriptionPath(pages[i]), PhotoPath(pages[i]));
        meshes := meshes[left := meshes[left].(x := -PageWidth)];
        scene := scene + {left};
        leftMesh := Some(left);
      }
      if Present(pages, i) {
        var right, _ := MakePage(PhotoPath(pages[i]), SingularDescriptionPath(pages[i]));
        meshes := meshes[right := meshes[right].(x := 0.0)];
        scene := scene + {right};
        rightMesh := Some(right);
      }
    }

    /**
     * The click handler: ignored while a turn is in flight or when there is no
     * next page; otherwise the next page is built over the right page as the
     * flip mesh and a turn starts at progress 0.
     */
    method Click()
      requires Valid()
      modifies this
      ensures Valid()
      ensures old(flipping) || !Present(pages, old(idx) + 1) ==> unchanged(this)
      ensures !old(flipping) && Present(pages, old(idx) + 1) ==>
        && flipping && progress == 0.0 && idx == old(idx)
        && flipMesh == Some(old(nextId)) && old(nextId) !in old(scene)
        && scene == old(scene) + {old(nextId)}
        && meshes == old(meshes)[old(nextId) := FlipPage(pages[idx + 1])]
        && nextId == old(nextId) + 1
        && leftMesh == old(leftMesh) && rightMesh == old(rightMesh)
        && flipBones.Some? && IsLinearChain(flipBones.value)
        && forall j :: 0 <= j < |flipBones.value| ==> flipBones.value[j].rotY == 0.0
    {
      if flipping || !Present(pages, idx + 1) {
        return;
      }
      var fm, bones := MakePage(PhotoPath(pages[idx + 1]), DescriptionPath(pages[idx + 1]));
      meshes := meshes[fm := meshes[fm].(x := 0.0)];
      scene := scene + {fm};
      flipMesh, flipBones := Some(fm), Some(bones);
      flipping, progress := true, 0.0;
    }

    /**
     * The bone loop of a frame: every flip bone's rotation is eased toward its
     * target at the current progress.
     */
    method BendFlipBones()
      requires flipBones.Some?
      modifies this`flipBones
      ensures flipBones == Some(Bent(trig, old(flipBones.value), progress))
    {
      ghost var before := flipBones.value;
      var n := |flipBones.value|;
      var j := 0;
      while j < n
        invariant 0 <= j <= n
        invariant flipBones.Some? && |flipBones.value| == n
        invariant forall k :: 0 <= k < j ==>
          flipBones.value[k] == before[k].(rotY := Ease(before[k].rotY, BendTarget(trig, k, n, progress)))
        invariant forall k :: j <= k < n ==> flipBones.value[k] == before[k]
      {
        var b := flipBones.value[j];
        var ang := BendTarget(trig, j, n, progress);
        flipBones := Some(flipBones.value[j := b.(rotY := b.rotY + (ang - b.rotY) * EasingFactor)]);
        j := j + 1;
      }
      assert flipBones.value == Bent(trig, before, progress);
    }

    /**
     * One animation frame. While turning: advance the progress, bend the flip
     * bones, and when the progress reaches 1 end the turn: drop the flip mesh,
     * step to the next page and rebuild the spread. Otherwise nothing changes.
     */
    method Tick()
      requires Valid()
      modifies this
      ensures Valid()
      ensures !old(flipping) ==> unchanged(this)
      ensures old(flipping) ==> progress == Advance(old(progress))
      ensures old(flipping) && progress < 1.0 ==>
        && flipping && idx == old(idx)
        && scene == old(scene) && meshes == old(meshes) && nextId == old(nextId)
        && flipMesh == old(flipMesh) && leftMesh == old(leftMesh) && rightMesh == old(rightMesh)
        && flipBones == Some(Bent(trig, old(flipBones).value, progress))
      ensures old(flipping) && progress == 1.0 ==>
        && !flipping && idx == old(idx) + 1
        && flipMesh.None? && flipBones.None? && old(flipMesh).value !in scene
        && leftMesh == Some(old(nextId)) && rightMesh == Some(old(nextId) + 1)
        && nextId == old(nextId) + 2
        && scene == {old(nextId), old(nextId) + 1}
        && meshes == old(meshes)[old(nextId) := LeftPage(pages[idx])][old(nextId) + 1 := RightPage(pages[idx])]
    {
      if flipping && flipBones.Some? {
        var p := Min(1.0, progress + ProgressStep);
        if p >= 1.0 {
          EndTurn();
        } else {
          progress := p;
          BendFlipBones();
        }
      }
    }

    /**
     * The frame on which the progress reaches 1: the bones are bent one last
     * time, then the turn ends, the flip mesh leaves the scene and the spread
     * one page further is shown.
     */
    method EndTurn()
      requires Valid() && flipping && progress + ProgressStep >= 1.0
      modifies this
      ensures Valid()
      ensures progress == 1.0 && !flipping && idx == old(idx) + 1
      ensures flipMesh.None? && flipBones.None? && old(flipMesh).value !in scene
      ensures leftMesh == Some(old(nextId)) && rightMesh == Some(old(nextId) + 1)
      ensures nextId == old(nextId) + 2
      ensures scene == {old(nextId), old(nextId) + 1}
      ensures meshes == old(meshes)[old(nextId) := LeftPage(pages[idx])][old(nextId) + 1 := RightPage(pages[idx])]
    {
      progress := 1.0;
      BendFlipBones();
      flipping := false;
      idx := idx + 1;
      scene := scene - Elems(flipMesh);
      flipMesh, flipBones := None, None;
      ShowSpread(idx);
    }
  }

  /**
   * A click on a book at rest followed by 50 frames. With a next page the turn
   * completes on the last frame, one page further, with no turning mesh left
   * and only the freshly built spread in the scene; without one nothing at all
   * changes.
   */
  method ClickAndWait(book: Book)
    requires book.Valid() && !book.flipping
    modifies book
    ensures book.Valid() && !book.flipping
    ensures !Present(book.pages, old(book.idx) + 1) ==> unchanged(book)
    ensures Present(book.pages, old(book.idx) + 1) ==>
      && book.idx == old(book.idx) + 1 && book.flipMesh.None?
      && book.scene == {book.leftMesh.value, book.rightMesh.value}
      && book.meshes[book.leftMesh.value] == LeftPage(book.pages[book.idx])
      && book.meshes[book.rightMesh.value] == RightPage(book.pages[book.idx])
  {
    ghost var accepted := Present(book.pages, book.idx + 1);
    book.Click();
    var k := 0;
    while k < 50
      invariant 0 <= k <= 50
      invariant book.Valid()
      invariant !accepted ==> unchanged(book)
      invariant accepted ==> (book.flipping <==> k < 50)
      invariant accepted && k < 50 ==> book.idx == old(book.idx) && book.progress == k as real * ProgressStep
      invariant accepted && k == 50 ==> book.idx == old(book.idx) + 1 && book.flipMesh.None?
      invariant accepted && k == 50 ==> book.scene == {book.leftMesh.value, book.rightMesh.value}
    {
      book.Tick();
      k := k + 1;
    }
  }

  /**
   * A three-page book: four clicks, each followed by a full turn's worth of
   * frames, leave the book on its last page; the clicks past it are ignored.
   */
  method ThreePageBook(trig: Trig) returns (finalIdx: int, finalScene: set<MeshId>)
    ensures finalIdx == 2
    ensures |finalScene| == 2
  {
    var book := new Book(["A", "B", "C"], trig);
    ClickAndWait(book);
    ClickAndWait(book);
    ClickAndWait(book);
    ClickAndWait(book);
    finalIdx, finalScene := book.idx, book.scene;
  }
}
