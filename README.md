# Castle book: page-turn model

A Dafny model of the page-turning core of the castle book viewer (`main.js`).
The viewer shows a spread of two skinned page meshes. A click turns the next
page over with a chain of bones. A per-frame tick advances the turn and, when
it completes, moves to the next page and rebuilds the spread.

The model has five modules:

- `PageConfig` (`page_config.dfy`): page geometry and bend tunables (`PAGE_WIDTH`, `PAGE_SEGMENTS`, `SEGMENT_WIDTH`, `easingFactor`, the curve strengths, the 0.02 progress step). `Optional` holds the nullable-reference datatype.
- `JointChain` (`joint_chain.dfy`): the bone loop of `makePage`, the shape it builds, and the rest position of every bone along the page.
- `SkinBinding` (`skin_binding.dfy`): the skin-index/skin-weight loop over the vertices. JavaScript's `%` is modelled as a truncating remainder.
- `BendSolver` (`bend_solver.dfy`): each bone's target angle and the exponential smoothing step toward it.
- `SpreadController` (`spread_controller.dfy`): the module-level state as a class `Book`, with `showSpread`, the click handler and the `animate` tick body as methods. It also holds two client scenarios.

All arithmetic is over Dafny's exact `real`. A mesh is an id in a set (the
scene) plus a registry entry holding its two face textures and x position.
Each new mesh takes a fresh id. `Math.sin`, `Math.cos` and `Math.PI` are
parameters (`Trig`), and no property depends on their values.

Behaviour of the code the model keeps:

- The vertices at the free edge (`x = PAGE_WIDTH`) get second skin index `PAGE_SEGMENTS + 1`, with weight 0. That is one past the last of the 31 bones, and main.js:45 pushes it as it is (`FreeEdgeBindsPastLastBone`).
- The inside curl term applies to bones `j < 8` and the outside term to bones `j >= 8` (main.js:119-120). The turn bump is `sin(j / flipBones.length * PI)`, so it divides by the bone count, 31 (main.js:121).
- The right page of a spread shows the current page's photo on its front. Its back texture comes from the folder `/description/`, singular (main.js:99). The left page and the turning page use `/descriptions/` (main.js:94, 108) (`RightBackIsNotDescription`).
- Page names are tested for JavaScript truthiness (main.js:93, 98, 106), so an empty name counts as a missing page (`Present`).

## Model

| member | source | states |
|---|---|---|
| `JointChain.MakeBones` | main.js:69-77 | Builds PAGE_SEGMENTS+1 bones. Bone 0 has no bone parent and offset 0. Every bone i>0 has parent i-1 and offset SEGMENT_WIDTH. All start unrotated. |
| `JointChain.ChainRestPosition` | main.js:70-76 | In such a linear chain, bone i rests i segment widths from the spine, i levels below bone 0. |
| `JointChain.LastBoneAtFreeEdge` | main.js:70-76 | The last bone of the chain rests exactly at PAGE_WIDTH, the page's free edge. |
| `SkinBinding.JsRemNonNegative` | main.js:44 | For a non-negative dividend, `%` lies in [0, b) and is the floored remainder of a / b. |
| `SkinBinding.JsRemNonPositive` | main.js:44 | For a non-positive dividend, `%` lies in (-b, 0]: it keeps the dividend's sign. |
| `SkinBinding.BindingOnPage` | main.js:43-46 | For 0 <= x <= PAGE_WIDTH: 0 <= si <= PAGE_SEGMENTS, 0 <= sw < 1 and 0 < 1-sw <= 1. x equals (si + sw) segment widths. si = PAGE_SEGMENTS exactly when x = PAGE_WIDTH. |
| `SkinBinding.FreeEdgeBindsPastLastBone` | main.js:43-46 | At x = PAGE_WIDTH the binding is (PAGE_SEGMENTS, PAGE_SEGMENTS+1) with sw = 0. The second index equals the bone count, one past the last bone. |
| `SkinBinding.BindingInterpolatesRestPositions` | main.js:41-47 | A vertex before the free edge is bound to two bones of the chain and lies between their rest positions. Blending those positions with weights (1-sw, sw) gives the vertex's x back. At the free edge the second index runs past the chain. |
| `SkinBinding.ComputeSkin` | main.js:41-47 | Emits four indices (si, si+1, 0, 0) and four weights (1-sw, sw, 0, 0) per vertex, in vertex order. |
| `SkinBinding.SkinAttributesOnPage` | main.js:41-47 | For vertices on the page, the first index lies in [0, PAGE_SEGMENTS] and the weights sum to 1. The second index exceeds PAGE_SEGMENTS exactly for vertices at the free edge. |
| `BendSolver.TargetAffineInProgress` | main.js:117-122 | The target angle depends on progress only through the turn term, linearly. At progress 0 that term contributes nothing. |
| `BendSolver.Ease` | main.js:123 | The smoothing step exactly halves the gap to the target. It moves toward the target without overshooting. It leaves a bone already at its target unchanged. From rotation 0 it gives half the target. |
| `BendSolver.EaseNGap` | main.js:123 | After k steps toward a fixed target, the gap is the initial gap divided by 2^k. |
| `BendSolver.Bent` | main.js:118-124 | One frame eases every bone toward its own target, halving each bone's gap. It keeps the chain's parents and offsets, so a linear chain stays linear. |
| `BendSolver.BentFromRestAndAtTarget` | main.js:118-124 | From an unrotated chain, the first frame leaves each bone at half its target. A chain already at its targets is left unchanged. |
| `SpreadController.RightBackIsNotDescription` | main.js:94-99 | The right page's back path differs from the description path that the left page and the turning page use. |
| `SpreadController.Advance` | main.js:116 | `min(1, progress + 0.02)` stays in [0, 1]. It reaches 1 exactly when progress + 0.02 >= 1, and otherwise grows by exactly 0.02. |
| `SpreadController.AdvanceFromStart` | main.js:116 | From 0, progress after k <= 50 frames is exactly k * 0.02. |
| `SpreadController.TurnTakesFiftyFrames` | main.js:116 | Starting at 0, progress is below 1 for the first 49 frames and reaches 1 on frame 50. |
| `SpreadController.Book.Valid` | main.js:84-87 | The invariant implies 0 <= idx <= |pages|-1 whenever there is a page. |
| `SpreadController.Book.constructor` | main.js:85-103 | Initial state: idx 0, not flipping, progress 0. Then `showSpread(0)`. |
| `SpreadController.Book.MakePage` | main.js:53-79 | Registers one fresh mesh at x = 0 with the given front and back textures. Returns a fresh unrotated linear bone chain. |
| `SpreadController.Book.ShowSpread` | main.js:90-102 | Removes the previous left and right meshes from the scene. If pages[i] exists, adds exactly two fresh meshes: left at -PAGE_WIDTH (descriptions/photos) and right at 0 (photos/description). Otherwise adds nothing and keeps the old references. |
| `SpreadController.Book.Click` | main.js:105-111 | While flipping, or with no pages[idx+1], nothing changes. Otherwise: flipping, progress 0, idx unchanged, one fresh flip mesh with the next page's textures added to the scene, and a fresh unrotated linear chain. Keeps the invariant. |
| `SpreadController.Book.BendFlipBones` | main.js:118-124 | Replaces the flip bones by their one-frame eased chain at the current progress. |
| `SpreadController.Book.Tick` | main.js:113-134 | When not flipping, nothing changes. When flipping, progress advances by `Advance`. Below 1, only the flip bones change. At 1: flipping ends, idx grows by one, the flip mesh and bones are dropped, two fresh ids are used, and the scene holds exactly the two new spread meshes. Keeps the invariant. |
| `SpreadController.Book.EndTurn` | main.js:116-132 | The frame on which `progress + 0.02` reaches 1: progress becomes exactly 1, flipping ends, the flip bones are dropped, `nextId` grows by two, idx grows by one, the flip mesh leaves the scene, and the new spread is two fresh meshes with the left and right textures of the new page. Keeps the invariant. |
| `SpreadController.ClickAndWait` | main.js:105-133 | A click then 50 frames. With a next page: one page further, no turning mesh, and the new spread alone in the scene. Without one: nothing changes. |
| `SpreadController.ThreePageBook` | main.js:105-133 | With pages ["A","B","C"], four click-and-wait rounds end at idx 2 with two meshes in the scene. The extra clicks are ignored. |

## Left out

- Renderer, scene background, camera, lights and shadow settings (main.js:3-19), and the resize handler (main.js:140-144): display plumbing with no state the turn logic reads.
- Texture loading, colour spaces, filters and the six materials of `makePage` (main.js:54-66): foreign three.js calls. A page mesh keeps only its front and back texture paths.
- `BoxGeometry` vertex generation and `translate` (main.js:35-36): library internals. `ComputeSkin` takes the vertices' x coordinates as input.
- The Uint16/Float32 buffer types of the skin attributes (main.js:48-49): indices and weights stay unbounded integers and exact reals. For vertices on the page all indices fit in 16 bits.
- `Math.sin`, `Math.cos`, `Math.PI` (main.js:117-122): floating-point trigonometry. They are parameters of the model, and no property depends on their values.
- IEEE-754 rounding: `SEGMENT_WIDTH`, `%`, and the progress accumulated in steps of 0.02 are exact reals. `AdvanceFromStart` (progress exactly k * 0.02 after frame k) holds over reals only: in doubles the sum drifts by a few ulps, though `Math.min` still caps it at 1 on frame 50. `FreeEdgeBindsPastLastBone`: the weight exactly 0 at the free edge holds over reals only; in doubles `1.28 % SEGMENT_WIDTH` is a tiny non-zero remainder. How the vertex buffer stores positions (float32 in three.js) is not part of this model.
- The concrete page list (main.js:82): the book's pages are a parameter of the `Book` constructor, and the properties hold for every list.
- `requestAnimationFrame`, `renderer.render` and the DOM click listener (main.js:105, 114, 135, 137): modelled as explicit `Click` and `Tick` calls.
- Binding the skeleton to the mesh and attaching bone 0 to it (main.js:76-77): bone 0's missing bone parent stands for the mesh. The model does not track that the skeleton renders the rotated flip bones.
- Bones are values held in `flipBones`, and the per-bone rotation update rewrites that field. This loses no aliasing: nothing else in the core reads the flip bones. The bone chains built for the left and right pages are never animated and are dropped.
- Mesh disposal: the source only removes meshes from the scene, so removed meshes stay in the model's registry.
