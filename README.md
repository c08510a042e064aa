# tgf core, modelled and verified in Dafny

`tgf` is a small Rust game framework.  Its UI part builds a tree of
elements (boxes called divs, and texts made of text sections and inline
elements) each frame.  It keeps the elements in a slab-allocated store
indexed by id, lays them out in two passes (sizes bottom-up, positions
top-down, with line breaking for text), tracks which element is hot or
active under the mouse, and turns the laid-out tree into batches of GPU
instances ordered by stacking level.  Around the UI sit a bucketed
container with stable handles, input press-state machines, an SDF sprite
batcher, key-frame animation, rectangle and color algebra, vertex-layout
bookkeeping, interpolation helpers and a gizmo vertex queue.

This project models that core one source file per module:

| module | file | source |
|---|---|---|
| `Common` | common.dfy | shared `Option`/`Result`, 2D vectors, sums and half-open ranges |
| `Allocator` | allocator.dfy | src/ui/allocator.rs |
| `ElementStore` | element_store.dfy | src/ui/element_store.rs |
| `Elements` | element.dfy | src/ui/element.rs |
| `ElementContexts` | element_context.dfy | src/ui/element_context.rs |
| `Layout` | layout.dfy | src/ui/layout.rs |
| `Sorting` | sorting.dfy | the stable `sort_by` used by src/ui/batching.rs |
| `Batching` | batching.dfy | src/ui/batching.rs |
| `Buckets` | bucket_array.dfy | src/bucket_array.rs |
| `Input` | input.dfy | src/input.rs |
| `SdfSprites` | sdf_sprite.dfy | src/renderer/sdf_sprite.rs |
| `Transforms` | transform.dfy | `Transform` and its raw form in src/transform.rs |
| `KeyFrameAnimation` | key_frames.dfy | src/key_frames.rs |
| `Rects` | rect.dfy | src/rect.rs |
| `Colors` | color.dfy | src/color.rs |
| `Vertices` | vertex.dfy | src/vertex.rs |
| `Utils` | utils.dfy | src/utils/mod.rs |
| `Lerps` | lerp.dfy | src/lerp.rs |
| `Gizmos` | gizmos.dfy | src/renderer/gizmos.rs |

Code that mutates state is modelled as Dafny classes and methods with
loops:
- the slab allocator and the element store;
- the interaction state, the element context and the board;
- the text layout;
- the bucket array;
- the input state machines;
- the vertex layout builder, `Lerped` and the gizmo queue.

Each method is proved against a specification function, and lemmas prove
what the source promises about that function.  Pure code is modelled as
datatypes, functions and lemmas.  This covers rect and color algebra,
easing, stacking levels and batch keys, hex parsing, the main-axis
offset/step table and line metrics.

Behaviour of the source that the model keeps, and proves:
- The text layout clears its word buffer at whitespace, but not at a
  `'\n'` and not when an inline element forces a break.  `Layout.NewlineKeepsWord` shows that "a\nbc",
  with lines 15 wide and glyphs 10 wide, carries the first glyph onto the
  third line.  It then lies in two line ranges and `finalize` moves it
  down twice.  An inline element has the same effect when it breaks the
  line while a word is pending: "ab" with glyphs 1 wide on a line 2 wide,
  then an element 1 wide, then "cd".  The tiling lemmas therefore assume one of two things.
  `Layout.PlainTextTiled` and the `*Tiled` steps for characters assume
  sections without newlines.  `Layout.AfterElementSectionTiled` assumes
  that an element forces a break only when no word is pending.
- `SpaceBetween` and `SpaceAround` divide the free main-axis space by the
  number of all children, absolute ones included.  The model does the
  same, and `Layout.RunEndsAsAligned` is stated for divs without
  absolute children.
- The layout never reads `DivStyle.gap`.  The model carries the field
  and ignores it too.

## Model

| member | source | states |
|---|---|---|
| Colors.ConstantsOpaque | src/color.rs:33-55 | `TRANSPARENT` is all zero; every named color built with `new` is opaque (alpha 1) and differs from `TRANSPARENT` |
| Colors.AlphaReplacesOnlyAlpha | src/color.rs:112-114 | `alpha` replaces the alpha channel and nothing else: setting it back restores the color, and `new` followed by `alpha` rebuilds any color |
| Colors.MulScalarIsMulByGray | src/color.rs:168-205 | multiplying by a scalar equals multiplying by the opaque gray of that value; scalar multiply and scalar add keep alpha; white is the unit of color multiplication |
| Colors.LerpColorEndpoints | src/color.rs:21-30 | `lerp` (and so `mix`) at factor 0 gives the first color and at factor 1 the second |
| Colors.HexDigitValue | src/color.rs:72-79 | each hex digit in `0-9`, `a-f`, `A-F` maps to its value; any other character maps to 0; the result is below 16 |
| Colors.ParseHexPair | src/color.rs:81-84 | two hex digits give a byte value below 256 |
| Colors.FromHex | src/color.rs:71-98 | succeeds exactly for a 7-byte string starting with `#`; the empty string, a missing `#` and a wrong length are the three error cases; channels are below 256 |
| Colors.HexDigitRoundTrip | src/color.rs:72-79 | reading back a lower- or upper-case hex digit gives its value |
| Colors.FromHexRoundTrip | src/color.rs:71-98 | parsing the `#rrggbb` rendering of any three bytes gives back those bytes |
| Colors.FromHexExample | src/color.rs:71-98 | `#Ff08aB` parses to (255, 8, 171), mixing digit cases |
| Lerps.LerpRealEndpoints | src/lerp.rs:20-30 | float `lerp` is the first value at 0 and the second at 1, stays between them for factors in [0, 1], and is symmetric under swapping the ends and the factor |
| Lerps.LerpBoolChoice | src/lerp.rs:32-40 | bool `lerp` takes the second value exactly when the factor is above 0.5 |
| Lerps.LerpPairComponentwise | src/lerp.rs:104-121 | tuple `lerp` interpolates each component on its own and hits both ends |
| Lerps.Quad010Values | src/lerp.rs:7-14 | `quad_010` maps 0 to 0, 0.5 to 1 and 1 to 0, never exceeds 1 and is symmetric about 0.5 |
| Lerps.Lerped.constructor | src/lerp.rs:53-58 | a new `Lerped` has current and target both equal to the value |
| Lerps.Lerped.Lerp | src/lerp.rs:49-51 | moves `current` towards `target` by the factor, keeps `target`, and for factors in [0, 1] lands between the old current and the target |
| Lerps.Lerped.SetTarget | src/lerp.rs:60-62 | replaces the target and keeps the current value |
| Lerps.Lerped.SetCurrentToTarget | src/lerp.rs:64-66 | snaps current to the target |
| Utils.Pow2At63 | src/utils/mod.rs:12-20 | 2^63 is the largest power of two a `usize` (64-bit) holds |
| Utils.Pow2Add | src/utils/mod.rs:12-20 | powers of two multiply by adding exponents (used for the doubling loop's bound) |
| Utils.NextPow2Number | src/utils/mod.rs:10-20 | returns the least power of two that is at least `n` and at least 2; returns nothing exactly when `n` exceeds 2^63, where the source's doubling overflows |
| Utils.Pow2Monotone | src/utils/mod.rs:12-20 | powers of two grow with the exponent |
| Utils.CenterOffsetAntisymmetric | src/utils/mod.rs:22-35 | `center_offset` of index i is minus that of the mirrored index, and neighbours are one apart |
| Utils.OffsetSumClosedForm | src/utils/mod.rs:22-25 | the first m centre offsets of `total` items add up to m(m - total)/2 |
| Utils.CenteredOffsetsSumToZero | src/utils/mod.rs:22-25 | the centre offsets of all `total` items add up to zero |
| Rects.RectAdd | src/rect.rs:50-59 | adding a vector to a `Rect` keeps its size and moves its `Aabb` by the same vector |
| Rects.AabbAdd | src/rect.rs:77-86 | adding a vector moves both corners by it and keeps the size |
| Rects.AabbDivUndoesMul | src/rect.rs:88-116 | dividing by a nonzero scalar, or by the vector with that scalar twice, undoes multiplying by it |
| Rects.FlippedX | src/rect.rs:123-129 | `flipped_x` swaps the x coordinates of the corners and keeps the y coordinates |
| Rects.FlippedXInvolution | src/rect.rs:123-129 | flipping twice gives the box back |
| Rects.LookingToRight | src/rect.rs:130-137 | the result has max x at least min x; it is the box itself when it already looks right, otherwise the flipped box |
| Rects.LookingToLeft | src/rect.rs:139-145 | the result has max x at most min x; it is the box itself when it already looks left, otherwise the flipped box |
| Rects.LookingIdempotent | src/rect.rs:130-145 | turning a box to the right (or left) twice is the same as once |
| Rects.OverlapArea | src/rect.rs:147-151 | the overlap area is never negative |
| Rects.OverlapAreaProperties | src/rect.rs:147-151 | overlap is symmetric, zero for boxes separated on either axis, and a well-formed box overlaps itself by its own area |
| Rects.Scale | src/rect.rs:153-163 | scaling keeps the centre and multiplies the size by the factor |
| Rects.ScaleXY | src/rect.rs:165-170 | per-axis scaling keeps the centre and multiplies the size componentwise |
| Rects.Square | src/rect.rs:181-188 | `square` is centred on the point with both sides equal to the length |
| Rects.AspectRatio | src/rect.rs:199-204 | x is 1 and y times the width is the height |
| Rects.ConversionsRoundTrip | src/rect.rs:211-227 | `Rect` to `Aabb` and back is the identity both ways, and both `contains` agree across the conversion |
| Rects.LerpRectAabb | src/rect.rs:14-21 | `Rect` lerp hits both ends and commutes with conversion to `Aabb` (lerping the boxes) |
| Vertices.Attributes | src/vertex.rs:64-80 | attribute i has format i, consecutive shader locations from the offset, and byte offset equal to the total size of the formats before it |
| Vertices.LaidOutContiguous | src/vertex.rs:64-80 | the first attribute starts at byte 0, each next one starts where the previous one ends, and the last one ends at the total size |
| Vertices.StackedAppend | src/vertex.rs:35-44 | appending an entry whose locations start at the current location count keeps all locations stacked one after the other |
| Vertices.VertsLayout.constructor | src/vertex.rs:19-25 | a new layout is empty with location offset 0 |
| Vertices.VertsLayout.Add | src/vertex.rs:35-44 | `add` appends one entry with the stride, the step mode and the attributes laid out from the old offset, and advances the offset by the attribute count |
| Vertices.VertsLayout.Layout | src/vertex.rs:46-61 | `layout` yields one buffer layout per entry, in order, with that entry's stride, step mode and attributes |
| Vertices.DistinctLocations | src/vertex.rs:35-44 | in a valid layout no two attributes, in the same entry or in different entries, share a shader location |
| Vertices.LocationCountPrefix | src/vertex.rs:35-44 | the location count of entries only grows as entries are added |
| KeyFrameAnimation.Round | src/key_frames.rs:102 | the rounded value is within one half of its argument and not negative for a non-negative argument |
| KeyFrameAnimation.EasingEndpoints | src/key_frames.rs:97-111 | every easing maps 0 to 0 and 1 to 1, and linear and both cubic easings stay within [0, 1] on [0, 1] |
| KeyFrameAnimation.CubeBounds | src/key_frames.rs:103-107 | the cube of a value in [0, 1] stays in [0, 1], and `(x-1)^3` is minus `(1-x)^3` (what the ease-out cubic relies on) |
| KeyFrameAnimation.New | src/key_frames.rs:13-27 | accepts the frames exactly when there is at least one and the times strictly increase, keeping them unchanged; an empty list is the `NoFrames` error |
| KeyFrameAnimation.Normalized | src/key_frames.rs:29-43 | normalizing keeps the number of frames |
| KeyFrameAnimation.NormalizeTime | src/key_frames.rs:29-43 | the in-place loop over the frames computes the normalized frames |
| KeyFrameAnimation.NormalizedIsUnitRange | src/key_frames.rs:29-43 | normalized frames are still valid, keep their values and easings, lie in [0, 1], start at 0 and, with two or more frames, end at 1 |
| KeyFrameAnimation.NormalizedAt | src/key_frames.rs:35-41 | each normalized time is `(t - first) / (last - first)` |
| KeyFrameAnimation.NormalizedOrdered | src/key_frames.rs:35-41 | normalizing keeps the times strictly increasing |
| KeyFrameAnimation.NormalizedTimeInUnit | src/key_frames.rs:35-41 | each normalized time lies in [0, 1] |
| KeyFrameAnimation.FirstGreater | src/key_frames.rs:48-57 | finds the first frame whose time exceeds the current time, or reports that there is none |
| KeyFrameAnimation.GetCases | src/key_frames.rs:45-73 | before the first frame `get` is the first value, at or after the last frame the last value, and between frames i-1 and i the eased lerp with a factor in [0, 1) |
| KeyFrameAnimation.GetAtFrameTime | src/key_frames.rs:45-73 | at a frame's own time `get` returns that frame's value |
| KeyFrameAnimation.ExampleValues | src/key_frames.rs:116-122 | the frames 0 => -5, 3 => -10, 4 => 20 give -5 at -22, 20 at 5 and 5 at 3.5 |
| Gizmos.LinesVertices | src/renderer/gizmos.rs:97-100 | each line contributes its two end points, in order, with the given color |
| Gizmos.LinesVerticesColor | src/renderer/gizmos.rs:97-100 | every pushed vertex has the given color |
| Gizmos.CubeLines | src/renderer/gizmos.rs:82-95 | a cube is drawn as 12 lines |
| Gizmos.CubeLinesAreEdges | src/renderer/gizmos.rs:71-95 | each of the 12 lines joins two corners that differ in exactly one coordinate, by the side length |
| Gizmos.CubeLineIsEdge | src/renderer/gizmos.rs:71-95 | line k of the cube is such an edge |
| Gizmos.GizmosVertexQueue.constructor | src/renderer/gizmos.rs:33-35 | a new queue is empty |
| Gizmos.GizmosVertexQueue.DrawLine | src/renderer/gizmos.rs:37-40 | appends the two end points with the color and keeps everything queued before |
| Gizmos.GizmosVertexQueue.DrawXyz | src/renderer/gizmos.rs:42-69 | appends the red x, green y and blue z unit axes from the origin |
| Gizmos.GizmosVertexQueue.DrawCube | src/renderer/gizmos.rs:71-101 | appends the 24 end points of the cube's 12 edges, all in the color, after what was queued |
| Gizmos.GizmosVertexQueue.DrawAabb | src/renderer/gizmos.rs:103-113 | appends the four sides of the box at z = 0, as a closed loop of lines |
| Gizmos.GizmosVertexQueue.Prepare | src/renderer/gizmos.rs:158-162 | hands the queued vertices over for upload and leaves the queue empty |
| Input.Discriminant | src/input.rs:425-433 | each press state has its `repr(u8)` discriminant, below 4 |
| Input.FromDiscriminant | src/input.rs:435-441 | the transmute back from a discriminant below 4 is the inverse of `Discriminant` |
| Input.BitOr | src/input.rs:435-441 | `|` returns one of its operands, the one with the larger discriminant |
| Input.DiscriminantInjective | src/input.rs:425-433 | distinct press states have distinct discriminants |
| Input.BitOrLaws | src/input.rs:435-441 | `|` is commutative, associative and idempotent, `Released` is its unit and `JustReleased` absorbs everything |
| Input.PredicatesPartition | src/input.rs:443-459 | exactly one of `pressed` and `released` holds; `just_pressed` implies `pressed`, `just_released` implies `released` |
| Input.Settle | src/input.rs:380-389 | the end-of-frame step keeps whether a button is pressed and leaves no `Just*` state |
| Input.SettleIdempotent | src/input.rs:380-389 | settling twice is settling once, and `Pressed` and `Released` are left alone |
| Input.ButtonIndex | src/input.rs:417-423 | every mouse button indexes one of the five slots |
| Input.MouseButtonState.constructor | src/input.rs:355-357 | all five buttons start `Released` |
| Input.MouseButtonState.ReceiveState | src/input.rs:368-378 | a release makes the button `JustReleased`, a press `JustPressed`; the other buttons are unchanged |
| Input.MouseButtonState.ClearAtEndOfFrame | src/input.rs:380-389 | every button is settled: `JustPressed` to `Pressed`, `JustReleased` to `Released` |
| Input.Without | src/input.rs:505-508 | `retain` removes every occurrence of the key and keeps all other entries with their multiplicities |
| Input.KeyState.constructor | src/input.rs:461-466 | all three key lists start empty |
| Input.KeyState.Key | src/input.rs:469-479 | `key` is `JustPressed` iff the key was just pressed, else `Pressed` iff held, else `JustReleased` iff just released, else `Released` |
| Input.KeyState.ClearAtEndOfFrame | src/input.rs:493-499 | clears the just-pressed and just-released lists and keeps the held keys, so every key then reads `Pressed` or `Released` |
| Input.KeyState.ReceiveElementState | src/input.rs:501-516 | a press is appended to just-pressed and pressed; a release removes every occurrence from pressed and is appended to just-released; the key then reads `JustPressed`, or `JustReleased` unless it was also just pressed |
| Input.WithoutAbsent | src/input.rs:505-508 | removing a key that is not held changes nothing |
| Input.InputState.constructor | src/input.rs:164-180 | a new input has no keys, released buttons, no per-frame events and zero cursor vectors |
| Input.InputState.EndFrame | src/input.rs:182-196 | settles keys and buttons, resets every per-frame flag and option, zeroes the cursor delta and records the cursor position as last frame's |
| Input.InputState.SpaceShiftUpdown | src/input.rs:250-259 | +1 for space held, -1 for left shift held, summed |
| Input.InputState.RfUpdown | src/input.rs:261-270 | +1 for R held, -1 for F held, summed |
| Input.InputState.ArrowJustLeftRight | src/input.rs:272-280 | -1 iff left was just pressed, else 1 iff right was just pressed, else 0 |
| Input.PressThenEndFrame | src/input.rs:493-516 | a key pressed in one frame reads `Pressed` after the frame ends |
| SdfSprites.ToRaw | src/renderer/sdf_sprite.rs:197-210 | `to_raw` uploads the transform as its raw affine matrix (which moves the origin to the sprite's position) and copies offset, size, uv, color and SDF parameters |
| Transforms.ToRaw | src/transform.rs:106-125 | the raw matrix of a transform is affine: its first three columns end in 0 and its translation column is the position followed by 1 |
| Transforms.ToRawMapsAxes | src/transform.rs:106-118 | for any rotation the raw matrix sends the origin to the position and each unit axis to the position plus that axis's rotated direction times the matching scale component |
| Transforms.UnrotatedScalesThenTranslates | src/transform.rs:106-118 | under the identity rotation the raw matrix scales a point component-wise, then moves it by the position |
| Transforms.NewTranslates | src/transform.rs:31-38 | a transform made by `Transform::new` uploads a pure translation by its position |
| SdfSprites.BackToFrontPreorder | src/renderer/sdf_sprite.rs:113-117 | the back-to-front comparison is a total preorder, so the sort is well defined |
| SdfSprites.SortedBackToFront | src/renderer/sdf_sprite.rs:113-117 | the sorted sprites are a permutation of the input whose squared distances to the camera never increase |
| SdfSprites.TilesPartition | src/renderer/sdf_sprite.rs:121-139 | every sprite index lies in exactly one batch |
| SdfSprites.TilesOrdered | src/renderer/sdf_sprite.rs:121-139 | batch ranges come in increasing order without overlap |
| SdfSprites.ExtendTiles | src/renderer/sdf_sprite.rs:135-137 | a sprite with the last batch's texture extends that batch and keeps the tiling |
| SdfSprites.OpenTiles | src/renderer/sdf_sprite.rs:128-134 | a sprite with a new texture opens a one-sprite batch after the last one and keeps the tiling |
| SdfSprites.StepTiles | src/renderer/sdf_sprite.rs:125-138 | one loop step (including the first, from the empty `0..0` batch of the first texture) keeps the tiling of the sprites seen so far |
| SdfSprites.BatchSprites | src/renderer/sdf_sprite.rs:105-142 | empty input gives no instances and no batches; otherwise the slice is sorted back to front, one raw instance per sprite is pushed in sorted order, and the batches tile the sprites with non-empty ranges, distinct neighbouring textures and each sprite in a batch of its own texture |
| SdfSprites.BatchSorted | src/renderer/sdf_sprite.rs:119-141 | the loop over the sorted sprites yields the instances and the tiling batches |
| Sorting.InsertPermutes | src/ui/batching.rs:290-295 | inserting an element adds exactly it to the multiset |
| Sorting.InsertSorted | src/ui/batching.rs:290-295 | inserting into a sorted sequence keeps it sorted |
| Sorting.InsertRankClass | src/ui/batching.rs:290-295 | inserting after the equivalent elements keeps their relative order (stability step) |
| Sorting.SortBySorted | src/ui/batching.rs:290-295 | the stable sort yields a sorted permutation of its input |
| Sorting.SortByOrdered | src/ui/batching.rs:290-295 | the result of the sort is sorted |
| Sorting.SortByPermutes | src/ui/batching.rs:290-295 | the result of the sort is a permutation of the input |
| Sorting.SortByStable | src/ui/batching.rs:290-295 | elements that compare equal keep their input order, as `sort_by` promises |
| Sorting.SortByLength | src/ui/batching.rs:290-295 | sorting keeps the length |
| Allocator.ExtendHighWater | src/ui/allocator.rs:60-71 | with an empty free list the number of live slots equals the high-water mark (the debug assertion), and writing the slot at the high-water mark keeps the slab invariant with one more live slot |
| Allocator.PopFree | src/ui/allocator.rs:72-80 | the free-list head lies below the high-water mark and stores the index of the next free slot; writing the value there and moving the head to that next index keeps the slab invariant |
| Allocator.PushFree | src/ui/allocator.rs:83-98 | a live slot lies below the high-water mark and off the free list; turning it into a free slot linked to the old head and making it the new head keeps the invariant with one slot fewer live |
| Allocator.OverwriteLive | src/ui/element_store.rs:183-186 | writing a new value into a live slot keeps the slab invariant unchanged |
| Allocator.SlabAllocator.constructor | src/ui/allocator.rs:40-57 | a new slab of capacity `cap` has no live slot, a high-water mark of 0 and an empty free list (head `usize::MAX`) |
| Allocator.SlabAllocator.Alloc | src/ui/allocator.rs:59-81 | allocation fails exactly when the free list is empty and the high-water mark has reached the capacity (the source's panic); otherwise it writes the value into a slot that was not live, touches no other slot, and takes the free-list head when there is one, else the slot at the high-water mark |
| Allocator.SlabAllocator.AllocAtHighWater | src/ui/allocator.rs:62-71 | with no free slot, the value goes to the slot at the high-water mark, which was never written, and both the live count and the mark grow by one |
| Allocator.SlabAllocator.AllocFromFreeList | src/ui/allocator.rs:72-80 | with a free slot, the value goes to the head of the free list, the head moves to the index stored there and the high-water mark stays |
| Allocator.SlabAllocator.Dealloc | src/ui/allocator.rs:83-98 | freeing a live slot returns its value, decrements the live count, keeps the high-water mark, and pushes the slot on the front of the free list; no other slot changes |
| Allocator.DeallocThenAlloc | src/ui/allocator.rs:74-97 | the slot freed last is the one handed out next (last in, first out), and the free list, counts and mark return to what they were |
| ElementStore.Store.constructor | src/ui/element_store.rs:34-40 | a new store has an empty id map and a slab of 4096 slots with nothing allocated |
| ElementStore.Store.GetComputedBounds | src/ui/element_store.rs:50-61 | returns a value exactly when the id is in the id map, and then it is the bounds of the element in the slot the map names |
| ElementStore.Store.AllElementIds | src/ui/element_store.rs:63-68 | the ids returned are exactly the keys of the id map |
| ElementStore.Store.NewBox | src/ui/element_store.rs:120-136 | allocates a slot holding the element (failing exactly when the slab is full) and, when the element has an id, points that id at the new slot, replacing any older entry; no other slot changes |
| ElementStore.Store.StoreElement | src/ui/element_store.rs:94-108 | stores the element with default computed data under the given id; the stored box carries the id and the element reads back unchanged |
| ElementStore.Store.StoreComputed | src/ui/element_store.rs:255-267 | stores an element together with its computed data, keeping that data as it is; on success the slot was free before and every other slot is unchanged, the id map gains the id (unless `NONE`); an exhausted slab changes nothing and reports `Err` |
| ElementStore.Store.DropBox | src/ui/element_store.rs:139-156 | returns the dropped box, removes its id from the map only when the map still names this slot, and frees the slot onto the free list |
| ElementStore.Store.SetElement | src/ui/element_store.rs:183-186 | replaces the element of a live box in place, keeping its id and every other slot |
| ElementStore.StoreThenDrop | src/ui/element_store.rs:128-155 | storing under an id and dropping that box leaves the map without the id |
| ElementStore.ShadowThenDropOld | src/ui/element_store.rs:143-152 | dropping an older box whose id a newer box has taken over leaves the entry pointing at the newer box |
| Elements.FixedProperties | src/ui/element.rs:257-267 | a pixel length ignores the parent's length, `FULL` is the whole parent length, a fraction is linear in the parent length, and `ZERO` is always 0 |
| Elements.EdgesBuilders | src/ui/element.rs:330-371 | each edge builder sets only its own edges: `horizontal` and `vertical` commute, `left`+`right` is `horizontal`, `top`+`bottom` is `vertical`, both together are `all`, and a later call to a builder overrides an earlier one |
| Elements.AllBuilders | src/ui/element.rs:309-338 | `Corners::all` and `Edges::all` give every corner and every edge the same value |
| Elements.StyleSetters | src/ui/element.rs:203-221 | `center` and `size` touch different fields, so they commute; each is idempotent; after `size` both dimensions are fixed pixel lengths whatever the parent's size; `center` changes only the two alignments |
| Elements.DefaultStyleNeutral | src/ui/element.rs:182-201 | the default style has no fixed size, no padding, no offset, no absolute anchor, z-index 0, no gap, a transparent color, the Y axis and start alignment |
| Elements.BoundsContainsRect | src/ui/element.rs:539-547 | `ComputedBounds::contains` holds exactly when the rectangle with the same position and size contains the point, inclusive on all edges, so both corners of bounds with a non-negative size are inside |
| Elements.AccessorsAgree | src/ui/element_store.rs:202-237 | `from_element` keeps the element and starts from zero bounds; exactly one of `div()` and `text()` is present, matching the variant; `computed_size` reads the bounds of whichever it is |
| Elements.ChildAppends | src/ui/element.rs:93-101 | `child` appends exactly one child at the end, keeping the earlier children and the style; that child holds the element with default computed data and no id; `child_with_id` differs only in the id |
| Elements.FullProperties | src/ui/element.rs:108-116 | `full` makes the div as wide and tall as its parent, anchored at (0, 0), and transparent; it is idempotent and leaves the children and every other style field alone |
| ElementContexts.HotActiveOf | src/ui/element_context.rs:270-276 | `hot_active(id)` is `Hot` exactly when the state is hot on `id`, `Active` exactly when it is active on `id`, and `None` exactly when the state is not about `id` (`is(id)` fails) |
| ElementContexts.HotTransition | src/ui/element_context.rs:287-327 | after a transition the state is hot exactly when the button is up and something is hovered (then on the hovered element), and active exactly when the button is down and the state was active or something is hovered (on the same element if it was active, else on the hovered one); a click starts only from hot with the button down over an element, and ends only from active with the button up over an element |
| ElementContexts.InteractionState.constructor | src/ui/element_context.rs:258-267 | the default interaction state is `None` with nothing hovered and no click edge |
| ElementContexts.InteractionState.Transition | src/ui/element_context.rs:235-245 | records the hovered element, clears both click edges and then applies the hot-state transition; at most one click edge is set, a started click leaves the hovered element active after being hot, an ended click leaves it hot after being active |
| ElementContexts.InteractionState.Of | src/ui/element_context.rs:248-255 | the interaction of one element: its hot/active status and whether it is the hovered, click-started or click-ended element |
| ElementContexts.InteractionState.OfExclusive | src/ui/element_context.rs:227-255 | two different elements are never both hot or active, never both hovered and never both carry the same click edge |
| ElementContexts.ClickSequence | src/ui/element_context.rs:304-325 | press over a hot element starts a click and makes it active; it stays active with the button held wherever the cursor goes; releasing over it ends the click and makes it hot again; releasing elsewhere drops it without a click |
| ElementContexts.ClickEdgesNeedHistory | src/ui/element_context.rs:295-325 | pressing while entering an element from the idle state makes it active without a started click, and releasing over a different element ends the click on that other element |
| ElementContexts.NextHotActive | src/ui/element_context.rs:416-454 | an element becomes active only from hot, over it, on the frame the button goes down, and stays active until the frame the button comes up; it is hot exactly when over it in every other case that leaves it not active; from `None` it never jumps to active |
| ElementContexts.FirstHit | src/ui/element_context.rs:74-81 | `None` exactly when no recorded bounds contain the point; otherwise the id of the first recorded bounds containing it, all earlier ones missing it |
| ElementContexts.ElementContext.constructor | src/ui/element_context.rs:28-33 | a new context has no recorded bounds and the default interaction state |
| ElementContexts.ElementContext.ClearIdBounds | src/ui/element_context.rs:36-38 | empties the recorded bounds and leaves the interaction state alone |
| ElementContexts.ElementContext.Visit | src/ui/element_context.rs:86-90 | appends the id with its bounds unless the id is `NONE`, so no recorded entry carries `NONE` |
| ElementContexts.ElementContext.HoveredElement | src/ui/element_context.rs:74-81 | the loop returns the first recorded id whose bounds contain the cursor, never `NONE` |
| ElementContexts.ElementContext.StartFrame | src/ui/element_context.rs:67-72 | the hovered element is the first hit at the cursor, and the interaction state takes the transition for it with the left button's pressed state |
| ElementContexts.ElementContext.StartFrameScaled | src/ui/element_context.rs:55-64 | the same as `start_frame` with the cursor first scaled from screen pixels to the fixed layout height |
| ElementContexts.ScaleToFixedHeight | src/ui/element_context.rs:62 | both coordinates are multiplied by the fixed height over the screen height, so the bottom edge of the screen maps to the fixed height |
| ElementContexts.Board.constructor | src/ui/element_context.rs:400-412 | a new board keeps the given size and starts with a zero position offset |
| ElementContexts.Board.Resize | src/ui/element_context.rs:369-371 | the size becomes the window size in pixels; the offset stays |
| ElementContexts.Board.ResizeTo | src/ui/element_context.rs:381-383 | the size becomes the given vector; the offset stays |
| ElementContexts.Board.ResizeScaledToFixedHeight | src/ui/element_context.rs:377-379 | the height stays fixed and the width follows the window's aspect ratio |
| Buckets.CountTrueFull | src/bucket_array.rs:102-104 | the occupied count equals the number of slots exactly when every slot is occupied, so `is_full` means no free slot |
| Buckets.NewBucket | src/bucket_array.rs:46-58 | a new bucket is valid, carries the given index, and has every slot free and a count of 0 |
| Buckets.BucketInsert | src/bucket_array.rs:60-82 | fails exactly when the bucket has no free slot (the source's assertion); otherwise fills the first free slot at or above the lowest maybe-free index, touches no other slot, counts one more and stays valid |
| Buckets.FreeSlotExists | src/bucket_array.rs:61-62 | a valid bucket that is not full has a free slot at or above its lowest maybe-free index, so the scan cannot reach the panic |
| Buckets.BucketRemove | src/bucket_array.rs:84-100 | removing an occupied slot returns its element, frees only that slot, counts one fewer, stays valid and leaves the bucket not full |
| Buckets.ElementsLength | src/bucket_array.rs:147-149 | the number of elements the walk visits equals the sum of the buckets' occupied counts |
| Buckets.PermutationDistinct | src/bucket_array.rs:131-133 | when the bucket indices are 0..n-1 in some order, they are pairwise distinct and each is below n |
| Buckets.PermutedLookups | src/bucket_array.rs:140-143 | reordering the buckets keeps the index set, the total count and the bucket found for every index |
| Buckets.SwapRemove | src/bucket_array.rs:167 | `swap_remove` drops exactly the element at the index: one element shorter, and the multiset loses that element only |
| Buckets.FirstMatch | src/bucket_array.rs:179-201 | `None` exactly when no element satisfies the predicate; otherwise the first element in order that does |
| Buckets.UnfullHasRoom | src/bucket_array.rs:135-139 | a valid bucket in the unfull list has a free slot |
| Buckets.OpenBucket | src/bucket_array.rs:130-134 | opening a bucket with the next index when no bucket has room keeps the array invariant and every lookup |
| Buckets.FillLast | src/bucket_array.rs:135-144 | filling a free slot of the last unfull bucket, and moving it to the full list if it became full, keeps the invariant, counts one more, makes the new handle find the element (it found nothing before) and changes no other handle |
| Buckets.RemoveFromUnfull | src/bucket_array.rs:154-159 | removing from an unfull bucket in place keeps the invariant, counts one fewer, returns what the handle found, leaves the handle empty and changes no other handle |
| Buckets.RemoveFromFull | src/bucket_array.rs:161-170 | removing from a full bucket and moving it (by `swap_remove`) to the end of the unfull list keeps the invariant, counts one fewer, empties only that handle |
| Buckets.BucketArray.constructor | src/bucket_array.rs:119-126 | a new array has no buckets, length 0, and no handle finds anything |
| Buckets.BucketArray.Len | src/bucket_array.rs:147-149 | `len` is the number of elements the `foreach` walk visits |
| Buckets.OccupiedValuesHas | src/bucket_array.rs:205-218 | a value is among those a bucket's walk visits up to a slot exactly when some earlier slot holds it |
| Buckets.ElementsHas | src/bucket_array.rs:204-219 | a value is among the elements of a bucket list exactly when some slot of some bucket holds it |
| Buckets.BucketArray.ContentsAreLookups | src/bucket_array.rs:147-149 | a value is among the array's contents exactly when some handle finds it |
| Buckets.InsertInto | src/bucket_array.rs:128-145 | on the full and unfull lists: succeeds exactly when buckets have a slot; the new lists stay valid with one more element, the returned handle found nothing before and finds the element now, every other handle is unchanged, and the element is among those the walk visits |
| Buckets.InsertLists | src/bucket_array.rs:128-145 | opening a bucket when none has room and filling a free slot of the last unfull bucket (moving it to the full list once full) keeps the lists valid, adds exactly the new handle's element and changes no other handle |
| Buckets.BucketArray.Insert | src/bucket_array.rs:128-145 | succeeds exactly when buckets have at least one slot; then the length grows by one, the returned handle found nothing before and finds the element now, and every other handle is unchanged; the stored element is among the contents |
| Buckets.BucketArray.Remove | src/bucket_array.rs:151-177 | succeeds exactly when the handle finds an element; then it returns that element, the handle finds nothing, the length drops by one and every other handle is unchanged; a handle naming no bucket is the source's panic, reported as `BucketNotFound` with nothing changed |
| Buckets.BucketArray.RemoveInPlace | src/bucket_array.rs:154-170 | removing through the position of the handle's bucket: the handle's element comes out and nothing else changes, or the slot is out of range and nothing changes |
| Buckets.BucketArray.Foreach | src/bucket_array.rs:203-220 | visits exactly the stored elements: full buckets first, then unfull ones, each bucket in slot order, skipping free slots |
| Buckets.BucketArray.Find | src/bucket_array.rs:179-201 | returns the first stored element in `foreach` order that satisfies the predicate, or `None` when none does |
| Buckets.VisitBuckets | src/bucket_array.rs:204-219 | the outer loop over a bucket list visits the values of each bucket in list order |
| Buckets.VisitSlots | src/bucket_array.rs:205-218 | the inner loop visits the occupied slots of one bucket in slot order; in a full bucket every slot is occupied (the assertion) |
| Buckets.FindInBuckets | src/bucket_array.rs:180-198 | the outer search returns the first match among the values of the bucket list |
| Buckets.FindInSlots | src/bucket_array.rs:181-197 | the inner search returns the first match among the occupied slots of one bucket |
| Buckets.InsertThenRemove | src/bucket_array.rs:270-298 | inserting an element and removing it through the returned handle gives the element back and restores the length and every lookup |
| Batching.Cmp | src/ui/batching.rs:214-226 | the stacking comparison yields -1, 0 or 1 |
| Batching.CmpTotalOrder | src/ui/batching.rs:200-226 | the comparison is 0 exactly on equal levels, is antisymmetric and transitive: a total order |
| Batching.StackingPriority | src/ui/batching.rs:169-226 | a higher z-index comes later (in front) whatever the rest; at the same z-index a higher text level does; at the same z-index and text level a deeper nesting level does; and a level ranked earlier never has a higher z-index |
| Batching.KeyDeterminesKind | src/ui/batching.rs:155-167 | for primitives with sound texture and font addresses, two batch keys are equal exactly when the batch kinds are equal, so the XOR mask keeps sdf-texture keys apart from plain-texture keys |
| Batching.KeyParity | src/ui/batching.rs:156-166 | with an even (aligned) address, a key is odd exactly for alpha-sdf rects |
| Batching.MaskFlipsParity | src/ui/batching.rs:162 | XOR with the odd mask makes an even address odd |
| Batching.MaskInjective | src/ui/batching.rs:162 | XOR with the mask maps different addresses to different keys |
| Batching.SoundKeys | src/ui/batching.rs:155-167 | primitives whose addresses are sound have keys that agree exactly with their kinds, pair by pair |
| Batching.BoundsFromComputed | src/ui/batching.rs:59-64 | the instance bounds are the box from the position to the position plus the size, and contain the position when the bounds do |
| Batching.NewRectRaw | src/ui/batching.rs:43-57 | a rect instance carries the div's bounds, color, border radius, color, width and softness, and shadow width, curve and color |
| Batching.GlyphsOfText | src/ui/batching.rs:377-387 | one glyph instance per glyph of the section, in order, each with the section's color and shadow intensity |
| Batching.CountOfAppend | src/ui/batching.rs:354-388 | appending a primitive grows the instance array of its category by one, or by its glyph count for text, and leaves the other arrays alone |
| Batching.CountOfMonotone | src/ui/batching.rs:298-388 | instance arrays only grow as primitives are processed |
| Batching.StartBatched | src/ui/batching.rs:307-352 | the first primitive opens one batch covering exactly itself |
| Batching.ExtendBatched | src/ui/batching.rs:307-322 | a primitive with the last batch's key joins that batch and the batching invariant holds for the longer prefix |
| Batching.OpenBatched | src/ui/batching.rs:309-352 | a primitive with a different key finishes the last batch at the current array length and opens a new one starting there, keeping the batching invariant |
| Batching.SameKeySameKind | src/ui/batching.rs:309-321 | a primitive sharing the last batch's key has that batch's kind, so joining it puts the instance in the right array |
| Batching.CollectLevels | src/ui/batching.rs:234-284 | every primitive of an element sits strictly deeper than its parent's level and at least at the parent's text level |
| Batching.ChildrenInFront | src/ui/batching.rs:239-260 | a visible div is its own first primitive, and each primitive of its subtree at the same z-index and text level ranks strictly after it: children are drawn in front of their parent |
| Batching.CollectPrimElements | src/ui/batching.rs:234-284 | the recursive walk appends exactly the primitives of the element, in tree order, to the list |
| Batching.CollectChildrenInto | src/ui/batching.rs:258-260 | the loop over a div's children appends each child's primitives in order |
| Batching.CollectSectionsInto | src/ui/batching.rs:265-281 | the loop over a text's sections appends one primitive per text section and the primitives of inline elements, in order |
| Batching.CollectSection | src/ui/batching.rs:267-280 | one section step takes the glyph range of the next text-section index and advances that index only for text sections |
| Batching.ByLevelPreorder | src/ui/batching.rs:295 | comparing the stacking levels of two pairs is a total preorder |
| Batching.SortedByLevel | src/ui/batching.rs:295 | sorting the primitives gives a permutation ordered back to front by level, with equal levels in collection order |
| Batching.NextBatches | src/ui/batching.rs:305-352 | one step of batch bookkeeping keeps the batching invariant for the longer prefix |
| Batching.FinishAndOpen | src/ui/batching.rs:309-351 | finishing the last batch at its array's length and opening a new empty batch at the primitive's array length |
| Batching.PushInstances | src/ui/batching.rs:354-388 | the instance arrays become those of the longer prefix: one rect, textured rect or alpha-sdf rect, or the section's glyphs |
| Batching.FinishLast | src/ui/batching.rs:391-400 | finishing the last batch leaves a batch list satisfying the batching invariant for all primitives |
| Batching.BatchStep | src/ui/batching.rs:304-389 | one iteration of the main loop extends the instance arrays and the batches from a prefix to the next prefix |
| Batching.BatchPrims | src/ui/batching.rs:297-409 | the instance arrays hold the instances of the sorted primitives in order, and the batches tile the primitives with non-empty runs, neighbouring keys differing, every primitive in a batch of its own kind and key, and each batch's range spanning exactly its primitives' instances |
| Batching.SoundPermutation | src/ui/batching.rs:295 | sorting does not break address soundness |
| Batching.GetBatches | src/ui/batching.rs:287-409 | collects the primitives of all elements, sorts them stably by stacking level, and batches the sorted list as `BatchPrims` states |
| Batching.GetBatchesOf | src/ui/batching.rs:229-231 | the batches of one element are those of the list holding it alone |
| Batching.ConsistentDiv | src/ui/batching.rs:258-260 | a div can be batched without a panic exactly when each of its children can |
| Batching.ConsistentText | src/ui/batching.rs:265-279 | a text can be batched without a panic exactly when each text section's index among the text sections names a recorded glyph range within the glyphs, and each inline element can be batched |
| Batching.ConsistentTextFrom | src/ui/batching.rs:265-279 | a text recording at least one glyph range per text section, each within its glyphs, whose inline elements can all be batched, can be batched without a panic |
| Batching.BatchRangesTile | src/ui/batching.rs:297-409 | the batches of each category share out that category's instance array in order: the first starts at 0 and each ends where the next batch of its category begins |
| Batching.BatchRangesCover | src/ui/batching.rs:297-409 | the last batch of each category ends at the length of that category's instance array, and a category without batches has no instances |
| Layout.Assemble | src/ui/layout.rs:133-164 | `assemble` puts the main and cross values on the axes that `disassemble` reads them from, for either main axis |
| Layout.MainAxisDistribution | src/ui/layout.rs:232-268 | with the offset and step of each main-axis alignment, the run of children starts at 0 and ends at the content size for `Start`, leaves equal space on both sides for `Center`, ends at the main size for `End`, fills the main size exactly for `SpaceBetween` with several children (one child stays at the start), and leaves half a step at each end for `SpaceAround` |
| Layout.CrossAlignment | src/ui/layout.rs:195-203 | a child's cross offset is 0 at the start, leaves equal space on both sides when centered, and puts its far edge on the parent's far edge at the end |
| Layout.MergeMetrics | src/ui/layout.rs:383-389 | merged metrics take the larger ascent, the smaller (more negative) descent and the larger line gap, and the new-line size is ascent minus descent plus line gap |
| Layout.MergeMetricsLaws | src/ui/layout.rs:383-389 | merging is commutative, associative and idempotent, and the result bounds both inputs |
| Layout.IsAbsolute | src/ui/layout.rs:272-286 | `is_absolute` holds exactly when `absolute_unit_pos` is present, and never for a text |
| Layout.ChildrenSizeSum | src/ui/layout.rs:88-116 | the main component of the children's size is the sum of the main sizes of the children that are not absolute; no children give zero |
| Layout.ChildrenSizeMax | src/ui/layout.rs:88-116 | the cross component of the children's size is non-negative and at least the cross size of every child that is not absolute, and it is 0 or equal to the cross size of one such child (it is their maximum) |
| Layout.AbsoluteChildIgnored | src/ui/layout.rs:95-99 | an absolute child does not change the children's size |
| Layout.WithGlyph | src/ui/layout.rs:468-495 | adding a glyph advances the line by the glyph's advance; a visible glyph is pushed at the old advance and joins the word; a whitespace glyph pushes nothing and clears the word; lines and section ranges stay |
| Layout.BrokenLine | src/ui/layout.rs:497-508 | breaking a line closes the current line at the glyph count and starts a new line there, with the given metrics or zero metrics; glyphs and word stay |
| Layout.Carried | src/ui/layout.rs:435-452 | carrying the pending word to the new line keeps the layout state valid and keeps the glyph count, the word, the number of lines, the section ranges, the inline element lines and the maximum width |
| Layout.CarriedMoves | src/ui/layout.rs:435-452 | carrying the word moves its glyphs from the finished line to the new line: the finished line's range ends the word's length earlier, the new line's range starts that much earlier and its advance grows by the word's advance, the earlier lines and the glyphs before the word are unchanged and the word's glyphs are re-laid from the start of the new line |
| Layout.AfterChar | src/ui/layout.rs:413-459 | one character keeps the layout state valid, never drops a line or a glyph, and keeps the section ranges, the inline element lines and the maximum width |
| Layout.AfterCharRules | src/ui/layout.rs:413-459 | a line break happens exactly at `'\n'` or when the glyph's advance would pass the maximum width; `'\n'` keeps the glyphs and the word and resets the advance; whitespace at an overflow drops its glyph and clears the word; other characters at an overflow open the new line at the carried word's first glyph with the word's advance plus the glyph's; without overflow the line range stays and the advance grows by the glyph's; a glyph is added exactly when the character is not `'\n'`, has a uv rectangle and is not dropped whitespace |
| Layout.AfterChars | src/ui/layout.rs:413-460 | the loop over a section's characters keeps the same facts for any prefix of the string |
| Layout.AfterTextSection | src/ui/layout.rs:405-463 | a text section records exactly the range of glyphs it added and keeps the state valid |
| Layout.AfterElementSection | src/ui/layout.rs:510-538 | an inline element adds no glyph and records the index of the line that holds it |
| Layout.SetPos | src/ui/layout.rs:521 | setting an element's position changes only the position of its bounds |
| Layout.FinalLines | src/ui/layout.rs:550-552 | the finished lines are the closed lines followed by the current line ending at the glyph count |
| Layout.Finalized | src/ui/layout.rs:540-596 | finalizing keeps the number of sections, the section glyph ranges and the number of glyphs |
| Layout.LaidOutSections | src/ui/layout.rs:393-403 | laying out a prefix of the sections gives a valid state with the given maximum width, one element line per inline element and one glyph range per text section |
| Layout.TextLayout.constructor | src/ui/layout.rs:312-321 | a new text layout is in the initial state: no glyphs, no lines, an empty current line and an empty word |
| Layout.TextLayout.AddGlyphToCurrentLine | src/ui/layout.rs:468-495 | the fields change as `WithGlyph` states |
| Layout.TextLayout.BreakLine | src/ui/layout.rs:497-508 | the fields change as `BrokenLine` states |
| Layout.TextLayout.CarryWord | src/ui/layout.rs:435-452 | the loop moving the word's glyphs changes the fields as `Carried` states |
| Layout.TextLayout.LayoutChar | src/ui/layout.rs:414-459 | one iteration of the character loop changes the fields as `AfterChar` states: a newline breaks the line; an overflowing whitespace breaks it and clears the word; an overflowing visible glyph breaks it, carries the word and adds the glyph; anything else adds the glyph |
| Layout.TextLayout.LayoutChars | src/ui/layout.rs:413-460 | the character loop reaches `AfterChars` for the whole string |
| Layout.TextLayout.LayoutTextSection | src/ui/layout.rs:405-463 | the fields change as `AfterTextSection` states |
| Layout.TextLayout.LayoutElementSection | src/ui/layout.rs:510-538 | the inline element is sized for the maximum width, placed at the advance of the line that holds it, and the fields change as `AfterElementSection` states |
| Layout.TextLayout.Layout | src/ui/layout.rs:393-403 | the section loop reaches the state and sections of `LaidOutSections` |
| Layout.TextLayout.Finalize | src/ui/layout.rs:540-596 | computes exactly the sections and computed data of `Finalized` |
| Layout.RelaidMovesX | src/ui/layout.rs:444-452 | re-laying the word's glyphs changes only their x position, which becomes the advance plus the advance of the earlier word glyphs plus the glyph's own offset; the uv rectangle, the size and the y position stay |
| Layout.RelayWord | src/ui/layout.rs:444-452 | the word's glyphs (the last ones) are laid again from the advance, each at the advance of the earlier word glyphs plus its offset, and the advance grows by the word's total advance |
| Layout.SetBaselines | src/ui/layout.rs:555-573 | the line loop moves every line's glyphs down to its baseline, records each baseline, and yields the total height and the widest line's advance |
| Layout.ShiftGlyphRange | src/ui/layout.rs:565-568 | moves down exactly the glyphs in the line's range |
| Layout.PlaceInlineElements | src/ui/layout.rs:576-581 | each inline element's top is set so that its bottom sits on the bottom of its line |
| Layout.GetAndSetSize | src/ui/layout.rs:33-40 | sizing dispatches to the div or text rule and returns the computed size, as `Sized` states |
| Layout.DivGetAndSetSize | src/ui/layout.rs:52-85 | the div's size is `Sized`: for each combination of fixed width and height, the children are sized for the inner maximum, and a missing dimension is the content plus padding |
| Layout.SizedDiv | src/ui/layout.rs:52-85 | a sized div is its children sized for the inner maximum, with the content size as their combined size and its own size from the style rules |
| Layout.GetAndSetChildSizes | src/ui/layout.rs:88-116 | the children loop sizes each child for the maximum and returns their combined size |
| Layout.TextGetAndSetSize | src/ui/layout.rs:289-292 | a text's size comes from laying out the text for the maximum width |
| Layout.LayoutText | src/ui/layout.rs:312-324 | laying out a text from the initial state and finalizing gives `LaidOutText` |
| Layout.SetPosition | src/ui/layout.rs:43-48 | positioning dispatches to the div or text rule, as `Placed` states |
| Layout.DivSetPosition | src/ui/layout.rs:118-124 | the div takes the position plus its offset and places its children |
| Layout.SetChildPositions | src/ui/layout.rs:168-225 | the child loop places each child at `ChildPos` and advances the running main offset past non-absolute children |
| Layout.TextSetPosition | src/ui/layout.rs:294-309 | the text takes the position plus its offset, places its inline elements relative to it and moves its glyphs by it |
| Layout.SetSectionPositions | src/ui/layout.rs:299-303 | each inline element is placed at the text's position plus its position within the text |
| Layout.MoveGlyphs | src/ui/layout.rs:305-308 | each glyph moves by the text's position |
| Layout.LayoutInSize | src/ui/layout.rs:20-23 | the box is sized for the given size and then placed at the offset, and the result can be batched without the glyph slicing panicking |
| Layout.LaidOutConsistent | src/ui/layout.rs:20-23 | whatever an element held before, sizing and placing it gives every text at any depth one glyph range per text section, each within its glyphs, so `get_batches` can slice them |
| Layout.SizedConsistent | src/ui/layout.rs:33-41 | `get_and_set_size` leaves every text in the element consistent with its sections |
| Layout.SizedTextConsistent | src/ui/layout.rs:312-326 | `layout_text` records a glyph range within the glyphs for each text section and keeps the kind of every section |
| Layout.LaidOutSectionsConsistent | src/ui/layout.rs:393-403 | laying out a prefix of the sections keeps each section's kind and leaves every inline element consistent |
| Layout.PlaceInlineKinds | src/ui/layout.rs:576-581 | placing the inline elements on their lines keeps each section's kind and each inline element's consistency |
| Layout.SetPosConsistent | src/ui/layout.rs:521 | moving an element neither makes nor breaks its consistency |
| Layout.PlacedConsistent | src/ui/layout.rs:43-49 | `set_position` neither makes nor breaks an element's consistency |
| Layout.LayoutBox | src/ui/layout.rs:16-18 | the box is sized without bound and placed at the origin |
| Layout.LayoutRelativeToOwnSize | src/ui/layout.rs:25-29 | the box is sized without bound and placed at the offset minus its own size times the unit position |
| Layout.CarriedKeepsUvs | src/ui/layout.rs:444-452 | carrying the word moves glyphs but keeps their texture coordinates in order |
| Layout.AfterCharUvs | src/ui/layout.rs:413-459 | when only whitespace lacks texture coordinates (the debug assertion), a character appends its glyph's coordinates exactly when it is not whitespace |
| Layout.AfterCharsUvs | src/ui/layout.rs:413-460 | the glyphs of a section are exactly its visible characters, in order |
| Layout.SectionRangesTile | src/ui/layout.rs:405-463 | the section glyph ranges tile the glyphs: they start at 0, follow each other without gaps and end at the glyph count |
| Layout.LineTopSum | src/ui/layout.rs:555-573 | the height of a text is the sum of its line heights plus one line gap between each two lines, and each baseline lies below the previous one by its descent, line gap, extra gap and the next ascent |
| Layout.MaxAdvanceIsMax | src/ui/layout.rs:556-563 | the text width is non-negative, at least every line's advance, and either 0 or the advance of some line |
| Layout.ShiftLinesTiled | src/ui/layout.rs:559-573 | when the line ranges tile the glyphs, each glyph moves down by the baseline of the one line that holds it, and glyphs past the lines done so far stay |
| Layout.InitialTiled | src/ui/layout.rs:312-321 | the initial state is valid and its line ranges tile the (empty) glyphs |
| Layout.WithGlyphTiled | src/ui/layout.rs:468-495 | adding a glyph keeps the line ranges tiling the glyphs |
| Layout.BrokenLineTiled | src/ui/layout.rs:497-508 | breaking a line keeps the line ranges tiling the glyphs |
| Layout.CarriedTiled | src/ui/layout.rs:435-452 | after a break the word fits in both lines' ranges and carrying it keeps the tiling |
| Layout.AfterCharTiled | src/ui/layout.rs:413-459 | a character keeps the tiling, provided a newline does not arrive with a pending word |
| Layout.AfterCharsTiled | src/ui/layout.rs:413-460 | a string without newlines keeps the tiling |
| Layout.AfterTextSectionTiled | src/ui/layout.rs:405-463 | a text section without newlines keeps the tiling |
| Layout.AfterElementSectionTiled | src/ui/layout.rs:510-538 | an inline element keeps the tiling, provided an overflow does not arrive with a pending word |
| Layout.FinalizedGlyphs | src/ui/layout.rs:550-573 | when the lines tile the glyphs, every finalized glyph belongs to exactly the line that moved it down to that line's baseline |
| Layout.PlainTextTiled | src/ui/layout.rs:393-403 | a text of sections without newlines and without inline elements ends with lines that tile its glyphs |
| Layout.ExampleSteps | src/ui/layout.rs:413-459 | on the string "a\nbc", with lines 15 wide and glyphs 10 wide, the states after 'a', the newline and 'b' are the ones computed by hand: the newline closes the first line on 'a' but keeps 'a' in the word, and 'b' joins it on the second line |
| Layout.ExampleCarry | src/ui/layout.rs:420-456 | when 'c' overflows the second line, the word holds 'a' (laid before the newline) and 'b' (after it); carrying both pulls the second line's range back to `1..0` and starts the third line at 0, while 'a' stays in the first line's range `0..1` |
| Layout.NewlineKeepsWord | src/ui/layout.rs:420-456 | the word is not cleared at a newline, so laying out "a\nbc" with lines 15 wide and glyphs 10 wide leaves the first glyph in the ranges of the first and the third line: the lines stop tiling the glyphs, and finalizing moves that glyph down by both baselines (to y = 3) while 'b' ends at y = 2 |
| Layout.ExampleNotTiled | src/ui/layout.rs:420-456 | after "a\nbc" the three final lines no longer tile the glyphs: the first glyph lies in the first line's range and in the third's |
| Layout.ExampleFinalized | src/ui/layout.rs:540-573 | finalizing the example's state moves the first glyph down by two baselines |
| Layout.FinalizedShiftTwice | src/ui/layout.rs:559-573 | a glyph in the ranges of two lines is moved down by both baselines |
| Layout.DivSizeRules | src/ui/layout.rs:52-116 | a sized div keeps its style and position, sizes every child for the inner maximum, has as content size its children's combined size, whose main part is the sum of the non-absolute main sizes, and takes each fixed dimension from the style and each other from the content plus padding |
| Layout.PlacedBounds | src/ui/layout.rs:43-48 | placing an element puts its bounds at the position plus its own offset, keeps its kind and offset, and moves all text glyphs by the same amount |
| Layout.DivPlacement | src/ui/layout.rs:118-225 | a placed div sits at the position plus its offset and each child is placed at `ChildPos`, so its bounds end at that position plus its own offset |
| Layout.RunOffsetClosedForm | src/ui/layout.rs:205-224 | the running main offset before child `k` is the first offset plus the sizes of the earlier non-absolute children plus one step for each of them |
| Layout.MainOffsetClosedForm | src/ui/layout.rs:192-224 | a div's running main offset before child `k` is its first offset plus the earlier non-absolute main sizes plus one step after each of them |
| Common.StepsProduct | src/ui/layout.rs:218-219 | `n` steps of `step` added one after another come to `n` times `step`, so the offset before child `k` is the first offset plus the sizes plus the count of earlier non-absolute children times the step |
| Layout.MainSizesCount | src/ui/layout.rs:88-116 | the non-absolute main sizes are at most one per child, and exactly one per child when none is absolute |
| Layout.RunEndsAsAligned | src/ui/layout.rs:205-268 | with no absolute children, the children's run ends (before the last step) where the alignment rule says it does |
| Layout.AbsoluteAnchor | src/ui/layout.rs:214-217 | an absolute child's point at its unit position coincides with the parent's inner-area point at the same unit position |
| Layout.SizedKeepsOffset | src/ui/layout.rs:33-40 | sizing an element does not change its own offset |
| Layout.PlacedAtOwnSize | src/ui/layout.rs:25-29 | placing at the offset minus the size times the unit position puts the element's point at that unit position on the offset plus its own offset |
| Layout.RelativeToOwnSizeAnchor | src/ui/layout.rs:25-29 | after `layout_relative_to_own_size`, the element's point at the unit position is at the offset plus its own offset |


Several source functions are modelled by specification functions that
carry no contract of their own; what they compute is stated by the
contracts of the rows above that use them:

- Layout: `MainOffsetAndStep` (`main_offset_and_step`) by
  `Layout.MainAxisDistribution` and `Layout.RunEndsAsAligned`;
  `CrossOffset` (`calc_cross_offset`) by `Layout.CrossAlignment`; `Sized`
  (`get_and_set_size`) by `Layout.GetAndSetSize`, `Layout.DivSizeRules`
  and `Layout.LayoutInSize`; `Placed` and `ChildPos` (`set_position` and
  the child loop) by `Layout.DivPlacement`, `Layout.DivSetPosition` and
  `Layout.AbsoluteAnchor`; `LaidOutText` (`layout_text`) by
  `Layout.LayoutText`.
- KeyFrameAnimation: `Get` and the easing function `Y` by
  `KeyFrameAnimation.GetCases`, `KeyFrameAnimation.GetAtFrameTime` and
  `KeyFrameAnimation.EasingEndpoints`.
- Batching: `Collect`, `CollectChildren` and `CollectSections`
  (`get_batches` and its traversal) by `Batching.CollectPrimElements`,
  `Batching.CollectLevels`, `Batching.CollectChildrenInto` and
  `Batching.CollectSectionsInto`; `PrimKey` by `Batching.KeyDeterminesKind`
  and `Batching.KeyParity`; `ByLevel` by `Batching.ByLevelPreorder` and
  `Batching.SortedByLevel`.
- Colors: `MulScalar`, `MulColor` and `AddScalar` by
  `Colors.MulScalarIsMulByGray`; `LerpColor` by
  `Colors.LerpColorEndpoints`; `New` by `Colors.AlphaReplacesOnlyAlpha`;
  `FormatHex` by `Colors.FromHexRoundTrip`.
- Rects: `Center` and `Size` by `Rects.Scale`, `Rects.ScaleXY`,
  `Rects.Square` and `Rects.AspectRatio`; `AabbMul`, `AabbDiv` and
  `AabbDivVec` by `Rects.AabbDivUndoesMul`; `LerpRect` and `LerpAabb` by
  `Rects.LerpRectAabb`.
- Lerps: `LerpReal` by `Lerps.LerpRealEndpoints`; `LerpBool` by
  `Lerps.LerpBoolChoice`; `LerpPair` by `Lerps.LerpPairComponentwise`;
  `Quad010` by `Lerps.Quad010Values`.
- Utils: `CenterOffset` and `CenterOffsetF` by
  `Utils.CenterOffsetAntisymmetric` and `Utils.OffsetSumClosedForm`;
  `Pow2` (the doubling of `next_pow2_number`) by `Utils.NextPow2Number`.
- SdfSprites: `BackToFront` and `DistanceSquared` by
  `SdfSprites.SortedBackToFront`; `SpriteKey` and `BatchKey` by
  `SdfSprites.OpenTiles`, `SdfSprites.ExtendTiles` and
  `SdfSprites.StepTiles`.
- Sorting: `SortBy` and `Insert` (the stable `sort_by` the source calls)
  by `Sorting.InsertSorted`, `Sorting.InsertPermutes`,
  `Sorting.InsertRankClass` and `Sorting.SortByLength`.
- Gizmos: `LineVertices` and `AabbLoop` by
  `Gizmos.GizmosVertexQueue.DrawXyz` and `DrawAabb`; `Corner` by
  `Gizmos.CubeLinesAreEdges`.
- Vertices: `TotalSize` and `FormatSize` by `Vertices.LaidOutContiguous`.
- Input: the press predicates (`pressed`, `just_pressed`, `released`,
  `just_released`) by `Input.PredicatesPartition` and `Input.Settle`; the
  key predicates by `Input.KeyState.Key` and
  `Input.KeyState.ReceiveElementState`; the `InputState` shortcuts
  `LeftClick`, `LeftReleased`, `RightClick`, `CtrlZPressed` and
  `CtrlSPressed` are one-line reads of those predicates.
- Buckets: `BucketArray.Lookup` and `BucketArray.Contents` by
  `Buckets.BucketArray.ContentsAreLookups`, `Insert`, `Remove`,
  `Foreach`, `Find` and `Len`.

## Left out

- The element tree is modelled by value: a div holds its children as nested values.  The slab handles (`ElementBox` pointing into the thread-local store) are modelled only in `ElementStore`, so aliasing through handles is not captured.
- Thread-local storage, `UnsafeCell` and `Rc` are not modelled.  Texture and font addresses are plain 64-bit values, and the facts that live `Rc` allocations give them are assumed by `Batching.GetBatches` (below).
- `f32` and `f64` are modelled as exact reals.  Rounding, infinities and NaN are not modelled, and neither is the `as f32` narrowing of the text layout.  `DVec2::MAX`, the unbounded layout size, is a large constant.
- Integer widths are not modelled: `u32` bucket indices, `i16` z-index, `u16` text and nesting levels, and `usize` counts are unbounded.  Overflow of stacking levels in very deep trees is not captured.
- Panics are modelled as error results with the state unchanged:
  - allocator out of memory (`Allocator.SlabAllocator.Alloc`);
  - a bucket size of 0 (`Buckets.BucketArray.Insert`; the source first increments `len` and pushes a bucket);
  - an unknown bucket index or a slot index past the bucket's end (`Buckets.BucketArray.Remove`; the source first decrements `len`);
  - hex parsing (`Colors.FromHex`);
  - an empty key-frame list (`KeyFrameAnimation.New` returns `NoFrames`);
  - key-frame times that do not strictly increase (`KeyFrameAnimation.New` returns `NotIncreasing`);
  - the overflow of the doubling in `next_pow2_number` for `n` above 2^63 (`Utils.NextPow2Number` returns nothing).
- Batching.GetBatches: requires every element to be `Consistent`.  The source indexes `text_section_glyphs` and slices the glyphs with each range, and panics when the computed data do not match the sections (an element changed after layout, say).  That panic is excluded by the precondition, not reported as an error.  `Layout.LaidOutConsistent` proves that every element `layout_in_size` produces meets it.  The same holds for `Batching.GetBatchesOf`.
- Batching.GetBatches: requires `AddressesSound`: every font and texture address is nonzero and even, and no font shares an address with a texture.  The source reads these addresses from live `Rc`s, which are distinct allocations with at least 2-byte alignment.  The model assumes this and does not derive it.  The same holds for `Batching.GetBatchesOf`.
- Buckets.BucketArray.Remove: removing a handle whose slot is free is undefined behaviour in the source.  The model requires a live handle.
- Layout.PlainTextTiled: the tiling of line ranges is proved only for sections without `'\n'` and without inline elements, because the source breaks it otherwise (see `Layout.NewlineKeepsWord`).
- Layout.AfterCharsUvs: assumes that only whitespace glyphs lack texture coordinates.  The source only checks this with a debug assertion.
- Layout.RunEndsAsAligned: stated for divs without absolute children.
- Rects.AspectRatio, Rects.AabbDiv, Rects.AabbDivVec, Rects.AabbDivUndoesMul, ElementContexts.ScaleToFixedHeight and ElementContexts.Board.ResizeScaledToFixedHeight require a nonzero divisor.  Division by zero gives infinities in the source.
- `KeyFrames<T>` and `Lerped<T>` are generic over any `Lerp` type; the model fixes `T` to `f32`, modelled as a real.
- Transforms.ToRaw: the matrix is built with the formulas of glam's `Affine3A::from_scale_rotation_translation` and `Mat3::from_quat`, over exact reals; glam is not part of this model.  glam's debug check that the quaternion is normalized is not modelled, and the orthonormality of the rotation columns for a unit quaternion is not proved.  The rest of src/transform.rs (the rotations, `transform_point`, `compute_transform` and the slerp of `Lerp for Transform`) is not modelled.
- KeyFrameAnimation.EasingEndpoints: the cosine easing takes `cos(pi * t)` as a parameter, since there is no trigonometry over reals.
- `ElementStore.Store.AllElementIds` returns the ids as a set; the source returns a vector in map iteration order.
- `Input::receive_window_event`, `wasd_vec` and `arrow_vec` are not modelled.  They decode winit events or normalize float vectors.  The remaining one-line `Input` accessors only read fields.
- `hsv_to_rgb` and `color_map_to_srgb` are not modelled.  They are float colour-space conversions.
- GPU buffers, pipelines, textures and uploads are not modelled.  This covers `ElementBatchesGR`, the sprite renderer and `Gizmos::prepare` beyond clearing the queue.  `Board::set_element` is not modelled as one operation.  It only chains `ElementContexts.ElementContext.ClearIdBounds`, `Layout.LayoutInSize` and `Batching.GetBatches`.  The hand-off of computed bounds to the context during layout (`ComputedBoundsVisitor`) is modelled only as `ElementContexts.ElementContext.Visit`.
- `BucketArray::foreach_mut` and the `Drop` impl of `Bucket` are not modelled: mutation through callbacks and memory release.
