# Cutout tool: selection state machine and mask pipeline

The tool shows an image. The user presses `r` and clicks two corners of a box on it.
Pressing `g` segments the working image inside the box into four labels, refines
the labels into a hard 0/255 mask and shows the masked cutout. `q` quits. The
repository holds two drafts of the program:

- `src/main.cpp` is the full tool. It keeps the original image and a working copy,
  and the copy is reset whenever selection starts again. It commits the selected
  rectangle and runs the mask pipeline.
- `main.cpp` is the earlier draft. It keeps only the selection flags, the click
  buffers and one image, and draws the outlines straight onto that image.

The Dafny project models both:

- `geometry.dfy` (module `Geometry`): points, OpenCV-style rectangles
  (`x, y, width, height`), and the normalisation of two clicks into the
  componentwise-minimum / componentwise-maximum corners.
- `raster.dfy` (module `Raster`): images and 8-bit masks as grids of rows. It also
  has the abstract outline painter, which only promises to keep the image's size.
- `input.dfy` (module `Input`): the event stream of mouse callbacks and key polls.
- `mask_pipeline.dfy` (module `MaskPipeline`): each stage of `createMask` and the
  `copyTo` composite, as functions over whole grids.
  - The segmentation routine is given as a function value with a contract. Its
    result has the image's size and holds labels 0..3, and nothing else is known
    about it.
  - The 3x3 Gaussian blur is the integer 1-2-1 by 1-2-1 kernel over 16, rounded
    half up, with reflect-101 borders.
  - The threshold is strict: a value becomes 255 only when it is above 128.
  - The main result is `RefineIsWeightedMajority`. A refined pixel is 255 exactly
    when the foreground carries at least 9 of the kernel's 16 weight units around
    it. Two consequences follow: at interior pixels, isolated specks are removed and pinholes are filled.
- `cutout_session.dfy` (module `Cutout`): the session of `src/main.cpp`.
  - `State` is a value, and the step functions `Mouse`, `Key`, `KeyReply` and
    `Run` work on it.
  - The class `Cutout.Session` holds the same globals as fields. Its methods
    `MouseCallback`, `HandleKey` and `EventLoop` update those fields in place and
    are proved to follow the step functions.
  - The invariant `Inv` holds in every reachable state. It says the working image
    is the original, or the original with the one outline of the committed
    rectangle, so overlays never accumulate.
- `draft_session.dfy` (module `Draft`): the same for `main.cpp`. Here the outlines
  provably do accumulate.

Three modelling choices follow the code exactly:

- The re-binarisation is `threshold(..., 128, 255, THRESH_BINARY)`, which keeps only
  values strictly above 128. So a pixel whose foreground weight is exactly half the
  kernel (8 of 16, blurred value 128) is dropped.
- The tool neither clamps the rectangle to the image nor reports an invalid rectangle.
  It only checks `width > 0 && height > 0` before it calls `grabCut`; any clamping
  happens inside `grabCut`, which is not modelled.
- The selection mode is two booleans, `selectRectangleMode` and `firstClickDone`. The
  invariant `Inv` shows that only three of their four combinations are reachable.

## Model

| member | source | states |
|---|---|---|
| `Geometry.TopLeftOf` | src/main.cpp:40 | the top-left corner is at or below both clicks in each coordinate and equals one of them: the componentwise minimum |
| `Geometry.BottomRightOf` | src/main.cpp:41 | the bottom-right corner is at or above both clicks in each coordinate and equals one of them: the componentwise maximum |
| `Geometry.RectFromCorners` | src/main.cpp:43 | `Rect(tl, br)` has exactly the corners `tl` and `br` and a non-negative width and height |
| `Geometry.Normalize` | src/main.cpp:38-43 | the committed rectangle's corners are the min/max corners; its extent is non-negative; it has positive area iff the clicks differ in both x and y |
| `Geometry.CornersCommute` | main.cpp:37-40 | the outline corners are the same whichever click came first |
| `Geometry.NormalizeCommutes` | src/main.cpp:38-43 | swapping the two clicks gives the same rectangle |
| `Geometry.NormalizeContainsClicks` | src/main.cpp:40-43 | both clicks lie within the closed box from the rectangle's top-left to its bottom-right corner (the half-open `cv::Rect` itself may exclude clicks on its right or bottom edge) |
| `Geometry.NormalizeOfCorners` | src/main.cpp:43 | normalising the corners of a non-negative rectangle gives the rectangle back |
| `Raster.KeepsSize` | src/main.cpp:46 | the contract assumed of `rectangle`: drawing keeps the image's size; `Cutout.InvImageIsGrid` relies on it |
| `Raster.Filled` | src/main.cpp:59 | `Mat(size, type, v)` has the requested size and the value `v` everywhere |
| `MaskPipeline.InitialLabels` | src/main.cpp:59 | the initial label grid has the image's size and is definite background everywhere |
| `MaskPipeline.Collapse` | src/main.cpp:83 | the collapsed mask has the labels' size, is 0/255 only, and is 255 exactly where the label is 1 or 3 |
| `MaskPipeline.RowTap` | src/main.cpp:91 | one horizontal 1-2-1 tap of the blur lies between 0 and 4*255 |
| `MaskPipeline.KernelSum` | src/main.cpp:91 | the full 3x3 kernel sum lies between 0 and 16*255, so the rounded mean is again a byte |
| `MaskPipeline.IsSegmenter` | src/main.cpp:62 | the contract assumed of `grabCut` (a labels grid of the image's size, labels 0..3); `CreateMask` and `Cutout.CutoutShape` rely on it |
| `MaskPipeline.Reflect101` | src/main.cpp:91 | border positions reflect one step inside the line and interior positions are unchanged |
| `MaskPipeline.Blur` | src/main.cpp:91 | the blurred mask has the input's size; each value is the rounded kernel-weighted mean (kernel weights total 16) |
| `MaskPipeline.BlurKeepsFlatRegions` | src/main.cpp:91 | blurring leaves an interior pixel unchanged when its whole 3x3 neighbourhood holds its value |
| `MaskPipeline.Threshold` | src/main.cpp:94 | the thresholded mask has the input's size, is 0/255 only, and is 255 exactly where the input exceeds 128 |
| `MaskPipeline.Refine` | src/main.cpp:83-94 | collapse, blur and threshold give a mask of the labels' size with every pixel 0 or 255 |
| `MaskPipeline.CreateMask` | src/main.cpp:56-97 | `createMask` returns a mask of the image's size with every pixel exactly 0 or 255 |
| `MaskPipeline.CreateMaskStartsFresh` | src/main.cpp:59-62 | for any label grid of the image's size that is background everywhere, the mask equals the refinement of segmenting from that grid: no earlier result can leak into a call |
| `MaskPipeline.RefineIsWeightedMajority` | src/main.cpp:83-94 | a refined pixel is 255 iff the foreground labels carry at least 9 of the 16 kernel weight units around it |
| `MaskPipeline.RefineRemovesSpecks` | src/main.cpp:83-94 | an interior pixel whose eight neighbours are all background is 0 after refinement |
| `MaskPipeline.RefineFillsPinholes` | src/main.cpp:83-94 | an interior pixel whose eight neighbours are all foreground is 255 after refinement |
| `MaskPipeline.CopyTo` | src/main.cpp:148-149 | the composite has the image's size; each pixel is the image's pixel where the mask is non-zero and black elsewhere |
| `MaskPipeline.CopyToSelects` | src/main.cpp:148-149 | under a 0/255 mask the composite is the image pixel where the mask is 255 and black where it is 0 |
| `MaskPipeline.CopyToIdempotent` | src/main.cpp:148-149 | applying the same mask to the composite again changes nothing |
| `MaskPipeline.CopyToExtremes` | src/main.cpp:148-149 | an all-255 mask keeps the whole image; an all-0 mask gives an all-black image |
| `Cutout.Start` | src/main.cpp:10-13 | both flags start false; the working image and the original are the loaded image; the default rectangle has no area |
| `Cutout.Mouse` | src/main.cpp:17-52 | a mouse event never changes `ogImage`, changes nothing outside selection mode, and commits a new rectangle only on a second click, which leaves selection mode (details in `FirstClick`, `SecondClick`) |
| `Cutout.Key` | src/main.cpp:124-139 | a key never changes `ogImage` or the committed rectangle; it either changes nothing or enters selection mode with the working image reset to the original (details in `EnterSelection`, `OtherKeysChangeNothing`) |
| `Cutout.KeyReply` | src/main.cpp:121-158 | the reply is `Quit` exactly for `q`; a `Shown` reply comes only from `g` with a rectangle of positive area, and carries a 0/255 mask of the image's size (details in `CutoutIffArea`, `CutoutShape`) |
| `Cutout.StartInv` | src/main.cpp:10-13 | the state after loading the image satisfies the session invariant |
| `Cutout.InvImageIsGrid` | src/main.cpp:103 | in every reachable state the working image has the original's size |
| `Cutout.MousePreservesInv` | src/main.cpp:17-52 | every mouse event preserves the session invariant, including "at most one outline, that of the committed rectangle" |
| `Cutout.KeyPreservesInv` | src/main.cpp:121-140 | every key preserves the session invariant |
| `Cutout.Run` | src/main.cpp:116-161 | the loop keeps the invariant and never changes the original image; there is at most one reply per event, and `Quit` can only be the last reply |
| `Cutout.IgnoredClickChangesNothing` | src/main.cpp:20 | a mouse event outside selection mode, or one that is not a left press, changes no state at all |
| `Cutout.FirstClick` | src/main.cpp:22-28 | the first click stores the point and sets `firstClickDone`, stays in selection mode and changes nothing else |
| `Cutout.SecondClick` | src/main.cpp:29-46 | the second click clears both flags, stores the raw point, commits the normalised rectangle and draws only onto the working image; `ogImage` is unchanged |
| `Cutout.CommittedRectHasAreaIff` | src/main.cpp:40-43 | the committed rectangle has positive area iff the two clicks differ in both coordinates |
| `Cutout.SelectCommits` | src/main.cpp:124-139 | `r` and two clicks commit the rectangle of the clicks; the working image is then the original with just this outline |
| `Cutout.SelectOrderIrrelevant` | src/main.cpp:38-43 | clicking the corners in either order gives the same rectangle, flags and image; only the click buffers differ |
| `Cutout.OverlaysDoNotAccumulate` | src/main.cpp:129 | after two selections the working image holds only the second selection's outline over the original |
| `Cutout.EnterSelection` | src/main.cpp:126-137 | `r` outside selection mode resets the working image to the original, turns the mode on and clears `firstClickDone`; it keeps the committed rectangle |
| `Cutout.OtherKeysChangeNothing` | src/main.cpp:121-159 | `r` inside selection mode, and any key but `r`, leave the session state unchanged |
| `Cutout.CutoutIffArea` | src/main.cpp:141-158 | `g` produces a cutout iff the committed rectangle has positive width and height; otherwise it reports that there is no rectangle |
| `Cutout.CutoutShape` | src/main.cpp:145-149 | the cutout's mask is 0/255 and the image's size; its result shows the working image under 255 and black under 0 |
| `Cutout.CutoutRepeatable` | src/main.cpp:141-158 | `g` changes no session state, so a second `g` segments the same input; with the model's pure `grabCut` it gives the same mask and result |
| `Cutout.RectangleSurvivesReentry` | src/main.cpp:129-145 | after `r` a rectangle committed earlier is still accepted by `g`, which now segments the clean original |
| `Cutout.NoCutoutBeforeSelection` | src/main.cpp:143 | the default 0x0 rectangle is rejected, so `g` before any selection shows nothing |
| `Cutout.QuitStops` | src/main.cpp:121-123 | `q` ends the loop with the state unchanged and ignores every later event |
| `Cutout.Scenario100` | src/main.cpp:38-46 | on a 100x100 image, clicks at (10,10) and (90,90) in either order commit the rectangle at (10,10) of size 80x80, and `g` yields a 100x100 mask |
| `Cutout.Session.constructor` | src/main.cpp:101-103 | the session starts with both flags false, default clicks and rectangle, and a working image that is a copy of the original |
| `Cutout.Session.MouseCallback` | src/main.cpp:17-52 | the fields change as `Mouse` says and the invariant is kept; `ogImage` never changes; outside selection mode nothing changes |
| `Cutout.Session.HandleKey` | src/main.cpp:119-159 | the fields change as `Key` says and the reply is `KeyReply` of the old state; `ogImage` and `selectedRect` never change |
| `Cutout.Session.EventLoop` | src/main.cpp:116-161 | dispatching the events one by one up to `q` reaches the state and the replies `Run` gives |
| `Draft.Start` | main.cpp:10-12 | both flags start false and the image is the loaded image |
| `Draft.Mouse` | main.cpp:16-49 | outside selection mode nothing changes; the image changes only on a second click, which leaves selection mode (details in `FirstClick`, `SecondClick`) |
| `Draft.Key` | main.cpp:77-83 | a key never changes the image; it either changes nothing or enters selection mode with `firstClickDone` clear |
| `Draft.Run` | main.cpp:67-91 | the draft's loop keeps `firstClickDone` set only in selection mode |
| `Draft.IgnoredClickChangesNothing` | main.cpp:19 | a mouse event outside selection mode, or one that is not a left press, changes no state |
| `Draft.FirstClick` | main.cpp:21-27 | the first click stores `firstClick` and sets `firstClickDone`, and changes nothing else |
| `Draft.SecondClick` | main.cpp:28-43 | the second click stores the raw point in `secondClick`, clears both flags and draws the min/max outline onto the image |
| `Draft.SelectDrawsOnCurrentImage` | main.cpp:37-43 | a complete selection draws its outline on the image as it already is, not on a fresh copy |
| `Draft.SelectOrderIrrelevant` | main.cpp:37-43 | clicking the corners in either order draws the same image; only the click buffers differ |
| `Draft.OutlinesAccumulate` | main.cpp:77-83 | after two selections the image carries the first outline under the second |
| `Draft.EnterSelection` | main.cpp:77-83 | `r` outside selection mode sets the mode and clears `firstClickDone` without touching the image |
| `Draft.OtherKeysChangeNothing` | main.cpp:72-89 | `r` inside selection mode, and any key but `r`, leave the state unchanged |
| `Draft.QuitStops` | main.cpp:72-74 | `q` ends the loop, and no later event is processed |
| `Draft.Session.constructor` | main.cpp:53-54 | the draft starts with both flags false, default clicks, and the loaded image |
| `Draft.Session.MouseCallback` | main.cpp:16-49 | the fields change as the draft's `Mouse` says; outside selection mode nothing changes |
| `Draft.Session.HandleKey` | main.cpp:70-89 | the fields change as the draft's `Key` says, the image never changes, and `quit` is set exactly for `q` |
| `Draft.Session.EventLoop` | main.cpp:67-91 | dispatching the events one by one up to `q` reaches the state the draft's `Run` gives |

## Left out

- Image loading, windows, `imshow`, `waitKey` polling and callback registration are left out. The events are fed to the model directly as a sequence. A poll that returns no key is a key other than `q`, `r` and `g`. The fatal exit on a failed load is not modelled: the session starts from any grid-shaped image, the empty one included, so every property also holds there.
- Console messages (`cout`) are left out. Both outcomes of `r` reply `Continue`.
- `grabCut` internals (the Gaussian mixture models, the graph cut, its random initialisation, its own clamping of the rectangle) are left out. The routine is a pure function value known only to return labels 0..3 at the image's size. The model claims no determinism or quality beyond that.
- The rasterisation of the 2-pixel green outline (`rectangle`) is left out. It is a function value that only keeps the image's size. What its pixels look like, and whether the outline's pixels end up in the segmented input, is not modelled.
- How OpenCV derives the Gaussian kernel from its sigma, and its fixed-point arithmetic, are left out. The blur is the exact 1-2-1 integer kernel with half-up rounding. The 0/255 output of the pipeline depends only on the threshold.
- The unused `flags` and `userdata` callback parameters are left out. Mouse events other than the left press are ignored, as in the code.
- `cv::Mat` shares pixel buffers between headers. The model gives images value semantics. This is exact for this code: `ogImage` and `image` are only ever related through `clone()`, so the one routine that writes into an image, `rectangle` drawing into `image`, never writes into a buffer that `ogImage` shares, and no other routine writes into a buffer another header shares.
- Geometry.Normalize: coordinates are unbounded integers. C++ `int` overflow in `max - min` cannot happen for window coordinates and is not modelled.
- Cutout.CutoutRepeatable: `g` leaves the session state unchanged in the program too, but the equal second reply holds only for the model's pure `grabCut`. The real `grabCut` initialises its colour models by k-means, which draws on OpenCV's global random number generator; that generator moves on with every call, so two `g` presses in a row may show different masks.
- Cutout.CutoutIffArea: holds for the model's total `grabCut` only. The real `grabCut` throws an uncaught `cv::Exception` when the rectangle, once clamped to the image, holds no pixel; clicks inside the window always lie within the image, so this does not arise for rectangles chosen by clicking.
- Key codes: `Input.KeyEvent`'s `key` is the 8-bit `char` that `waitKey(20)` is narrowed to; codes of the polled key beyond 8 bits are not modelled.
