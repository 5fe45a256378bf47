/**
 * The interactive cutout session: two clicks select a rectangle, `r` (re)enters
 * selection mode, `g` segments the working image inside the selected rectangle
 * and shows the refined mask and the cutout, `q` ends the session.
 *
 * `State` and the step functions `Mouse`, `Key`, `KeyReply` and `Run` say what
 * each event does; the class `Session` holds the same state in fields and its
 * methods are proved to follow those functions.
 */
module Cutout {
  import opened Geometry
  import opened Raster
  import opened MaskPipeline
  import opened Input

  /** The session variables: the two flags, the click buffers, the committed rectangle and the two images. */
  datatype State = State(
    selectRectangleMode: bool,
    firstClickDone: bool,
    firstClick: Point,
    secondClick: Point,
    selectedRect: Rect,
    ogImage: Image,   // the loaded image, never drawn on
    image: Image)     // the working copy shown in the window, carrying the outline

  /** What the loop shows or does after a key. */
  datatype Reply =
    | Continue                          // nothing beyond the console message
    | Quit                              // leave the loop
    | NoRectangle                       // `g` without a selection of positive area
    | Shown(mask: Mask, result: Image)  // `g`: the refined mask and the cutout, each in its own window

  /** The state once the image is loaded: not selecting, default clicks and rectangle, the working image a copy. */
  function Start(og: Image): (s: State)
    ensures !s.selectRectangleMode && !s.firstClickDone
    ensures s.ogImage == og && s.image == og
    ensures !s.selectedRect.HasArea()
  {
    State(false, false, Point(0, 0), Point(0, 0), EmptyRect, og, og)
  }

  /** The mouse callback. */
  function Mouse(s: State, event: int, x: int, y: int, paint: Painter): (t: State)
    ensures t.ogImage == s.ogImage
    ensures !s.selectRectangleMode ==> t == s
    ensures t.selectedRect != s.selectedRect ==> s.firstClickDone && !t.selectRectangleMode
  {
    if event != EVENT_LBUTTONDOWN || !s.selectRectangleMode then s
    else if !s.firstClickDone then
      s.(firstClick := Point(x, y), firstClickDone := true)
    else
      var second := Point(x, y);
      var topLeft := TopLeftOf(s.firstClick, second);
      var bottomRight := BottomRightOf(s.firstClick, second);
      s.(secondClick := second, firstClickDone := false, selectRectangleMode := false,
         selectedRect := RectFromCorners(topLeft, bottomRight),
         image := paint(s.image, topLeft, bottomRight))
  }

  /** The session state after a key: only `r` outside selection mode changes it. */
  function Key(s: State, key: char): (t: State)
    ensures t.ogImage == s.ogImage && t.selectedRect == s.selectedRect
    ensures t == s || (t.selectRectangleMode && !t.firstClickDone && t.image == s.ogImage)
  {
    if key == 'r' && !s.selectRectangleMode then
      s.(image := s.ogImage, selectRectangleMode := true, firstClickDone := false)
    else s
  }

  /** What a key shows: `q` quits, `g` runs the pipeline on the working image if the rectangle has area. */
  function KeyReply(s: State, key: char, grabCut: GrabCut): (r: Reply)
    requires IsGrid(s.image) && IsSegmenter(grabCut)
    ensures r == Quit <==> key == 'q'
    ensures r.Shown? ==> key == 'g' && s.selectedRect.HasArea() && SameSize(s.image, r.mask) && IsBinary(r.mask)
  {
    if key == 'q' then Quit
    else if key == 'g' then
      if s.selectedRect.HasArea() then
        var mask := CreateMask(s.image, s.selectedRect, grabCut);
        Shown(mask, CopyTo(s.image, mask))
      else NoRectangle
    else Continue
  }

  /**
   * The invariant of every reachable state: the first-click flag is only set in
   * selection mode, the committed rectangle is normal, and the working image is
   * the original or the original with exactly one outline, that of the committed
   * rectangle; in selection mode it is the original.
   */
  ghost predicate Inv(s: State, paint: Painter) {
    && IsGrid(s.ogImage)
    && (s.firstClickDone ==> s.selectRectangleMode)
    && s.selectedRect.width >= 0 && s.selectedRect.height >= 0
    && (s.selectRectangleMode ==> s.image == s.ogImage)
    && (s.image == s.ogImage ||
        s.image == paint(s.ogImage, s.selectedRect.TopLeft(), s.selectedRect.BottomRight()))
  }

  lemma StartInv(og: Image, paint: Painter)
    requires IsGrid(og)
    ensures Inv(Start(og), paint)
  {
  }

  /** In a reachable state the working image is a proper grid of the original's size. */
  lemma InvImageIsGrid(s: State, paint: Painter)
    requires Inv(s, paint) && KeepsSize(paint)
    ensures SameSize(s.ogImage, s.image)
  {
  }

  lemma MousePreservesInv(s: State, event: int, x: int, y: int, paint: Painter)
    requires Inv(s, paint)
    ensures Inv(Mouse(s, event, x, y, paint), paint)
  {
  }

  lemma KeyPreservesInv(s: State, key: char, paint: Painter)
    requires Inv(s, paint)
    ensures Inv(Key(s, key), paint)
  {
  }

  /**
   * The main loop over a sequence of events, up to and including the first `q`:
   * the final state and the replies to the keys, in order.
   */
  function Run(s: State, events: seq<Event>, paint: Painter, grabCut: GrabCut): (out: (State, seq<Reply>))
    requires Inv(s, paint) && KeepsSize(paint) && IsSegmenter(grabCut)
    ensures Inv(out.0, paint)
    ensures out.0.ogImage == s.ogImage
    ensures |out.1| <= |events|
    ensures forall k :: 0 <= k < |out.1| - 1 ==> out.1[k] != Quit
    decreases |events|
  {
    if events == [] then (s, [])
    else match events[0]
      case MouseEvent(e, x, y) =>
        MousePreservesInv(s, e, x, y, paint);
        Run(Mouse(s, e, x, y, paint), events[1..], paint, grabCut)
      case KeyEvent(k) =>
        InvImageIsGrid(s, paint);
        if k == 'q' then (s, [Quit])
        else
          KeyPreservesInv(s, k, paint);
          var rest := Run(Key(s, k), events[1..], paint, grabCut);
          (rest.0, [KeyReply(s, k, grabCut)] + rest.1)
  }

  // ---------------------------------------------------------------------------
  // Clicks

  /** Outside selection mode, or for any event but a left press, a mouse event changes nothing. */
  lemma IgnoredClickChangesNothing(s: State, event: int, x: int, y: int, paint: Painter)
    requires event != EVENT_LBUTTONDOWN || !s.selectRectangleMode
    ensures Mouse(s, event, x, y, paint) == s
  {
  }

  /** The first click of a selection stores the point, and the session waits for the second. */
  lemma FirstClick(s: State, x: int, y: int, paint: Painter)
    requires s.selectRectangleMode && !s.firstClickDone
    ensures Mouse(s, EVENT_LBUTTONDOWN, x, y, paint) ==
            s.(firstClick := Point(x, y), firstClickDone := true)
  {
  }

  /**
   * The second click leaves selection mode, commits the normalised rectangle of the
   * two clicks and draws its outline onto the working image; the original image,
   * the first click buffer and everything else are unchanged.
   */
  lemma SecondClick(s: State, x: int, y: int, paint: Painter)
    requires s.selectRectangleMode && s.firstClickDone
    ensures var t := Mouse(s, EVENT_LBUTTONDOWN, x, y, paint);
      var r := Normalize(s.firstClick, Point(x, y));
      && !t.selectRectangleMode && !t.firstClickDone
      && t.selectedRect == r
      && t.secondClick == Point(x, y)
      && t.image == paint(s.image, r.TopLeft(), r.BottomRight())
      && t.firstClick == s.firstClick && t.ogImage == s.ogImage
  {
  }

  /** A committed rectangle has positive area exactly when the two clicks differ in both coordinates. */
  lemma CommittedRectHasAreaIff(s: State, x: int, y: int, paint: Painter)
    requires s.selectRectangleMode && s.firstClickDone
    ensures Mouse(s, EVENT_LBUTTONDOWN, x, y, paint).selectedRect.HasArea() <==>
            s.firstClick.x != x && s.firstClick.y != y
  {
  }

  /** `r` followed by two clicks, from a state outside selection mode. */
  function Select(s: State, p: Point, q: Point, paint: Painter): State {
    var s1 := Key(s, 'r');
    var s2 := Mouse(s1, EVENT_LBUTTONDOWN, p.x, p.y, paint);
    Mouse(s2, EVENT_LBUTTONDOWN, q.x, q.y, paint)
  }

  /**
   * A complete selection from outside selection mode: the committed rectangle is that of the
   * two clicks, and the working image is the original with that one outline.
   */
  lemma SelectCommits(s: State, p: Point, q: Point, paint: Painter)
    requires !s.selectRectangleMode
    ensures var t := Select(s, p, q, paint);
      var r := Normalize(p, q);
      && !t.selectRectangleMode && !t.firstClickDone
      && t.selectedRect == r
      && t.image == paint(s.ogImage, r.TopLeft(), r.BottomRight())
      && t.ogImage == s.ogImage
  {
  }

  /** Clicking the corners in either order commits the same rectangle and draws the same image. */
  lemma SelectOrderIrrelevant(s: State, p: Point, q: Point, paint: Painter)
    requires !s.selectRectangleMode
    ensures var t1, t2 := Select(s, p, q, paint), Select(s, q, p, paint);
      t1.(firstClick := q, secondClick := p) == t2
  {
    SelectCommits(s, p, q, paint);
    SelectCommits(s, q, p, paint);
    NormalizeCommutes(p, q);
  }

  /** Overlays never accumulate: two selections in a row leave only the second outline. */
  lemma OverlaysDoNotAccumulate(s: State, p1: Point, q1: Point, p2: Point, q2: Point, paint: Painter)
    requires !s.selectRectangleMode
    ensures var r := Normalize(p2, q2);
      Select(Select(s, p1, q1, paint), p2, q2, paint).image ==
      paint(s.ogImage, r.TopLeft(), r.BottomRight())
  {
    SelectCommits(s, p1, q1, paint);
    SelectCommits(Select(s, p1, q1, paint), p2, q2, paint);
  }

  // ---------------------------------------------------------------------------
  // Keys

  /** `r` outside selection mode resets the working image and awaits a first click; it keeps the rectangle. */
  lemma EnterSelection(s: State)
    requires !s.selectRectangleMode
    ensures Key(s, 'r') == s.(image := s.ogImage, selectRectangleMode := true, firstClickDone := false)
    ensures Key(s, 'r').selectedRect == s.selectedRect
  {
  }

  /** Every key but `r` outside selection mode leaves the session state as it was. */
  lemma OtherKeysChangeNothing(s: State, key: char)
    requires key != 'r' || s.selectRectangleMode
    ensures Key(s, key) == s
  {
  }

  /** `g` shows a cutout exactly when the committed rectangle has positive area. */
  lemma CutoutIffArea(s: State, grabCut: GrabCut)
    requires IsGrid(s.image) && IsSegmenter(grabCut)
    ensures KeyReply(s, 'g', grabCut).Shown? <==> s.selectedRect.width > 0 && s.selectedRect.height > 0
    ensures !KeyReply(s, 'g', grabCut).Shown? ==> KeyReply(s, 'g', grabCut) == NoRectangle
  {
  }

  /**
   * The cutout of `g`: a 0/255 mask of the working image's size, and a result that
   * is the working image under the mask's 255 pixels and black under its 0 pixels.
   */
  lemma CutoutShape(s: State, grabCut: GrabCut)
    requires IsGrid(s.image) && IsSegmenter(grabCut) && s.selectedRect.HasArea()
    ensures var reply := KeyReply(s, 'g', grabCut);
      && reply.Shown?
      && SameSize(s.image, reply.mask) && IsBinary(reply.mask)
      && SameSize(s.image, reply.result)
      && forall i, j :: 0 <= i < Rows(s.image) && 0 <= j < Cols(s.image) ==>
           (reply.mask[i][j] == MaxValue ==> reply.result[i][j] == s.image[i][j]) &&
           (reply.mask[i][j] == 0 ==> reply.result[i][j] == Black)
  {
    var reply := KeyReply(s, 'g', grabCut);
    forall i, j | 0 <= i < Rows(s.image) && 0 <= j < Cols(s.image)
      ensures (reply.mask[i][j] == MaxValue ==> reply.result[i][j] == s.image[i][j]) &&
              (reply.mask[i][j] == 0 ==> reply.result[i][j] == Black)
    {
      CopyToSelects(s.image, reply.mask, i, j);
    }
  }

  /**
   * `g` leaves the session state as it was. Pressing it again with nothing in between
   * therefore feeds the segmentation the same input, so the model's pure `grabCut`
   * gives the same mask and cutout again.
   */
  lemma CutoutRepeatable(s: State, grabCut: GrabCut)
    requires IsGrid(s.image) && IsSegmenter(grabCut)
    ensures Key(s, 'g') == s
    ensures KeyReply(Key(s, 'g'), 'g', grabCut) == KeyReply(s, 'g', grabCut)
  {
  }

  /**
   * A committed rectangle survives `r`: pressing `g` after re-entering selection mode
   * still segments, but now the original image, without the outline.
   */
  lemma RectangleSurvivesReentry(s: State, grabCut: GrabCut, paint: Painter)
    requires Inv(s, paint) && KeepsSize(paint) && IsSegmenter(grabCut)
    requires !s.selectRectangleMode && s.selectedRect.HasArea()
    ensures var reply := KeyReply(Key(s, 'r'), 'g', grabCut);
      reply.Shown? && reply.mask == CreateMask(s.ogImage, s.selectedRect, grabCut)
  {
  }

  /** Before any selection, `g` reports that there is no rectangle. */
  lemma NoCutoutBeforeSelection(og: Image, grabCut: GrabCut)
    requires IsGrid(og) && IsSegmenter(grabCut)
    ensures KeyReply(Start(og), 'g', grabCut) == NoRectangle
  {
  }

  /** `q` quits and the loop stops there: later events are not processed. */
  lemma QuitStops(s: State, rest: seq<Event>, paint: Painter, grabCut: GrabCut)
    requires Inv(s, paint) && KeepsSize(paint) && IsSegmenter(grabCut)
    ensures Run(s, [KeyEvent('q')] + rest, paint, grabCut) == (s, [Quit])
  {
  }

  // ---------------------------------------------------------------------------
  // A worked scenario on a 100 by 100 image

  /** Clicks at (10, 10) and (90, 90), in either order, commit the rectangle from (10, 10) to (90, 90), and `g` yields a 100 by 100 mask. */
  lemma Scenario100(og: Image, paint: Painter, grabCut: GrabCut)
    requires HasSize(og, 100, 100) && KeepsSize(paint) && IsSegmenter(grabCut)
    ensures var t := Select(Start(og), Point(10, 10), Point(90, 90), paint);
      && t.selectedRect == Rect(10, 10, 80, 80)
      && t.selectedRect == Select(Start(og), Point(90, 90), Point(10, 10), paint).selectedRect
      && var reply := KeyReply(t, 'g', grabCut);
         reply.Shown? && HasSize(reply.mask, 100, 100)
  {
    var t := Select(Start(og), Point(10, 10), Point(90, 90), paint);
    SelectCommits(Start(og), Point(10, 10), Point(90, 90), paint);
    SelectCommits(Start(og), Point(90, 90), Point(10, 10), paint);
    assert t.image == paint(og, Point(10, 10), Point(90, 90));
    assert SameSize(og, t.image);
  }

  // ---------------------------------------------------------------------------

  /** The session variables as fields, updated in place by the mouse callback and the key loop. */
  class Session {
    var selectRectangleMode: bool
    var firstClickDone: bool
    var firstClick: Point
    var secondClick: Point
    var selectedRect: Rect
    var ogImage: Image
    var image: Image

    /** The imaging library's outline routine and segmentation routine. */
    const drawOutline: Painter
    const grabCut: GrabCut

    function Snapshot(): State
      reads this
    {
      State(selectRectangleMode, firstClickDone, firstClick, secondClick, selectedRect, ogImage, image)
    }

    ghost predicate Valid()
      reads this
    {
      KeepsSize(drawOutline) && IsSegmenter(grabCut) && Inv(Snapshot(), drawOutline)
    }

    /** Program start with the loaded image `og`: the working image is its copy. */
    constructor (og: Image, drawOutline: Painter, grabCut: GrabCut)
      requires IsGrid(og) && KeepsSize(drawOutline) && IsSegmenter(grabCut)
      ensures Valid()
      ensures Snapshot() == Start(og)
      ensures this.drawOutline == drawOutline && this.grabCut == grabCut
    {
      this.drawOutline := drawOutline;
      this.grabCut := grabCut;
      ogImage := og;
      image := og;
      selectRectangleMode, firstClickDone := false, false;
      firstClick, secondClick := Point(0, 0), Point(0, 0);
      selectedRect := EmptyRect;
    }

    /** `mouseCallback`: a left press in selection mode records a corner; the second commits the rectangle. */
    method MouseCallback(event: int, x: int, y: int)
      requires Valid()
      modifies this
      ensures Valid()
      ensures Snapshot() == Mouse(old(Snapshot()), event, x, y, drawOutline)
      ensures ogImage == old(ogImage)
      ensures !old(selectRectangleMode) ==> Snapshot() == old(Snapshot())
    {
      if event == EVENT_LBUTTONDOWN && selectRectangleMode {
        if !firstClickDone {
          firstClick := Point(x, y);
          firstClickDone := true;
        } else {
          secondClick := Point(x, y);
          firstClickDone := false;
          selectRectangleMode := false;
          var topLeft := Point(Min(firstClick.x, secondClick.x), Min(firstClick.y, secondClick.y));
          var bottomRight := Point(Max(firstClick.x, secondClick.x), Max(firstClick.y, secondClick.y));
          selectedRect := RectFromCorners(topLeft, bottomRight);
          image := drawOutline(image, topLeft, bottomRight);
        }
      }
      MousePreservesInv(old(Snapshot()), event, x, y, drawOutline);
    }

    /** One dispatch of the key loop's body for `key`. */
    method HandleKey(key: char) returns (reply: Reply)
      requires Valid()
      modifies this
      ensures Valid()
      ensures Snapshot() == Key(old(Snapshot()), key)
      ensures reply == KeyReply(old(Snapshot()), key, grabCut)
      ensures ogImage == old(ogImage) && selectedRect == old(selectedRect)
    {
      InvImageIsGrid(Snapshot(), drawOutline);
      if key == 'q' {
        reply := Quit;
      } else if key == 'r' {
        if !selectRectangleMode {
          image := ogImage;
          selectRectangleMode := true;
          firstClickDone := false;
        }
        reply := Continue;
      } else if key == 'g' {
        if selectedRect.width > 0 && selectedRect.height > 0 {
          var mask := CreateMask(image, selectedRect, grabCut);
          var result := CopyTo(image, mask);
          reply := Shown(mask, result);
        } else {
          reply := NoRectangle;
        }
      } else {
        reply := Continue;
      }
      KeyPreservesInv(old(Snapshot()), key, drawOutline);
    }

    /**
     * The `while(true)` loop of `main`, fed the events in the order they arrive:
     * it dispatches each one until `q`, and returns the replies to the keys.
     */
    method EventLoop(events: seq<Event>) returns (replies: seq<Reply>)
      requires Valid()
      modifies this
      ensures Valid()
      ensures (Snapshot(), replies) == Run(old(Snapshot()), events, drawOutline, grabCut)
    {
      replies := [];
      var k := 0;
      assert events[k..] == events && [] + Run(Snapshot(), events, drawOutline, grabCut).1 == Run(Snapshot(), events, drawOutline, grabCut).1;
      while k < |events|
        invariant 0 <= k <= |events|
        invariant Valid()
        invariant var rest := Run(Snapshot(), events[k..], drawOutline, grabCut);
          Run(old(Snapshot()), events, drawOutline, grabCut) == (rest.0, replies + rest.1)
        decreases |events| - k
      {
        assert events[k..][0] == events[k] && events[k..][1..] == events[k + 1..];
        ghost var before := Snapshot();
        match events[k] {
          case MouseEvent(e, x, y) =>
            MouseCallback(e, x, y);
            assert Run(before, events[k..], drawOutline, grabCut) ==
                   Run(Snapshot(), events[k + 1..], drawOutline, grabCut);
          case KeyEvent(key) =>
            var reply := HandleKey(key);
            if key == 'q' {
              replies := replies + [reply];
              return;
            }
            var rest := Run(Snapshot(), events[k + 1..], drawOutline, grabCut);
            assert Run(before, events[k..], drawOutline, grabCut) == (rest.0, [reply] + rest.1);
            assert replies + ([reply] + rest.1) == (replies + [reply]) + rest.1;
            replies := replies + [reply];
        }
        k := k + 1;
      }
      assert events[k..] == [];
      assert replies + [] == replies;
    }
  }
}
