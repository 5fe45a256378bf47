/**
 * The earlier draft of the tool: two clicks in selection mode draw a rectangle
 * outline on the one image; `r` enters selection mode and `q` ends the session.
 * There is no committed rectangle, no copy of the original and no segmentation.
 */
module Draft {
  import opened Geometry
  import opened Raster
  import opened Input

  /** The draft's session variables: the two flags, the click buffers and the displayed image. */
  datatype State = State(
    selectRectangleMode: bool,
    firstClickDone: bool,
    firstClick: Point,
    secondClick: Point,
    image: Image)

  /** The state once the image is loaded. */
  function Start(img: Image): (s: State)
    ensures !s.selectRectangleMode && !s.firstClickDone && s.image == img
  {
    State(false, false, Point(0, 0), Point(0, 0), img)
  }

  /** The mouse callback of the draft. */
  function Mouse(s: State, event: int, x: int, y: int, paint: Painter): (t: State)
    ensures !s.selectRectangleMode ==> t == s
    ensures t.image != s.image ==> s.firstClickDone && !t.selectRectangleMode
  {
    if event != EVENT_LBUTTONDOWN || !s.selectRectangleMode then s
    else if !s.firstClickDone then
      s.(firstClick := Point(x, y), firstClickDone := true)
    else
      var second := Point(x, y);
      s.(secondClick := second, firstClickDone := false, selectRectangleMode := false,
         image := paint(s.image, TopLeftOf(s.firstClick, second), BottomRightOf(s.firstClick, second)))
  }

  /** The state after a key: `r` outside selection mode enters it, leaving the image as it is. */
  function Key(s: State, key: char): (t: State)
    ensures t.image == s.image
    ensures t == s || (t.selectRectangleMode && !t.firstClickDone)
  {
    if key == 'r' && !s.selectRectangleMode then
      s.(selectRectangleMode := true, firstClickDone := false)
    else s
  }

  /** The first-click flag is only ever set in selection mode. */
  predicate Inv(s: State) {
    s.firstClickDone ==> s.selectRectangleMode
  }

  /** The key loop over a sequence of events: the state when the events run out or a `q` arrives. */
  function Run(s: State, events: seq<Event>, paint: Painter): (t: State)
    requires Inv(s)
    ensures Inv(t)
    decreases |events|
  {
    if events == [] then s
    else match events[0]
      case MouseEvent(e, x, y) => Run(Mouse(s, e, x, y, paint), events[1..], paint)
      case KeyEvent(k) => if k == 'q' then s else Run(Key(s, k), events[1..], paint)
  }

  /** Outside selection mode, or for any event but a left press, a mouse event changes nothing. */
  lemma IgnoredClickChangesNothing(s: State, event: int, x: int, y: int, paint: Painter)
    requires event != EVENT_LBUTTONDOWN || !s.selectRectangleMode
    ensures Mouse(s, event, x, y, paint) == s
  {
  }

  /** The first click of a selection stores the point and waits for the second. */
  lemma FirstClick(s: State, x: int, y: int, paint: Painter)
    requires s.selectRectangleMode && !s.firstClickDone
    ensures Mouse(s, EVENT_LBUTTONDOWN, x, y, paint) ==
            s.(firstClick := Point(x, y), firstClickDone := true)
  {
  }

  /**
   * The second click stores the raw point, leaves selection mode and draws the
   * outline between the componentwise minimum and maximum of the two clicks.
   */
  lemma SecondClick(s: State, x: int, y: int, paint: Painter)
    requires s.selectRectangleMode && s.firstClickDone
    ensures var t := Mouse(s, EVENT_LBUTTONDOWN, x, y, paint);
      && t.secondClick == Point(x, y) && t.firstClick == s.firstClick
      && !t.selectRectangleMode && !t.firstClickDone
      && t.image == paint(s.image, TopLeftOf(s.firstClick, Point(x, y)), BottomRightOf(s.firstClick, Point(x, y)))
  {
  }

  /** `r` followed by two clicks, from a state outside selection mode. */
  function Select(s: State, p: Point, q: Point, paint: Painter): State {
    var s1 := Key(s, 'r');
    var s2 := Mouse(s1, EVENT_LBUTTONDOWN, p.x, p.y, paint);
    Mouse(s2, EVENT_LBUTTONDOWN, q.x, q.y, paint)
  }

  /** A complete selection draws its outline on top of whatever the image already shows. */
  lemma SelectDrawsOnCurrentImage(s: State, p: Point, q: Point, paint: Painter)
    requires !s.selectRectangleMode
    ensures var t := Select(s, p, q, paint);
      && !t.selectRectangleMode && !t.firstClickDone
      && t.image == paint(s.image, TopLeftOf(p, q), BottomRightOf(p, q))
  {
  }

  /** The outline drawn does not depend on which corner was clicked first. */
  lemma SelectOrderIrrelevant(s: State, p: Point, q: Point, paint: Painter)
    requires !s.selectRectangleMode
    ensures Select(s, p, q, paint).(firstClick := q, secondClick := p) == Select(s, q, p, paint)
  {
    SelectDrawsOnCurrentImage(s, p, q, paint);
    SelectDrawsOnCurrentImage(s, q, p, paint);
    CornersCommute(p, q);
  }

  /** Outlines accumulate: after two selections the image carries both, the first under the second. */
  lemma OutlinesAccumulate(s: State, p1: Point, q1: Point, p2: Point, q2: Point, paint: Painter)
    requires !s.selectRectangleMode
    ensures Select(Select(s, p1, q1, paint), p2, q2, paint).image ==
            paint(paint(s.image, TopLeftOf(p1, q1), BottomRightOf(p1, q1)),
                  TopLeftOf(p2, q2), BottomRightOf(p2, q2))
  {
    SelectDrawsOnCurrentImage(s, p1, q1, paint);
    SelectDrawsOnCurrentImage(Select(s, p1, q1, paint), p2, q2, paint);
  }

  /** `r` outside selection mode sets the mode and clears the first-click flag, and nothing else. */
  lemma EnterSelection(s: State)
    requires !s.selectRectangleMode
    ensures Key(s, 'r') == s.(selectRectangleMode := true, firstClickDone := false)
    ensures Key(s, 'r').image == s.image
  {
  }

  /** `r` inside selection mode, and every key but `r`, leave the state as it was. */
  lemma OtherKeysChangeNothing(s: State, key: char)
    requires key != 'r' || s.selectRectangleMode
    ensures Key(s, key) == s
  {
  }

  /** `q` ends the loop: the events after it are not processed. */
  lemma QuitStops(s: State, rest: seq<Event>, paint: Painter)
    requires Inv(s)
    ensures Run(s, [KeyEvent('q')] + rest, paint) == s
  {
  }

  /** The draft's session variables as fields, updated in place. */
  class Session {
    var selectRectangleMode: bool
    var firstClickDone: bool
    var firstClick: Point
    var secondClick: Point
    var image: Image

    /** The imaging library's outline routine. */
    const drawOutline: Painter

    function Snapshot(): State
      reads this
    {
      State(selectRectangleMode, firstClickDone, firstClick, secondClick, image)
    }

    ghost predicate Valid()
      reads this
    {
      Inv(Snapshot())
    }

    constructor (img: Image, drawOutline: Painter)
      ensures Valid()
      ensures Snapshot() == Start(img) && this.drawOutline == drawOutline
    {
      this.drawOutline := drawOutline;
      image := img;
      selectRectangleMode, firstClickDone := false, false;
      firstClick, secondClick := Point(0, 0), Point(0, 0);
    }

    /** `mouseCallback` of the draft. */
    method MouseCallback(event: int, x: int, y: int)
      requires Valid()
      modifies this
      ensures Valid()
      ensures Snapshot() == Mouse(old(Snapshot()), event, x, y, drawOutline)
      ensures !old(selectRectangleMode) ==> Snapshot() == old(Snapshot())
    {
      if event == EVENT_LBUTTONDOWN && selectRectangleMode {
        if !firstClickDone {
          firstClick := Point(x, y);
          firstClickDone := true;
        } else {
          secondClick := Point(x, y);
          firstClickDone := false;
          selectRectangleMode := false;
          var topLeft := Point(Min(firstClick.x, secondClick.x), Min(firstClick.y, secondClick.y));
          var bottomRight := Point(Max(firstClick.x, secondClick.x), Max(firstClick.y, secondClick.y));
          image := drawOutline(image, topLeft, bottomRight);
        }
      }
    }

    /** One dispatch of the draft's key loop body; `quit` is set by `q`. */
    method HandleKey(key: char) returns (quit: bool)
      requires Valid()
      modifies this
      ensures Valid()
      ensures Snapshot() == Key(old(Snapshot()), key)
      ensures quit <==> key == 'q'
      ensures image == old(image)
    {
      quit := false;
      if key == 'q' {
        quit := true;
      } else if key == 'r' {
        if !selectRectangleMode {
          selectRectangleMode := true;
          firstClickDone := false;
        }
      }
    }

    /** The `while(true)` loop of the draft's `main`, fed the events in arrival order. */
    method EventLoop(events: seq<Event>)
      requires Valid()
      modifies this
      ensures Valid()
      ensures Snapshot() == Run(old(Snapshot()), events, drawOutline)
    {
      var k := 0;
      assert events[k..] == events;
      while k < |events|
        invariant 0 <= k <= |events|
        invariant Valid()
        invariant Run(old(Snapshot()), events, drawOutline) == Run(Snapshot(), events[k..], drawOutline)
        decreases |events| - k
      {
        assert events[k..][0] == events[k] && events[k..][1..] == events[k + 1..];
        match events[k] {
          case MouseEvent(e, x, y) =>
            MouseCallback(e, x, y);
          case KeyEvent(key) =>
            var quit := HandleKey(key);
            if quit {
              return;
            }
        }
        k := k + 1;
      }
    }
  }
}
