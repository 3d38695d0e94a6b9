/** Title bars that do not come out as they are meant to (fvwm/borders.c). */
module TitlebarCases {
  import opened CStrings
  import opened Geometry
  import opened TitlebarSpec
  import opened TitlebarTheorems
  import opened TitleLayout
  import opened TitleBarGeometry

  const NIL := Rect(0, 0, 0, 0)

  const PLAIN := Descr(NIL, NIL, NIL, [], NIL, NIL, 0, 0, NIL, NIL, NIL, NIL, NIL, NONE, R0, false, false, false, false)

  /** Of all buttons, only the first one has a window. */
  const ONE: Buttons := [true, false, false, false, false, false, false, false, false, false]

  lemma {:induction false} OneCounts(revert: bool, i: nat)
    requires i <= NUMBER_OF_TITLE_BUTTONS
    ensures LeftBefore(ONE, revert, i) == if !revert && i > 0 then 1 else 0
    ensures RightFrom(ONE, revert, i) == if revert && i == 0 then 1 else 0
    ensures i > 0 ==> RightFrom(ONE, revert, i - 1) == if revert && i == 1 then 1 else 0
    decreases i
  {
    OneRight(revert, i);
    if i > 0 {
      OneCounts(revert, i - 1);
    }
  }

  lemma {:induction false} OneRight(revert: bool, i: nat)
    requires i <= NUMBER_OF_TITLE_BUTTONS
    ensures RightFrom(ONE, revert, i) == if revert && i == 0 then 1 else 0
    decreases NUMBER_OF_TITLE_BUTTONS - i
  {
    if i < NUMBER_OF_TITLE_BUTTONS {
      OneRight(revert, i + 1);
    }
  }

  lemma {:induction false} OneLength(buttons: seq<Rect>, vertical: bool, even: bool, i: nat)
    requires i <= NUMBER_OF_TITLE_BUTTONS == |buttons|
    ensures SideLength(buttons, ONE, vertical, even, i) == if even && i > 0 then Len(buttons[0], vertical) else 0
  {
    if i > 0 {
      OneLength(buttons, vertical, even, i - 1);
    }
  }

  const FEW: seq<Rect> := [NOWHERE, NOWHERE, NOWHERE, NOWHERE, NOWHERE, NOWHERE, NOWHERE, NOWHERE, NOWHERE, NOWHERE]

  /** An upside-down bar of 200x20 pixels with one button: that is at the right end,
      its box at the left one, over the title, and as high as the bar is wide. */
  const UPSIDE_DOWN := PLAIN.(
    upsideDown := true, drawRotation := R180,
    frame := Rect(0, 0, 200, 100), bar := Rect(0, 0, 200, 20), title := Rect(0, 0, 180, 20),
    buttons := FEW[0 := Rect(180, 0, 20, 20)],
    leftButtons := Rect(180, 0, 0, 20), rightButtons := Rect(0, 0, 20, 200))

  const STRIP := Strip(false, 0, 0, 20, 20, 0, 180, 0)

  lemma UpsideDownIsLaidOut()
    ensures IsLaidOut(UPSIDE_DOWN, STRIP, ONE) && Count(ONE, true) == 1
  {
    UpsideDownButton();
    OneCount(true);
    StripTitle();
    hide Strip.ButtonAt, Strip.TitleAt, Count, Lefts;
    OneIsLaidOut(UPSIDE_DOWN, STRIP);
  }

  lemma OneCount(revert: bool)
    ensures Lefts(ONE, revert) == (if revert then 0 else 1) && Count(ONE, revert) == 1
  {
    OneCounts(revert, 0);
    OneCounts(revert, NUMBER_OF_TITLE_BUTTONS);
    hide LeftBefore, RightFrom, ONE;
  }

  lemma StripTitle()
    ensures STRIP.TitleAt(0) == Rect(0, 0, 180, 20)
  {
  }

  lemma OneIsLaidOut(d: Descr, s: Strip)
    requires s.vertical == d.vertical && |d.buttons| == NUMBER_OF_TITLE_BUTTONS
    requires d.title == s.TitleAt(Lefts(ONE, d.upsideDown)) && d.buttons[0] == s.ButtonAt(ONE, d.upsideDown, 0)
    ensures IsLaidOut(d, s, ONE)
  {
    OnlyOne();
    hide Strip.ButtonAt, Strip.TitleAt, Lefts, ONE;
  }

  lemma OnlyOne()
    ensures forall i :: 0 <= i < NUMBER_OF_TITLE_BUTTONS && ONE[i] ==> i == 0
  {
  }

  lemma UpsideDownButton()
    ensures STRIP.ButtonAt(ONE, true, 0) == Rect(180, 0, 20, 20)
  {
    OneCounts(true, 1);
    OneCounts(true, NUMBER_OF_TITLE_BUTTONS);
    hide LeftBefore, RightFrom;
    assert PlaceOf(ONE, true, 0) == 0 && !OnLeft(0, true);
  }

  lemma UpsideDownIsSet()
    ensures BarIsSet(UPSIDE_DOWN, 0, ONE)
  {
    var d := UPSIDE_DOWN;
    OneLength(d.buttons, false, true, NUMBER_OF_TITLE_BUTTONS);
    OneLength(d.buttons, false, false, NUMBER_OF_TITLE_BUTTONS);
    hide SideLength;
  }

  lemma UpsideDownBoxes()
    ensures IsFramed(UPSIDE_DOWN, STRIP, 0, ONE)
    ensures !ButtonsMeetTitle(UPSIDE_DOWN)
    ensures !Thick(UPSIDE_DOWN.rightButtons, 0, UPSIDE_DOWN)
  {
    UpsideDownIsLaidOut();
    UpsideDownIsSet();
    EdgeIs(20, 0, 1);
    hide IsLaidOut, BarIsSet, Edge, Count;
  }

  /** When that bar is turned, the box of the button stays at the upper edge, while a
      turn by 180 degrees moves it to the lower one. */
  lemma ButtonStaysUp()
    ensures var r, frame := UPSIDE_DOWN.buttons[0], UPSIDE_DOWN.frame;
            && Turned(UPSIDE_DOWN).buttons[0] == Rect(0, 0, 20, 20)
            && !IsCentred(r, frame) && !TurnsPoints(R180, r, frame)
            && TurnPoint(R180, 180, 0, frame) == (19, 99)
  {
    TurnsPointsIff(R180, UPSIDE_DOWN.buttons[0], UPSIDE_DOWN.frame);
  }

  /** A bar of 5x20 pixels has no room for its button, which counts all the same. */
  const SHORT := PLAIN.(
    frame := Rect(0, 0, 5, 100), bar := Rect(0, 0, 5, 20), title := Rect(0, 0, 5, 20), buttons := FEW,
    leftButtons := Rect(0, 0, 1, 20), rightButtons := Rect(5, 0, 0, 5))

  lemma ShortIsLaidOut()
    ensures IsLaidOut(SHORT, Strip(false, 0, 0, 20, 0, 0, 5, 0), ONE) && Count(ONE, false) == 1
  {
    OneCounts(false, 0);
    OneCounts(false, NUMBER_OF_TITLE_BUTTONS);
    EdgeIs(0, 0, 1);
    hide LeftBefore, RightFrom, Edge;
  }

  lemma ShortIsSet()
    ensures BarIsSet(SHORT, 0, ONE)
  {
    var d := SHORT;
    OneLength(d.buttons, false, true, NUMBER_OF_TITLE_BUTTONS);
    OneLength(d.buttons, false, false, NUMBER_OF_TITLE_BUTTONS);
    hide SideLength;
  }

  lemma ShortBarIsNotTiled()
    ensures IsFramed(SHORT, Strip(false, 0, 0, 20, 0, 0, 5, 0), 0, ONE) && !Tiled(SHORT) && !ButtonsMeetTitle(SHORT)
  {
    ShortIsLaidOut();
    ShortIsSet();
    hide IsLaidOut, BarIsSet, Edge, Count;
  }

  const NO_PIECE := Piece(-1, false, None)

  const NARROW := PLAIN.(bar := Rect(0, 0, 20, 20), title := Rect(0, 0, 20, 20), length := 8, offset := 10)

  const SPLIT := NARROW.(
    offset := 12, underText := Rect(7, 0, 18, 20), leftMain := Rect(0, 0, 7, 20), rightMain := Rect(25, 0, -5, 20),
    fullLeft := Rect(0, 0, 7, 20), fullRight := Rect(25, 0, -5, 20))

  const NO_PIECES: seq<Face> := [MultiPixmap(NO_PIECE, NO_PIECE, NO_PIECE, NO_PIECE)]

  lemma NothingReserved()
    ensures NARROW.AsBar() == Bar(20, false) && Reserve(Bar(20, false), NO_PIECES, 18, 20) == NONE
  {
    var b := Bar(20, false);
    assert NO_PIECES[..0] == [];
    assert PieceLength(b, NO_PIECE) == 0;
    assert Longest(b, NO_PIECES) == Longer(b, NO_PIECES[0], NONE) == NONE;
    hide Reserve, Longest, Longer;
    ReservedFits(b, NO_PIECES, 18, 20);
    BelowNothing(Reserve(b, NO_PIECES, 18, 20));
  }

  lemma BelowNothing(r: Reserved)
    requires NonNegative(r) && Below(r, NONE)
    ensures r == NONE
  {
  }

  lemma SplitIsEndToEnd()
    ensures SplitsTitle(SPLIT) && SplitsBar(SPLIT)
  {
  }

  lemma NarrowIsPlaced()
    ensures Placed(NARROW, 20, Left) && !IsCramped(8, 20) && UnderWidth(8, 20) == 18
    ensures TextOffset(NARROW, 20, Left, NONE) == 12
  {
  }

  /** A left-justified text of 8 pixels in a title of 20: the part on its right gets a
      length of -5. */
  lemma NarrowTitle()
    ensures Placed(NARROW, 20, Left) && SameBar(NARROW, SPLIT) && Splits(NARROW, SPLIT, 20, Left, NO_PIECES)
    ensures !NoNegativePart(SPLIT) && !IsWideEnough(8, 20, Left)
  {
    NothingReserved();
    SplitIsEndToEnd();
    NarrowIsPlaced();
    hide Reserve, SplitsTitle, SplitsBar, Placed, TextOffset;
  }
}
