/** Where the title and the buttons of a window lie in its frame (fvwm/frame.c,
    fvwm/borders.c). */
module TitleLayout {
  import opened Geometry
  import opened TitlebarSpec

  const MIN_WINDOW_TITLE_LENGTH := 10
  const MIN_WINDOW_TITLEBUTTON_LENGTH := 2
  const NUMBER_OF_TITLE_BUTTONS := 10

  /** The length of the k-th button along the bar: the first `big` ones are one
      pixel longer than the others, unless all are equal. */
  function LengthOf(button: int, big: int, k: nat): int {
    if big > 0 && k >= big then button - 1 else button
  }

  /** Where the k-th button starts, if the title is not counted. */
  function Edge(button: int, big: int, k: nat): int {
    if k == 0 then 0 else Edge(button, big, k - 1) + LengthOf(button, big, k - 1)
  }

  lemma {:induction false} EdgeIs(button: int, big: int, k: nat)
    ensures Edge(button, big, k) == k * button - if 0 < big < k then k - big else 0
  {
    if k > 0 {
      EdgeIs(button, big, k - 1);
    }
  }

  lemma {:induction false} EdgesRise(button: int, big: int, j: nat, k: nat)
    requires j <= k && button >= 1
    ensures Edge(button, big, j) <= Edge(button, big, k)
    decreases k
  {
    if j < k {
      EdgesRise(button, big, j, k - 1);
    }
  }

  /** There is a pixel for each button beside the shortest title, and one more. */
  predicate ButtonsFit(barLength: int, thickness: int, n: nat) {
    thickness >= MIN_WINDOW_TITLEBUTTON_LENGTH && (n == 0 || barLength > MIN_WINDOW_TITLE_LENGTH + n)
  }

  /** What the first part of frame_get_titlebar_dimensions() arrives at. */
  predicate LengthsFit(barLength: int, thickness: int, n: nat, button: int, big: int, title: int) {
    && (button > 0 <==> ButtonsFit(barLength, thickness, n))
    && if button <= 0 then button == 0 && big == 0 && title == Max(barLength, 0)
    else
      && MIN_WINDOW_TITLEBUTTON_LENGTH <= button <= thickness && title >= 0
      && (if n == 0 then title == Max(barLength, 0) else Edge(button, big, n) + title == barLength)
      && (if n == 0 || barLength - n * thickness >= MIN_WINDOW_TITLE_LENGTH then button == thickness && big == 0
          else title == MIN_WINDOW_TITLE_LENGTH && 1 <= big <= n)
  }

  /** Shares out the bar: the buttons shrink if the title would get too short, and
      vanish if they would get too short themselves. */
  method FindLengths(barLength: int, thickness: int, n: nat) returns (button: int, big: int, title: int)
    ensures LengthsFit(barLength, thickness, n, button, big, title)
    ensures button > 0 <==> thickness >= 2 && (n == 0 || barLength > 10 + n)
    ensures if button <= 0 || n == 0 then title == Max(barLength, 0)
            else n * button - (if 0 < big < n then n - big else 0) + title == barLength
    ensures button > 0 && n > 0 ==> title >= 10 && (title == 10 || button == thickness)
  {
    button, big, title := thickness, 0, barLength - n * thickness;
    if n > 0 && title < MIN_WINDOW_TITLE_LENGTH {
      var diff := MIN_WINDOW_TITLE_LENGTH - title;
      var pixels := diff / n;
      button := button - pixels;
      title := title + n * pixels;
      big := n - (MIN_WINDOW_TITLE_LENGTH - title);
      title := MIN_WINDOW_TITLE_LENGTH;
      Shrinks(barLength, thickness, n, button, big);
    } else {
      Stays(barLength, thickness, n);
    }
    EdgeIs(button, big, n);
    hide Edge;
    if button < MIN_WINDOW_TITLEBUTTON_LENGTH {
      big, button, title := 0, 0, barLength;
    }
    if title < 0 {
      title := 0;
    }
  }

  lemma Stays(barLength: int, thickness: int, n: nat)
    requires n == 0 || barLength - n * thickness >= MIN_WINDOW_TITLE_LENGTH
    ensures Edge(thickness, 0, n) == n * thickness
    ensures n == 0 ==> n * thickness == 0
    ensures thickness >= 2 && n > 0 ==> barLength > MIN_WINDOW_TITLE_LENGTH + n
  {
    EdgeIs(thickness, 0, n);
    if thickness >= 2 {
      Scale(n, 2, thickness);
    }
  }

  lemma Shrinks(barLength: int, thickness: int, n: nat, button: int, big: int)
    requires n > 0 && barLength - n * thickness < MIN_WINDOW_TITLE_LENGTH
    requires var diff := MIN_WINDOW_TITLE_LENGTH - (barLength - n * thickness);
             button == thickness - diff / n && big == n - (diff - n * (diff / n))
    ensures 1 <= big <= n && button <= thickness && Edge(button, big, n) + MIN_WINDOW_TITLE_LENGTH == barLength
    ensures button >= 2 <==> barLength > MIN_WINDOW_TITLE_LENGTH + n
    ensures button >= 2 ==> thickness >= 2
  {
    var diff := MIN_WINDOW_TITLE_LENGTH - (barLength - n * thickness);
    var q, r := diff / n, diff % n;
    assert diff == n * q + r;
    EdgeIs(button, big, n);
    Distribute(n, thickness, q);
    if button >= 2 {
      Scale(n, 2, button);
    } else {
      Scale(n, button, 1);
    }
    hide Edge;
  }

  lemma Scale(n: nat, a: int, b: int)
    requires a <= b
    ensures n * a <= n * b
  {
  }

  lemma Distribute(n: int, a: int, b: int)
    ensures n * (a - b) == n * a - n * b
  {
  }

  // ----- the order of the buttons

  /** Even buttons are on the left, unless the bar is upside down. */
  predicate OnLeft(i: int, revert: bool) { (i % 2 == 0) != revert }

  /** Which windows for buttons exist. */
  type Buttons = s: seq<bool> | |s| == 10 witness seq(10, _ => false)

  function LeftBefore(has: Buttons, revert: bool, i: nat): nat
    requires i <= NUMBER_OF_TITLE_BUTTONS
  {
    if i == 0 then 0
    else LeftBefore(has, revert, i - 1) + if has[i - 1] && OnLeft(i - 1, revert) then 1 else 0
  }

  function RightFrom(has: Buttons, revert: bool, i: nat): nat
    requires i <= NUMBER_OF_TITLE_BUTTONS
    decreases NUMBER_OF_TITLE_BUTTONS - i
  {
    if i == NUMBER_OF_TITLE_BUTTONS then 0
    else RightFrom(has, revert, i + 1) + if has[i] && !OnLeft(i, revert) then 1 else 0
  }

  function Lefts(has: Buttons, revert: bool): nat { LeftBefore(has, revert, NUMBER_OF_TITLE_BUTTONS) }

  function Count(has: Buttons, revert: bool): nat { Lefts(has, revert) + RightFrom(has, revert, 0) }

  /** The place of a button among all of them, along the bar. */
  function PlaceOf(has: Buttons, revert: bool, i: nat): nat
    requires i < NUMBER_OF_TITLE_BUTTONS
  {
    if OnLeft(i, revert) then LeftBefore(has, revert, i) else Lefts(has, revert) + RightFrom(has, revert, i + 1)
  }

  lemma {:induction false} LeftsRise(has: Buttons, revert: bool, i: nat, j: nat)
    requires i <= j <= NUMBER_OF_TITLE_BUTTONS
    ensures LeftBefore(has, revert, i) <= LeftBefore(has, revert, j)
    decreases j
  {
    if i < j {
      LeftsRise(has, revert, i, j - 1);
    }
  }

  lemma {:induction false} RightsFall(has: Buttons, revert: bool, i: nat, j: nat)
    requires i <= j <= NUMBER_OF_TITLE_BUTTONS
    ensures RightFrom(has, revert, j) <= RightFrom(has, revert, i)
    decreases j - i
  {
    if i < j {
      RightsFall(has, revert, i + 1, j);
    }
  }

  lemma PlaceInRange(has: Buttons, revert: bool, i: nat)
    requires i < NUMBER_OF_TITLE_BUTTONS && has[i]
    ensures OnLeft(i, revert) ==> PlaceOf(has, revert, i) < Lefts(has, revert)
    ensures !OnLeft(i, revert) ==> Lefts(has, revert) <= PlaceOf(has, revert, i) < Count(has, revert)
  {
    LeftsRise(has, revert, i + 1, NUMBER_OF_TITLE_BUTTONS);
    RightsFall(has, revert, 0, i);
  }

  /** No two buttons have the same place. */
  lemma PlacesDiffer(has: Buttons, revert: bool, i: nat, j: nat)
    requires i < j < NUMBER_OF_TITLE_BUTTONS && has[i] && has[j]
    ensures PlaceOf(has, revert, i) != PlaceOf(has, revert, j)
  {
    PlaceInRange(has, revert, i);
    PlaceInRange(has, revert, j);
    LeftsRise(has, revert, i + 1, j);
    RightsFall(has, revert, i + 1, j);
  }

  lemma {:induction false} NthLeft(has: Buttons, revert: bool, k: nat, n: nat) returns (i: nat)
    requires n <= NUMBER_OF_TITLE_BUTTONS && k < LeftBefore(has, revert, n)
    ensures i < n && has[i] && OnLeft(i, revert) && LeftBefore(has, revert, i) == k
  {
    if LeftBefore(has, revert, n - 1) > k {
      i := NthLeft(has, revert, k, n - 1);
    } else {
      i := n - 1;
    }
  }

  lemma {:induction false} NthRight(has: Buttons, revert: bool, k: nat, n: nat) returns (i: nat)
    requires n <= NUMBER_OF_TITLE_BUTTONS && k < RightFrom(has, revert, n)
    ensures n <= i < NUMBER_OF_TITLE_BUTTONS && has[i] && !OnLeft(i, revert) && RightFrom(has, revert, i + 1) == k
    decreases NUMBER_OF_TITLE_BUTTONS - n
  {
    if RightFrom(has, revert, n + 1) > k {
      i := NthRight(has, revert, k, n + 1);
    } else {
      i := n;
    }
  }

  /** Every place has a button. */
  lemma PlaceIsTaken(has: Buttons, revert: bool, k: nat) returns (i: nat)
    requires k < Count(has, revert)
    ensures i < NUMBER_OF_TITLE_BUTTONS && has[i] && PlaceOf(has, revert, i) == k
  {
    if k < Lefts(has, revert) {
      i := NthLeft(has, revert, k, NUMBER_OF_TITLE_BUTTONS);
    } else {
      i := NthRight(has, revert, k - Lefts(has, revert), 0);
    }
  }

  // ----- the layout

  function RectAt(vertical: bool, along: int, across: int, length: int, thickness: int): Rect {
    if vertical then Rect(across, along, thickness, length) else Rect(along, across, length, thickness)
  }

  const NOWHERE := Rect(-1, -1, 1, 1)

  /** The bar that is laid out.  While a window is being resized, the right buttons
      are put back by the difference to the new size. */
  datatype Strip = Strip(vertical: bool, start: int, across: int, thickness: int,
                         button: int, big: int, title: int, back: int)
  {
    /** What lies between the left and the right buttons. */
    function Gap(): int { title - back }

    predicate Sound() {
      (button == 0 && big == 0) || (button >= MIN_WINDOW_TITLEBUTTON_LENGTH && big >= 0)
    }

    /** The button with place `k`, after a gap. */
    function Nth(k: nat, gap: int): Rect {
      if button == 0 then NOWHERE
      else RectAt(vertical, start + Edge(button, big, k) + gap, across, LengthOf(button, big, k), thickness)
    }

    /** Button `i`, behind the title if it is on the right. */
    function ButtonAt(has: Buttons, revert: bool, i: nat): Rect
      requires i < NUMBER_OF_TITLE_BUTTONS
    {
      Nth(PlaceOf(has, revert, i), if OnLeft(i, revert) then 0 else Gap())
    }

    function TitleAt(lefts: nat): Rect {
      if title == 0 then NOWHERE else RectAt(vertical, start + Edge(button, big, lefts), across, title, thickness)
    }
  }

  lemma LeftStep(s: Strip, has: Buttons, revert: bool, i: nat)
    requires i < NUMBER_OF_TITLE_BUTTONS
    ensures LeftBefore(has, revert, i + 1)
         == if has[i] && OnLeft(i, revert) then LeftBefore(has, revert, i) + 1 else LeftBefore(has, revert, i)
    ensures (revert && i % 2 == 0) || (!revert && i % 2 != 0) <==> !OnLeft(i, revert)
    ensures OnLeft(i, revert) ==> s.ButtonAt(has, revert, i) == s.Nth(LeftBefore(has, revert, i), 0)
  {
  }

  lemma RightStep(s: Strip, has: Buttons, revert: bool, i: nat)
    requires i < NUMBER_OF_TITLE_BUTTONS
    ensures RightFrom(has, revert, i)
         == if has[i] && !OnLeft(i, revert) then RightFrom(has, revert, i + 1) + 1 else RightFrom(has, revert, i + 1)
    ensures (revert && i % 2 != 0) || (!revert && i % 2 == 0) <==> OnLeft(i, revert)
    ensures !OnLeft(i, revert) ==>
              s.ButtonAt(has, revert, i) == s.Nth(Lefts(has, revert) + RightFrom(has, revert, i + 1), s.Gap())
  {
  }

  /** A rectangle covers a coordinate along the bar. */
  predicate Covers(r: Rect, vertical: bool, x: int) { Pos(r, vertical) <= x < Pos(r, vertical) + Len(r, vertical) }

  lemma {:induction false} FindEdge(button: int, big: int, n: nat, y: int) returns (k: nat)
    requires 0 <= y < Edge(button, big, n)
    ensures k < n && Edge(button, big, k) <= y < Edge(button, big, k + 1)
  {
    if y < Edge(button, big, n - 1) {
      k := FindEdge(button, big, n - 1, y);
    } else {
      k := n - 1;
    }
  }

  /** Where the button with place `k` begins and ends. */
  lemma ButtonSpan(s: Strip, has: Buttons, revert: bool, i: nat) returns (k: nat)
    requires s.button >= MIN_WINDOW_TITLEBUTTON_LENGTH && i < NUMBER_OF_TITLE_BUTTONS && has[i]
    ensures k == PlaceOf(has, revert, i) < Count(has, revert)
    ensures var gap := if k < Lefts(has, revert) then 0 else s.Gap();
            var r := s.ButtonAt(has, revert, i);
            && Pos(r, s.vertical) == s.start + Edge(s.button, s.big, k) + gap
            && Pos(r, s.vertical) + Len(r, s.vertical) == s.start + Edge(s.button, s.big, k + 1) + gap
  {
    k := PlaceOf(has, revert, i);
    PlaceInRange(has, revert, i);
    hide LeftBefore, RightFrom, PlaceOf;
  }

  /** Each coordinate of the bar lies in the title or in a button. */
  lemma NoGaps(s: Strip, has: Buttons, revert: bool, x: int) returns (i: nat)
    requires s.button >= MIN_WINDOW_TITLEBUTTON_LENGTH && s.title > 0 && s.back == 0
    requires s.start <= x < s.start + Edge(s.button, s.big, Count(has, revert)) + s.title
    ensures Covers(s.TitleAt(Lefts(has, revert)), s.vertical, x) ||
            (i < NUMBER_OF_TITLE_BUTTONS && has[i] && Covers(s.ButtonAt(has, revert, i), s.vertical, x))
  {
    var l, n := Lefts(has, revert), Count(has, revert);
    var y := x - s.start;
    hide LeftBefore, RightFrom, PlaceOf, Strip.ButtonAt, Edge;
    EdgesRise(s.button, s.big, 0, l);
    EdgesRise(s.button, s.big, l, n);
    EdgeOfNone(s.button, s.big);
    i := 0;
    if y < Edge(s.button, s.big, l) || y >= Edge(s.button, s.big, l) + s.title {
      var z := if y < Edge(s.button, s.big, l) then y else y - s.title;
      var k := FindEdge(s.button, s.big, n, z);
      i := PlaceIsTaken(has, revert, k);
      var m := ButtonSpan(s, has, revert, i);
      if k < l { EdgesRise(s.button, s.big, k + 1, l); } else { EdgesRise(s.button, s.big, l, k); }
    }
  }

  lemma EdgeOfNone(button: int, big: int)
    ensures Edge(button, big, 0) == 0
  {
  }

  /** No coordinate of a button lies in the title, too. */
  lemma NoOverlapWithTitle(s: Strip, has: Buttons, revert: bool, i: nat, x: int)
    requires s.button >= MIN_WINDOW_TITLEBUTTON_LENGTH && s.title > 0 && s.back == 0
    requires i < NUMBER_OF_TITLE_BUTTONS && has[i] && Covers(s.ButtonAt(has, revert, i), s.vertical, x)
    ensures !Covers(s.TitleAt(Lefts(has, revert)), s.vertical, x)
  {
    var l := Lefts(has, revert);
    hide LeftBefore, RightFrom, PlaceOf, Strip.ButtonAt, Edge;
    var k := ButtonSpan(s, has, revert, i);
    if k < l { EdgesRise(s.button, s.big, k + 1, l); } else { EdgesRise(s.button, s.big, l, k); }
  }

  /** Nor in another button. */
  lemma NoOverlap(s: Strip, has: Buttons, revert: bool, i: nat, j: nat, x: int)
    requires s.button >= MIN_WINDOW_TITLEBUTTON_LENGTH && s.title > 0 && s.back == 0
    requires i < NUMBER_OF_TITLE_BUTTONS && has[i] && j < NUMBER_OF_TITLE_BUTTONS && has[j] && i != j
    requires Covers(s.ButtonAt(has, revert, i), s.vertical, x)
    ensures !Covers(s.ButtonAt(has, revert, j), s.vertical, x)
  {
    hide LeftBefore, RightFrom, PlaceOf, Strip.ButtonAt, Edge;
    var k := ButtonSpan(s, has, revert, i);
    var m := ButtonSpan(s, has, revert, j);
    PlacesDiffer(has, revert, if i < j then i else j, if i < j then j else i);
    if k < m { EdgesRise(s.button, s.big, k + 1, m); } else { EdgesRise(s.button, s.big, m + 1, k); }
  }

  /** A rectangle of the strip ends where another one begins, or before. */
  predicate EndsBefore(p: Rect, q: Rect, vertical: bool) {
    if vertical then p.y + p.height <= q.y else p.x + p.width <= q.x
  }

  /** For buttons i < j: those on the left come in the order of their numbers, then the
      title, and those on the right in the opposite order; even ones are on the left
      unless the bar is reversed. */
  predicate InOrder(p: Rect, q: Rect, title: Rect, vertical: bool, i: nat, j: nat, revert: bool) {
    var iLeft, jLeft := (i % 2 == 0) != revert, (j % 2 == 0) != revert;
    && (if iLeft then EndsBefore(p, q, vertical) else EndsBefore(q, p, vertical))
    && (if iLeft then EndsBefore(p, title, vertical) else EndsBefore(title, p, vertical))
    && (if jLeft then EndsBefore(q, title, vertical) else EndsBefore(title, q, vertical))
  }

  lemma ButtonsInOrder(s: Strip, has: Buttons, revert: bool, i: nat, j: nat)
    requires s.button >= MIN_WINDOW_TITLEBUTTON_LENGTH && s.title > 0 && s.back == 0
    requires i < j < NUMBER_OF_TITLE_BUTTONS && has[i] && has[j]
    ensures InOrder(s.ButtonAt(has, revert, i), s.ButtonAt(has, revert, j), s.TitleAt(Lefts(has, revert)),
                    s.vertical, i, j, revert)
  {
    hide LeftBefore, RightFrom, PlaceOf, Strip.ButtonAt, Edge, InOrder, Strip.TitleAt;
    var k, m := PlaceOf(has, revert, i), PlaceOf(has, revert, j);
    PlacesInOrder(has, revert, i, j);
    var k' := ButtonSpan(s, has, revert, i);
    var m' := ButtonSpan(s, has, revert, j);
    if k < m { EdgesRise(s.button, s.big, k + 1, m); } else { EdgesRise(s.button, s.big, m + 1, k); }
    BesideTitle(s, has, revert, i);
    BesideTitle(s, has, revert, j);
    OrderIs(s.ButtonAt(has, revert, i), s.ButtonAt(has, revert, j), s.TitleAt(Lefts(has, revert)),
            s.vertical, i, j, revert);
  }

  lemma PlacesInOrder(has: Buttons, revert: bool, i: nat, j: nat)
    requires i < j < NUMBER_OF_TITLE_BUTTONS && has[i] && has[j]
    ensures if (i % 2 == 0) != revert then PlaceOf(has, revert, i) < PlaceOf(has, revert, j)
            else PlaceOf(has, revert, j) < PlaceOf(has, revert, i)
  {
    PlaceInRange(has, revert, i);
    PlaceInRange(has, revert, j);
    LeftsRise(has, revert, i + 1, j);
    RightsFall(has, revert, i + 1, j);
  }

  lemma BesideTitle(s: Strip, has: Buttons, revert: bool, i: nat)
    requires s.button >= MIN_WINDOW_TITLEBUTTON_LENGTH && s.title > 0 && s.back == 0
    requires i < NUMBER_OF_TITLE_BUTTONS && has[i]
    ensures var p, t := s.ButtonAt(has, revert, i), s.TitleAt(Lefts(has, revert));
            if (i % 2 == 0) != revert then EndsBefore(p, t, s.vertical) else EndsBefore(t, p, s.vertical)
  {
    var l, k := Lefts(has, revert), PlaceOf(has, revert, i);
    PlaceInRange(has, revert, i);
    hide LeftBefore, RightFrom, PlaceOf, Strip.ButtonAt, Edge;
    var k' := ButtonSpan(s, has, revert, i);
    if k < l { EdgesRise(s.button, s.big, k + 1, l); } else { EdgesRise(s.button, s.big, l, k); }
  }

  lemma OrderIs(p: Rect, q: Rect, title: Rect, vertical: bool, i: nat, j: nat, revert: bool)
    requires if (i % 2 == 0) != revert then Pos(p, vertical) + Len(p, vertical) <= Pos(q, vertical)
             else Pos(q, vertical) + Len(q, vertical) <= Pos(p, vertical)
    requires if (i % 2 == 0) != revert then EndsBefore(p, title, vertical) else EndsBefore(title, p, vertical)
    requires if (j % 2 == 0) != revert then EndsBefore(q, title, vertical) else EndsBefore(title, q, vertical)
    ensures InOrder(p, q, title, vertical, i, j, revert)
  {
  }
}

/** The bar that the title and its buttons make up (fvwm/borders.c). */
module TitleBarGeometry {
  import opened Geometry
  import opened TitlebarSpec
  import opened TitleLayout

  /** The lengths of the even or odd buttons before `i`, added up. */
  function SideLength(buttons: seq<Rect>, has: Buttons, vertical: bool, even: bool, i: nat): int
    requires i <= NUMBER_OF_TITLE_BUTTONS == |buttons|
  {
    if i == 0 then 0
    else SideLength(buttons, has, vertical, even, i - 1) +
         if has[i - 1] && ((i - 1) % 2 == 0) == even then Len(buttons[i - 1], vertical) else 0
  }

  /** The bar reaches over the frame without its borders, and the boxes for the
      buttons lie at its start and behind the title. */
  predicate BarIsSet(d: Descr, boundary: int, has: Buttons) {
    var v := d.vertical;
    && |d.buttons| == NUMBER_OF_TITLE_BUTTONS
    && Pos(d.bar, v) == boundary && Len(d.bar, v) == Len(d.frame, v) - 2 * boundary
    && Pos(d.bar, !v) == Pos(d.title, !v) && Len(d.bar, !v) == Len(d.title, !v)
    && BoxesAreSet(d, boundary, SideLength(d.buttons, has, v, !d.upsideDown, NUMBER_OF_TITLE_BUTTONS),
                   SideLength(d.buttons, has, v, d.upsideDown, NUMBER_OF_TITLE_BUTTONS))
  }

  predicate BoxesAreSet(d: Descr, boundary: int, left: int, right: int) {
    var v := d.vertical;
    && Len(d.leftButtons, v) == left && Len(d.rightButtons, v) == right
    && Pos(d.FirstButtons(), v) == boundary && Pos(d.LastButtons(), v) == Pos(d.title, v) + Len(d.title, v)
    && Thick(d.leftButtons, Pos(d.bar, !v), d) && Pos(d.rightButtons, !v) == Pos(d.bar, !v)
    && (if v then d.rightButtons.width == d.bar.width else d.rightButtons.height == d.bar.width)
  }

  /** The title and the buttons are laid out in the bar of the frame. */
  predicate IsLaidOut(d: Descr, s: Strip, has: Buttons) {
    && s.vertical == d.vertical && |d.buttons| == NUMBER_OF_TITLE_BUTTONS
    && d.title == s.TitleAt(Lefts(has, d.upsideDown))
    && forall i :: 0 <= i < NUMBER_OF_TITLE_BUTTONS && has[i] ==> d.buttons[i] == s.ButtonAt(has, d.upsideDown, i)
  }

  /** The box at the start of the bar ends where the title begins. */
  predicate ButtonsMeetTitle(d: Descr) {
    Pos(d.FirstButtons(), d.vertical) + Len(d.FirstButtons(), d.vertical) == Pos(d.title, d.vertical)
  }

  lemma ButtonLength(d: Descr, s: Strip, has: Buttons, i: nat)
    requires IsLaidOut(d, s, has) && i < NUMBER_OF_TITLE_BUTTONS && has[i]
    ensures Len(d.buttons[i], d.vertical) ==
            if s.button == 0 then 1 else LengthOf(s.button, s.big, PlaceOf(has, d.upsideDown, i))
  {
    hide PlaceOf;
  }

  /** `k` buttons from the first one on, if they are drawn. */
  function Extent(s: Strip, k: nat): int { if s.button == 0 then k else Edge(s.button, s.big, k) }

  /** A button adds its length to its side. */
  lemma SideStep(d: Descr, s: Strip, has: Buttons, even: bool, i: nat)
    requires IsLaidOut(d, s, has) && i < NUMBER_OF_TITLE_BUTTONS
    ensures var k := PlaceOf(has, d.upsideDown, i);
            SideLength(d.buttons, has, d.vertical, even, i + 1) == SideLength(d.buttons, has, d.vertical, even, i) +
            if has[i] && OnLeft(i, !even) then Extent(s, k + 1) - Extent(s, k) else 0
  {
    if has[i] {
      ButtonLength(d, s, has, i);
    }
    hide IsLaidOut, PlaceOf;
  }

  lemma LeftSideStep(d: Descr, s: Strip, has: Buttons, i: nat)
    requires IsLaidOut(d, s, has) && i < NUMBER_OF_TITLE_BUTTONS
    ensures var r := d.upsideDown;
            SideLength(d.buttons, has, d.vertical, !r, i + 1) - SideLength(d.buttons, has, d.vertical, !r, i)
            == Extent(s, LeftBefore(has, r, i + 1)) - Extent(s, LeftBefore(has, r, i))
  {
    SideStep(d, s, has, !d.upsideDown, i);
    LeftStep(s, has, d.upsideDown, i);
    hide SideLength, LeftBefore, RightFrom, Extent, IsLaidOut;
  }

  /** The buttons up to those on the right before `i`. */
  function Behind(s: Strip, has: Buttons, revert: bool, i: nat): int
    requires i <= NUMBER_OF_TITLE_BUTTONS
  {
    Extent(s, Lefts(has, revert) + RightFrom(has, revert, i))
  }

  lemma BehindStep(s: Strip, has: Buttons, revert: bool, i: nat)
    requires i < NUMBER_OF_TITLE_BUTTONS
    ensures if has[i] && !OnLeft(i, revert)
            then var k := PlaceOf(has, revert, i);
                 Behind(s, has, revert, i + 1) == Extent(s, k) && Behind(s, has, revert, i) == Extent(s, k + 1)
            else Behind(s, has, revert, i) == Behind(s, has, revert, i + 1)
  {
    hide Extent, LeftBefore;
  }

  lemma RightSideStep(d: Descr, s: Strip, has: Buttons, i: nat)
    requires IsLaidOut(d, s, has) && i < NUMBER_OF_TITLE_BUTTONS
    ensures var r := d.upsideDown;
            SideLength(d.buttons, has, d.vertical, r, i + 1) - SideLength(d.buttons, has, d.vertical, r, i)
            == Behind(s, has, r, i) - Behind(s, has, r, i + 1)
  {
    SideStep(d, s, has, d.upsideDown, i);
    BehindStep(s, has, d.upsideDown, i);
    hide SideLength, Extent, IsLaidOut, Behind, PlaceOf;
  }

  lemma NothingExtends(s: Strip)
    ensures Extent(s, 0) == 0
  {
  }

  lemma {:induction false} LeftLength(d: Descr, s: Strip, has: Buttons, i: nat)
    requires IsLaidOut(d, s, has) && i <= NUMBER_OF_TITLE_BUTTONS
    ensures SideLength(d.buttons, has, d.vertical, !d.upsideDown, i) == Extent(s, LeftBefore(has, d.upsideDown, i))
  {
    hide IsLaidOut, Extent;
    if i > 0 {
      LeftLength(d, s, has, i - 1);
      LeftSideStep(d, s, has, i - 1);
      hide SideLength, LeftBefore;
    } else {
      assert Extent(s, 0) == 0 by { NothingExtends(s); }
    }
  }

  lemma {:induction false} RightLength(d: Descr, s: Strip, has: Buttons, i: nat)
    requires IsLaidOut(d, s, has) && i <= NUMBER_OF_TITLE_BUTTONS
    ensures SideLength(d.buttons, has, d.vertical, d.upsideDown, i)
         == Behind(s, has, d.upsideDown, 0) - Behind(s, has, d.upsideDown, i)
  {
    hide Behind, IsLaidOut;
    if i > 0 {
      RightLength(d, s, has, i - 1);
      RightSideStep(d, s, has, i - 1);
      hide SideLength;
    }
  }

  lemma SideLengths(d: Descr, s: Strip, has: Buttons)
    requires IsLaidOut(d, s, has)
    ensures var l, n := Extent(s, Lefts(has, d.upsideDown)), Extent(s, Count(has, d.upsideDown));
            && SideLength(d.buttons, has, d.vertical, !d.upsideDown, NUMBER_OF_TITLE_BUTTONS) == l
            && SideLength(d.buttons, has, d.vertical, d.upsideDown, NUMBER_OF_TITLE_BUTTONS) == n - l
  {
    LeftLength(d, s, has, NUMBER_OF_TITLE_BUTTONS);
    RightLength(d, s, has, NUMBER_OF_TITLE_BUTTONS);
    hide SideLength, IsLaidOut, Extent;
  }

  /** A frame whose title is laid out from its border on. */
  predicate IsFramed(d: Descr, s: Strip, boundary: int, has: Buttons) {
    && IsLaidOut(d, s, has) && BarIsSet(d, boundary, has) && s.start == boundary && s.title > 0 && s.back == 0
    && LengthsFit(Len(d.frame, d.vertical) - 2 * boundary, s.thickness, Count(has, d.upsideDown),
                  s.button, s.big, s.title)
  }

  /** The title and the boxes for the buttons fill the bar exactly, unless there
      are buttons that are too short to be drawn. */
  lemma TiledIffDrawn(d: Descr, s: Strip, boundary: int, has: Buttons)
    requires IsFramed(d, s, boundary, has)
    ensures var n := Count(has, d.upsideDown);
            Tiled(d) <==> n == 0 || ButtonsFit(Len(d.bar, d.vertical), s.thickness, n)
  {
    SideLengths(d, s, has);
    hide SideLength, Lefts, Count;
  }

  /** The first box is as long as the even buttons, and ends at the title exactly if
      the buttons that are drawn in front of the title are so, too: the even ones, or
      the odd ones if the bar is upside down, or none if the bar has no room. */
  lemma ButtonsMeetTitleIff(d: Descr, s: Strip, boundary: int, has: Buttons)
    requires IsFramed(d, s, boundary, has)
    ensures ButtonsMeetTitle(d) <==>
            SideLength(d.buttons, has, d.vertical, true, NUMBER_OF_TITLE_BUTTONS) ==
            if ButtonsFit(Len(d.bar, d.vertical), s.thickness, Count(has, d.upsideDown))
            then SideLength(d.buttons, has, d.vertical, !d.upsideDown, NUMBER_OF_TITLE_BUTTONS) else 0
  {
    FirstBoxEnds(d, s, boundary, has);
    SideLengths(d, s, has);
    EdgeIs(s.button, s.big, Lefts(has, d.upsideDown));
    assert s.button >= 0 && (s.button > 0 <==>
        ButtonsFit(Len(d.bar, d.vertical), s.thickness, Count(has, d.upsideDown)));
    hide SideLength, Lefts, Count, Edge, LengthsFit, BarIsSet, IsLaidOut, ButtonsFit;
  }

  lemma FirstBoxEnds(d: Descr, s: Strip, boundary: int, has: Buttons)
    requires IsFramed(d, s, boundary, has)
    ensures var even := SideLength(d.buttons, has, d.vertical, true, NUMBER_OF_TITLE_BUTTONS);
            ButtonsMeetTitle(d) <==> even == Edge(s.button, s.big, Lefts(has, d.upsideDown))
  {
    hide SideLength, Lefts, Edge, LengthsFit;
  }

  /** The right box is as thick as the bar exactly if the bar is vertical, or as wide
      as it is thick. */
  lemma RightBoxIsThickIff(d: Descr, boundary: int, has: Buttons)
    requires BarIsSet(d, boundary, has)
    ensures Thick(d.rightButtons, Pos(d.bar, !d.vertical), d) <==> d.vertical || d.bar.width == d.bar.height
  {
  }

  /** Where the first box ends at the title, the outer parts meet the part under
      the text in the frame, too. */
  lemma PartsMeetInFrame(d: Descr)
    requires SplitsTitle(d) && SplitsBar(d) && Pos(d.FirstButtons(), d.vertical) == Pos(d.bar, d.vertical)
    ensures var v := d.vertical;
            (Pos(d.FullFirst(), v) + Len(d.FullFirst(), v) == Pos(d.title, v) + Pos(d.underText, v)) <==>
            ButtonsMeetTitle(d)
  {
  }
}

module TitleDimensions {
  import opened Geometry
  import opened TitlebarSpec
  import opened TitleLayout

  /** frame_title_layout_t: the buttons without a window keep what they were. */
  class FrameTitleLayout {
    var titleG: Rect
    const buttonG: array<Rect>

    constructor (rects: array<Rect>)
      requires rects.Length == NUMBER_OF_TITLE_BUTTONS
      ensures buttonG == rects
    {
      buttonG := rects;
      titleG := NOWHERE;
    }

    /** The button windows that are left over for each length. */
    ghost predicate Progress(s: Strip, c: nat, gap: int, at: int, length: int, big: int) {
      && at == s.start + Edge(s.button, s.big, c) + gap
      && length == LengthOf(s.button, s.big, c) && big == s.big - c && s.big >= 0
    }

    /** Puts button `i` at a coordinate and goes on to the next one. */
    method PutButton(ghost s: Strip, i: nat, vertical: bool, at: int, across: int, thickness: int,
                     length: int, big: int, ghost c: nat, ghost gap: int)
      returns (at': int, length': int, big': int)
      requires i < NUMBER_OF_TITLE_BUTTONS == buttonG.Length
      requires s.vertical == vertical && s.across == across && s.thickness == thickness
      requires Progress(s, c, gap, at, length, big)
      requires s.Sound()
      modifies buttonG
      ensures Progress(s, c + 1, gap, at', length', big')
      ensures forall j :: 0 <= j < NUMBER_OF_TITLE_BUTTONS && j != i ==> buttonG[j] == old(buttonG[j])
      ensures buttonG[i] == s.Nth(c, gap)
    {
      buttonG[i] := if length <= 0 then NOWHERE else RectAt(vertical, at, across, length, thickness);
      at' := at + length;
      length', big' := length, big - 1;
      if big' == 0 {
        length' := length' - 1;
      }
    }

    /** frame_get_titlebar_dimensions(): lays out `n` buttons and the title along the
        side of a frame, `isNear` the upper or left one; `diff` is the difference to the
        new size while the window is being resized. */
    method GetTitlebarDimensions(vertical: bool, frame: Rect, boundary: int, isNear: bool, diff: Rect, thickness: int,
                                 n: nat, has: Buttons, revert: bool)
      returns (ghost s: Strip)
      requires buttonG.Length == NUMBER_OF_TITLE_BUTTONS && n == Count(has, revert)
      modifies this, buttonG
      ensures LengthsFit(Len(frame, vertical) - 2 * boundary, thickness, n, s.button, s.big, s.title)
      ensures s == Strip(vertical, boundary, s.across, thickness, s.button, s.big, s.title, Len(diff, vertical))
      ensures if isNear then s.across == boundary
              else s.across + thickness + boundary == Len(frame, !vertical) - Len(diff, !vertical)
      ensures titleG == s.TitleAt(Lefts(has, revert))
      ensures forall i :: 0 <= i < NUMBER_OF_TITLE_BUTTONS ==>
                buttonG[i] == if has[i] then s.ButtonAt(has, revert, i) else old(buttonG[i])
      ensures s.button > 0 && s.title > 0 && Len(diff, vertical) == 0 ==>
                && (forall i, j | 0 <= i < j < NUMBER_OF_TITLE_BUTTONS && has[i] && has[j] ::
                      InOrder(buttonG[i], buttonG[j], titleG, vertical, i, j, revert))
                && (forall i | 0 <= i < NUMBER_OF_TITLE_BUTTONS && has[i] ::
                      if vertical then buttonG[i].x == s.across && buttonG[i].width == thickness
                      else buttonG[i].y == s.across && buttonG[i].height == thickness)
      ensures s.button > 0 ==> forall i | 0 <= i < NUMBER_OF_TITLE_BUTTONS && has[i] ::
                (if vertical then buttonG[i].y else buttonG[i].x) ==
                boundary + Edge(s.button, s.big, PlaceOf(has, revert, i)) +
                if (i % 2 == 0) != revert then 0 else s.title - Len(diff, vertical)
    {
      var start, back, barLength := boundary, Len(diff, vertical), Len(frame, vertical) - 2 * boundary;
      var across := if isNear then boundary else Len(frame, !vertical) - boundary - thickness - Len(diff, !vertical);
      var button, big, title := FindLengths(barLength, thickness, n);
      s := Strip(vertical, start, across, thickness, button, big, title, back);
      hide LengthsFit;
      assert s.Sound() by { FoundLengths(s, barLength, n); }
      var at, length, left := PlaceLeft(s, vertical, start, across, thickness, button, big, has, revert);
      titleG := if title == 0 then NOWHERE else RectAt(vertical, at, across, title, thickness);
      PlaceRight(s, vertical, at + title - back, across, thickness, length, left, has, revert);
      AllInOrder(s, has, revert);
      hide *;
    }

    lemma AllInOrder(s: Strip, has: Buttons, revert: bool)
      requires s.button > 0 ==> s.Sound()
      ensures s.button > 0 && s.title > 0 && s.back == 0 ==>
                && (forall i, j | 0 <= i < j < NUMBER_OF_TITLE_BUTTONS && has[i] && has[j] ::
                      InOrder(s.ButtonAt(has, revert, i), s.ButtonAt(has, revert, j), s.TitleAt(Lefts(has, revert)),
                              s.vertical, i, j, revert))
                && (forall i | 0 <= i < NUMBER_OF_TITLE_BUTTONS && has[i] ::
                      var r := s.ButtonAt(has, revert, i);
                      if s.vertical then r.x == s.across && r.width == s.thickness
                      else r.y == s.across && r.height == s.thickness)
      ensures s.button > 0 ==> forall i | 0 <= i < NUMBER_OF_TITLE_BUTTONS && has[i] ::
                var r := s.ButtonAt(has, revert, i);
                (if s.vertical then r.y else r.x) ==
                s.start + Edge(s.button, s.big, PlaceOf(has, revert, i)) +
                if (i % 2 == 0) != revert then 0 else s.title - s.back
    {
      if s.button > 0 && s.title > 0 && s.back == 0 {
        hide InOrder, Strip.TitleAt, PlaceOf, OnLeft, LengthOf, Edge;
        forall i, j | 0 <= i < j < NUMBER_OF_TITLE_BUTTONS && has[i] && has[j] {
          ButtonsInOrder(s, has, revert, i, j);
        }
      }
    }

    lemma FoundLengths(s: Strip, barLength: int, n: nat)
      requires LengthsFit(barLength, s.thickness, n, s.button, s.big, s.title)
      ensures s.Sound()
    {
    }

    method PlaceLeft(ghost s: Strip, vertical: bool, start: int, across: int, thickness: int, button: int, nBig: int,
                     has: Buttons, revert: bool)
      returns (at: int, length: int, big: int)
      requires buttonG.Length == NUMBER_OF_TITLE_BUTTONS && s.Sound()
      requires s == Strip(vertical, start, across, thickness, button, nBig, s.title, s.back)
      modifies buttonG
      ensures Progress(s, Lefts(has, revert), 0, at, length, big)
      ensures forall i :: 0 <= i < NUMBER_OF_TITLE_BUTTONS ==>
                buttonG[i] == if has[i] && OnLeft(i, revert) then s.ButtonAt(has, revert, i) else old(buttonG[i])
    {
      at, length, big := start, button, nBig;
      assert Progress(s, LeftBefore(has, revert, 0), 0, at, length, big) && NUMBER_OF_TITLE_BUTTONS == 10;
      assert Lefts(has, revert) == LeftBefore(has, revert, 10);
      hide *;
      for i := 0 to NUMBER_OF_TITLE_BUTTONS
        invariant Progress(s, LeftBefore(has, revert, i), 0, at, length, big)
        invariant forall j :: 0 <= j < i ==>
                    buttonG[j] == if has[j] && OnLeft(j, revert) then s.ButtonAt(has, revert, j) else old(buttonG[j])
        invariant forall j :: i <= j < NUMBER_OF_TITLE_BUTTONS ==> buttonG[j] == old(buttonG[j])
      {
        LeftStep(s, has, revert, i);
        if (revert && i % 2 == 0) || (!revert && i % 2 != 0) || !has[i] {
          continue;
        }
        at, length, big := PutButton(s, i, vertical, at, across, thickness, length, big, LeftBefore(has, revert, i), 0);
      }
    }

    method PlaceRight(ghost s: Strip, vertical: bool, from: int, across: int, thickness: int,
                      fromLength: int, nBig: int, has: Buttons, revert: bool)
      requires buttonG.Length == NUMBER_OF_TITLE_BUTTONS && s.Sound()
      requires s.vertical == vertical && s.across == across && s.thickness == thickness
      requires Progress(s, Lefts(has, revert), s.Gap(), from, fromLength, nBig)
      modifies buttonG
      ensures forall i :: 0 <= i < NUMBER_OF_TITLE_BUTTONS ==>
                buttonG[i] == if has[i] && !OnLeft(i, revert) then s.ButtonAt(has, revert, i) else old(buttonG[i])
    {
      hide *;
      var at, length, big := from, fromLength, nBig;
      NoneBehind(has, revert);
      for i := NUMBER_OF_TITLE_BUTTONS downto 0
        invariant Progress(s, Lefts(has, revert) + RightFrom(has, revert, i), s.Gap(), at, length, big)
        invariant forall j :: i <= j < NUMBER_OF_TITLE_BUTTONS ==>
                    buttonG[j] == if has[j] && !OnLeft(j, revert) then s.ButtonAt(has, revert, j) else old(buttonG[j])
        invariant forall j :: 0 <= j < i ==> buttonG[j] == old(buttonG[j])
      {
        at, length, big := PutRight(s, i, vertical, at, across, thickness, length, big, has, revert);
      }
    }

    lemma NoneBehind(has: Buttons, revert: bool)
      ensures RightFrom(has, revert, NUMBER_OF_TITLE_BUTTONS) == 0 && NUMBER_OF_TITLE_BUTTONS == 10
    {
    }

    method PutRight(ghost s: Strip, i: nat, vertical: bool, at: int, across: int, thickness: int, length: int, big: int,
                    has: Buttons, revert: bool)
      returns (at': int, length': int, big': int)
      requires i < NUMBER_OF_TITLE_BUTTONS == buttonG.Length && s.Sound()
      requires s.vertical == vertical && s.across == across && s.thickness == thickness
      requires Progress(s, Lefts(has, revert) + RightFrom(has, revert, i + 1), s.Gap(), at, length, big)
      modifies buttonG
      ensures Progress(s, Lefts(has, revert) + RightFrom(has, revert, i), s.Gap(), at', length', big')
      ensures forall j :: 0 <= j < NUMBER_OF_TITLE_BUTTONS && j != i ==> buttonG[j] == old(buttonG[j])
      ensures buttonG[i] == if has[i] && !OnLeft(i, revert) then s.ButtonAt(has, revert, i) else old(buttonG[i])
    {
      RightStep(s, has, revert, i);
      hide Progress, Strip.Nth, Strip.ButtonAt, RightFrom, Lefts, OnLeft;
      if (revert && i % 2 != 0) || (!revert && i % 2 == 0) || !has[i] {
        return at, length, big;
      }
      at', length', big' := PutButton(s, i, vertical, at, across, thickness, length, big,
                                      Lefts(has, revert) + RightFrom(has, revert, i + 1), s.Gap());
    }
  }
}
