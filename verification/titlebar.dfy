/** The geometry of a title bar with MultiPixmap decorations (fvwm/borders.c). */
module TitlebarSpec {
  import opened CStrings
  import opened Geometry

  datatype Rotation = R0 | R90 | R180 | R270

  datatype Justification = Left | Center | Right

  datatype Size = Size(width: int, height: int)

  /** One decoration; without a colorset and a picture it is absent. */
  datatype Piece = Piece(cs: int, solid: bool, picture: Option<Size>)

  datatype Bar = Bar(thickness: int, vertical: bool)

  datatype Kind = LeftOfText | RightOfText | LeftEnd | RightEnd

  datatype Face = MultiPixmap(leftOfText: Piece, rightOfText: Piece, leftEnd: Piece, rightEnd: Piece) | OtherFace

  /** titlebar_descr.  The parts of the title are relative to the title, the
      others to the frame. */
  datatype Descr = Descr(
    frame: Rect, bar: Rect, title: Rect, buttons: seq<Rect>, leftButtons: Rect, rightButtons: Rect,
    length: int, offset: int,
    underText: Rect, leftMain: Rect, rightMain: Rect, fullLeft: Rect, fullRight: Rect,
    reserved: Reserved,
    drawRotation: Rotation, isRotated: bool, hasBeenSaved: bool, vertical: bool, upsideDown: bool)
  {
    function AsBar(): Bar { Bar(Len(bar, !vertical), vertical) }
    function First(): Rect { if upsideDown then rightMain else leftMain }
    function Last(): Rect { if upsideDown then leftMain else rightMain }
    function FullFirst(): Rect { if upsideDown then fullRight else fullLeft }
    function FullLast(): Rect { if upsideDown then fullLeft else fullRight }
    function FirstButtons(): Rect { if upsideDown then rightButtons else leftButtons }
    function LastButtons(): Rect { if upsideDown then leftButtons else rightButtons }
  }

  const TBMP_TITLE_PADDING := 5
  const TBMP_MIN_RL_TITLE_LENGTH := 7
  const WINDOW_TITLE_TEXT_OFFSET := 10
  const MIN_WINDOW_TITLE_TEXT_OFFSET := 2

  // ----- along and across the bar

  function Pos(r: Rect, vertical: bool): int { if vertical then r.y else r.x }
  function Len(r: Rect, vertical: bool): int { if vertical then r.height else r.width }

  /** Three parts lie end to end along the bar and fill the title. */
  predicate SplitsTitle(d: Descr) {
    var v := d.vertical;
    && Pos(d.First(), v) == 0
    && Pos(d.underText, v) == Len(d.First(), v)
    && Pos(d.Last(), v) == Pos(d.underText, v) + Len(d.underText, v)
    && Pos(d.Last(), v) + Len(d.Last(), v) == Len(d.title, v)
    && Thick(d.leftMain, 0, d) && Thick(d.underText, 0, d) && Thick(d.rightMain, 0, d)
  }

  /** With the buttons of their sides, the outer parts reach from the ends of the
      bar to the part under the text. */
  predicate SplitsBar(d: Descr) {
    var v := d.vertical;
    && Pos(d.FullFirst(), v) == Pos(d.bar, v)
    && Pos(d.FullLast(), v) == Pos(d.FullFirst(), v) + Len(d.FullFirst(), v) + Len(d.underText, v)
    && Len(d.FullFirst(), v) == Len(d.First(), v) + Len(d.FirstButtons(), v)
    && Len(d.FullLast(), v) == Len(d.Last(), v) + Len(d.LastButtons(), v)
    && Thick(d.fullLeft, Pos(d.bar, !v), d) && Thick(d.fullRight, Pos(d.bar, !v), d)
  }

  /** A part is as thick as the bar. */
  predicate Thick(r: Rect, pos: int, d: Descr) {
    Pos(r, !d.vertical) == pos && Len(r, !d.vertical) == Len(d.bar, !d.vertical)
  }

  /** The title is as thick as the bar, and it fills the bar with the buttons. */
  predicate Tiled(d: Descr) {
    var v := d.vertical;
    && Len(d.title, !v) == Len(d.bar, !v)
    && Len(d.bar, v) == Len(d.leftButtons, v) + Len(d.title, v) + Len(d.rightButtons, v)
  }

  predicate TextIsInside(d: Descr) {
    var v := d.vertical;
    Pos(d.underText, v) <= d.offset && d.offset + d.length <= Pos(d.underText, v) + Len(d.underText, v)
  }

  predicate NoNegativePart(d: Descr) {
    Len(d.leftMain, d.vertical) >= 0 && Len(d.underText, d.vertical) >= 0 && Len(d.rightMain, d.vertical) >= 0
  }

  // ----- reserved lengths

  /** The room beside the text and at the ends of the title. */
  datatype Reserved = Reserved(leftOfText: int, rightOfText: int, leftEnd: int, rightEnd: int)
  {
    function At(k: Kind): int {
      match k
      case LeftOfText => leftOfText
      case RightOfText => rightOfText
      case LeftEnd => leftEnd
      case RightEnd => rightEnd
    }
    function With(k: Kind, w: int): Reserved {
      match k
      case LeftOfText => this.(leftOfText := w)
      case RightOfText => this.(rightOfText := w)
      case LeftEnd => this.(leftEnd := w)
      case RightEnd => this.(rightEnd := w)
    }
    function Sum(): int { leftOfText + rightOfText + leftEnd + rightEnd }
    /** The room on the side where the text begins (Left) or ends. */
    function Side(just: Justification): int {
      if just == Left then leftOfText + leftEnd else rightOfText + rightEnd
    }
    function Swapped(): Reserved { Reserved(rightOfText, leftOfText, rightEnd, leftEnd) }
    predicate Fits(under: int, titleLength: int) {
      Sum() + under + 2 * TBMP_MIN_RL_TITLE_LENGTH <= titleLength
    }
  }

  const NONE := Reserved(0, 0, 0, 0)

  /** border_mp_get_length() */
  function PieceLength(b: Bar, p: Piece): int {
    if p.cs >= 0 || p.solid then CDiv(b.thickness, 2)
    else if p.picture.None? then 0
    else if b.vertical then p.picture.value.height else p.picture.value.width
  }

  /** Takes a longer piece of a kind, if it still fits. */
  function Take(r: Reserved, k: Kind, w: int, under: int, t: int): Reserved {
    if w > r.At(k) && r.With(k, w).Fits(under, t) then r.With(k, w) else r
  }

  function ReserveFace(b: Bar, f: Face, r: Reserved, under: int, t: int): Reserved {
    if f.OtherFace? then r
    else
      var r1 := Take(r, LeftOfText, PieceLength(b, f.leftOfText), under, t);
      var r2 := Take(r1, RightOfText, PieceLength(b, f.rightOfText), under, t);
      var r3 := Take(r2, LeftEnd, PieceLength(b, f.leftEnd), under, t);
      Take(r3, RightEnd, PieceLength(b, f.rightEnd), under, t)
  }

  function Reserve(b: Bar, faces: seq<Face>, under: int, t: int): Reserved {
    if faces == [] then NONE
    else ReserveFace(b, faces[|faces| - 1], Reserve(b, faces[..|faces| - 1], under, t), under, t)
  }

  /** The longer of each piece of `r` and of a face. */
  function Longer(b: Bar, f: Face, r: Reserved): Reserved {
    if f.OtherFace? then r
    else
      Reserved(Max(r.leftOfText, PieceLength(b, f.leftOfText)), Max(r.rightOfText, PieceLength(b, f.rightOfText)),
               Max(r.leftEnd, PieceLength(b, f.leftEnd)), Max(r.rightEnd, PieceLength(b, f.rightEnd)))
  }

  /** The longest piece of each kind among the faces. */
  function Longest(b: Bar, faces: seq<Face>): Reserved {
    if faces == [] then NONE else Longer(b, faces[|faces| - 1], Longest(b, faces[..|faces| - 1]))
  }

  predicate NonNegative(r: Reserved) { r.leftOfText >= 0 && r.rightOfText >= 0 && r.leftEnd >= 0 && r.rightEnd >= 0 }

  predicate Below(r: Reserved, s: Reserved) {
    r.leftOfText <= s.leftOfText && r.rightOfText <= s.rightOfText && r.leftEnd <= s.leftEnd && r.rightEnd <= s.rightEnd
  }

  ghost predicate Good(r: Reserved, under: int, t: int) { NonNegative(r) && (r == NONE || r.Fits(under, t)) }

  lemma FitsBelow(r: Reserved, s: Reserved, under: int, t: int)
    requires Below(r, s) && s.Fits(under, t)
    ensures r.Fits(under, t)
  {
  }

  lemma TakeStep(r: Reserved, k: Kind, w: int, top: Reserved, under: int, t: int)
    requires Good(r, under, t) && Below(r, top) && w <= top.At(k) && (top.At(k) == w || top.At(k) == r.At(k))
    ensures var s := Take(r, k, w, under, t);
            && Good(s, under, t) && Below(r, s) && Below(s, top)
            && (forall j :: j != k ==> s.At(j) == r.At(j))
            && (top.Fits(under, t) ==> s.At(k) == top.At(k))
  {
    assert forall j :: r.With(k, w).At(j) == if j == k then w else r.At(j);
    if top.Fits(under, t) && w > r.At(k) {
      FitsBelow(r.With(k, w), top, under, t);
    }
  }

  lemma FaceFits(b: Bar, f: Face, r: Reserved, under: int, t: int)
    requires Good(r, under, t)
    ensures var s := ReserveFace(b, f, r, under, t);
            Good(s, under, t) && Below(s, Longer(b, f, r)) && (Longer(b, f, r).Fits(under, t) ==> s == Longer(b, f, r))
  {
    if f.MultiPixmap? {
      var top := Longer(b, f, r);
      var w, x := PieceLength(b, f.leftOfText), PieceLength(b, f.rightOfText);
      var y, z := PieceLength(b, f.leftEnd), PieceLength(b, f.rightEnd);
      assert top.At(LeftOfText) == Max(r.At(LeftOfText), w) && top.At(RightOfText) == Max(r.At(RightOfText), x);
      assert top.At(LeftEnd) == Max(r.At(LeftEnd), y) && top.At(RightEnd) == Max(r.At(RightEnd), z);
      var r1 := Take(r, LeftOfText, w, under, t);
      var r2 := Take(r1, RightOfText, x, under, t);
      var r3 := Take(r2, LeftEnd, y, under, t);
      var s := Take(r3, RightEnd, z, under, t);
      assert s == ReserveFace(b, f, r, under, t);
      hide PieceLength, Take, Good, Longer, ReserveFace, Reserved.Fits, Reserved.At;
      assert Below(r, top) by { LongerIsLonger(b, f, r); }
      TakeStep(r, LeftOfText, w, top, under, t);
      TakeStep(r1, RightOfText, x, top, under, t);
      TakeStep(r2, LeftEnd, y, top, under, t);
      TakeStep(r3, RightEnd, z, top, under, t);
      if top.Fits(under, t) {
        SameParts(s, top);
      }
    }
  }

  lemma LongerIsLonger(b: Bar, f: Face, r: Reserved)
    ensures Below(r, Longer(b, f, r))
  {
    hide PieceLength;
  }

  lemma SameParts(r: Reserved, s: Reserved)
    requires r.At(LeftOfText) == s.At(LeftOfText) && r.At(RightOfText) == s.At(RightOfText)
    requires r.At(LeftEnd) == s.At(LeftEnd) && r.At(RightEnd) == s.At(RightEnd)
    ensures r == s
  {
  }

  lemma LongestGrows(b: Bar, f: Face, r: Reserved, s: Reserved)
    requires Below(r, s)
    ensures Below(Longer(b, f, r), Longer(b, f, s)) && Below(s, Longer(b, f, s))
  {
    hide PieceLength;
  }

  lemma BelowEach(r: Reserved, s: Reserved, t: Reserved)
    requires Below(r, s) && Below(s, t)
    ensures Below(r, t)
  {
  }

  /** The reserved lengths are all zero, or they fit into the title with the text
      and two gaps; no piece gets more than the longest of its kind. */
  lemma {:induction false} ReservedFits(b: Bar, faces: seq<Face>, under: int, t: int)
    ensures var r := Reserve(b, faces, under, t);
            NonNegative(r) && (r == NONE || r.Fits(under, t)) && Below(r, Longest(b, faces))
  {
    if faces != [] {
      var before := faces[..|faces| - 1];
      ReservedFits(b, before, under, t);
      hide Longer, ReserveFace, Below;
      var r := Reserve(b, before, under, t);
      FaceFits(b, faces[|faces| - 1], r, under, t);
      LongestGrows(b, faces[|faces| - 1], r, Longest(b, before));
      BelowEach(ReserveFace(b, faces[|faces| - 1], r, under, t), Longer(b, faces[|faces| - 1], r), Longest(b, faces));
    }
  }

  /** If the longest pieces fit all together, then each gets its length. */
  lemma {:induction false} AllReserved(b: Bar, faces: seq<Face>, under: int, t: int)
    requires Longest(b, faces).Fits(under, t)
    ensures Reserve(b, faces, under, t) == Longest(b, faces)
  {
    if faces != [] {
      var f, before := faces[|faces| - 1], faces[..|faces| - 1];
      hide Longer, ReserveFace, Below;
      LongestGrows(b, f, Longest(b, before), Longest(b, before));
      FitsBelow(Longest(b, before), Longest(b, faces), under, t);
      AllReserved(b, before, under, t);
      ReservedFits(b, before, under, t);
      FaceFits(b, f, Longest(b, before), under, t);
    }
  }

  /** What the faces need of each kind, said of their pieces: half the thickness of the
      bar for a colorset or a solid piece, else the width of the picture in a horizontal
      bar and its height in a vertical one; and of that the most that any face needs. */
  ghost predicate IsLongest(d: Descr, faces: seq<Face>, top: Reserved) {
    var half := CDiv(if d.vertical then d.bar.width else d.bar.height, 2);
    var size := (p: Piece) =>
      if p.cs >= 0 || p.solid then half
      else match p.picture
           case None => 0
           case Some(s) => if d.vertical then s.height else s.width;
    && top.leftOfText >= 0 && top.rightOfText >= 0 && top.leftEnd >= 0 && top.rightEnd >= 0
    && (forall f | f in faces && f.MultiPixmap? ::
          && size(f.leftOfText) <= top.leftOfText && size(f.rightOfText) <= top.rightOfText
          && size(f.leftEnd) <= top.leftEnd && size(f.rightEnd) <= top.rightEnd)
    && (top.leftOfText == 0 || exists f :: f in faces && f.MultiPixmap? && size(f.leftOfText) == top.leftOfText)
    && (top.rightOfText == 0 || exists f :: f in faces && f.MultiPixmap? && size(f.rightOfText) == top.rightOfText)
    && (top.leftEnd == 0 || exists f :: f in faces && f.MultiPixmap? && size(f.leftEnd) == top.leftEnd)
    && (top.rightEnd == 0 || exists f :: f in faces && f.MultiPixmap? && size(f.rightEnd) == top.rightEnd)
  }

  function PieceOf(f: Face, k: Kind): Piece
    requires f.MultiPixmap?
  {
    match k
    case LeftOfText => f.leftOfText
    case RightOfText => f.rightOfText
    case LeftEnd => f.leftEnd
    case RightEnd => f.rightEnd
  }

  ghost predicate Attains(b: Bar, faces: seq<Face>, k: Kind, n: int) {
    exists f :: f in faces && f.MultiPixmap? && PieceLength(b, PieceOf(f, k)) == n
  }

  lemma LongerAt(b: Bar, f: Face, r: Reserved, k: Kind)
    requires f.MultiPixmap?
    ensures Longer(b, f, r).At(k) == Max(r.At(k), PieceLength(b, PieceOf(f, k)))
  {
    hide PieceLength;
  }

  lemma {:induction false} LongestAt(b: Bar, faces: seq<Face>, k: Kind)
    ensures var n := Longest(b, faces).At(k);
            && n >= 0 && (n == 0 || Attains(b, faces, k, n))
            && forall f | f in faces && f.MultiPixmap? :: PieceLength(b, PieceOf(f, k)) <= n
  {
    if faces != [] {
      var f, before := faces[|faces| - 1], faces[..|faces| - 1];
      LongestAt(b, before, k);
      if f.MultiPixmap? {
        LongerAt(b, f, Longest(b, before), k);
      }
      hide PieceLength, Longer, Reserved.At, PieceOf;
      assert faces == before + [f];
    }
  }

  /** There is one such maximum, and `Longest` computes it. */
  lemma LongestIs(d: Descr, faces: seq<Face>, top: Reserved)
    requires IsLongest(d, faces, top)
    ensures Longest(d.AsBar(), faces) == top
  {
    var b := d.AsBar();
    LongestAt(b, faces, LeftOfText);
    LongestAt(b, faces, RightOfText);
    LongestAt(b, faces, LeftEnd);
    LongestAt(b, faces, RightEnd);
    hide Longest;
  }

  ghost predicate HasMp(faces: seq<Face>) { exists f :: f in faces && f.MultiPixmap? }

  // ----- the place of the text

  /** The width under the text: the text with its padding, but not more than the title. */
  function UnderWidth(length: int, titleLength: int): int {
    Min(if length > 0 then length + 2 * TBMP_TITLE_PADDING else 0, titleLength)
  }

  predicate IsCramped(length: int, titleLength: int) {
    (if length > 0 then length + 2 * TBMP_TITLE_PADDING else 0) > titleLength
  }

  /** The text is placed from the start of the bar. */
  predicate FromStart(just: Justification, upsideDown: bool) { (just == Left) != upsideDown }

  /** Where the text goes to leave room for what is reserved on its side. */
  function TextOffset(d: Descr, titleLength: int, just: Justification, r: Reserved): int {
    var side := r.Side(just);
    var gap := side + TBMP_MIN_RL_TITLE_LENGTH + TBMP_TITLE_PADDING;
    if just == Center then d.offset
    else if FromStart(just, d.upsideDown) then Max(d.offset, gap)
    else Min(d.offset, titleLength - (d.length + gap))
  }

  /** `d` becomes `e` when its title is split around the text. */
  predicate Splits(d: Descr, e: Descr, titleLength: int, justify: Justification, faces: seq<Face>) {
    var cramped := IsCramped(d.length, titleLength);
    var under := UnderWidth(d.length, titleLength);
    var r := Reserve(d.AsBar(), faces, under, titleLength);
    && e.offset == (if cramped then CDiv(titleLength - d.length, 2) else TextOffset(d, titleLength, justify, r))
    && e.reserved == (if d.upsideDown then r.Swapped() else r)
    && Len(e.underText, d.vertical) == under
    && Pos(e.underText, d.vertical) == e.offset - CDiv(under - d.length, 2)
    && SplitsTitle(e) && SplitsBar(e)
  }

  /** The space on the side of the title where the text begins (Left) or ends. */
  function Space(d: Descr, just: Justification): int {
    Len(if just == Left then d.leftMain else d.rightMain, d.vertical)
  }

  /** What PlaceText makes of the width of the text. */
  predicate Placed(d: Descr, titleLength: int, justify: Justification) {
    && 0 <= d.length <= Max(0, titleLength - 2 * MIN_WINDOW_TITLE_TEXT_OFFSET)
    && d.offset >= MIN_WINDOW_TITLE_TEXT_OFFSET
    && (d.length > 0 && d.length + WINDOW_TITLE_TEXT_OFFSET <= titleLength && justify != Center ==>
          d.offset == if FromStart(justify, d.upsideDown) then WINDOW_TITLE_TEXT_OFFSET
                      else Max(titleLength - d.length - WINDOW_TITLE_TEXT_OFFSET, MIN_WINDOW_TITLE_TEXT_OFFSET))
    && (d.length == 0 || justify == Center ==>
          d.offset == Max((titleLength - d.length) / 2, MIN_WINDOW_TITLE_TEXT_OFFSET))
  }

  /** The window and its bar are the same. */
  predicate SameBar(d: Descr, e: Descr) {
    && e.vertical == d.vertical && e.upsideDown == d.upsideDown
    && e.title == d.title && e.bar == d.bar && e.length == d.length
  }

  /** The title is wide enough for the text where the justification puts it. */
  predicate IsWideEnough(length: int, titleLength: int, just: Justification) {
    if length == 0 then titleLength >= if just == Center then MIN_WINDOW_TITLE_TEXT_OFFSET
                                       else TBMP_MIN_RL_TITLE_LENGTH + TBMP_TITLE_PADDING
    else just == Center || IsCramped(length, titleLength)
         || titleLength >= length + 2 * TBMP_TITLE_PADDING + TBMP_MIN_RL_TITLE_LENGTH
  }

  /** The reading side of the text keeps the room that is reserved there and a gap. */
  lemma RoomBesideText(d: Descr, e: Descr, t: int, just: Justification, faces: seq<Face>)
    requires Splits(d, e, t, just, faces) && SameBar(d, e) && Len(d.title, d.vertical) == t
    requires just != Center && d.length >= 0 && !IsCramped(d.length, t)
    ensures var r := Reserve(d.AsBar(), faces, UnderWidth(d.length, t), t);
            Space(e, just) >= r.Side(just) + TBMP_MIN_RL_TITLE_LENGTH
  {
    hide Reserve, SplitsBar;
  }

  /** If what the faces need fits beside the text, with its padding, and two gaps, then
      each kind gets it, and the side of the title where the text begins or ends has room
      for it. */
  ghost predicate KeepsRoom(d: Descr, t: int, just: Justification, faces: seq<Face>) {
    var v, under := d.vertical, if d.length > 0 then d.length + 10 else 0;
    forall top | IsLongest(d, faces, top) && d.length >= 0 && t == (if v then d.title.height else d.title.width) ::
      top.leftOfText + top.rightOfText + top.leftEnd + top.rightEnd + under + 14 <= t ==>
        && d.reserved == (if d.upsideDown
                          then Reserved(top.rightOfText, top.leftOfText, top.rightEnd, top.leftEnd) else top)
        && (just == Left ==>
              (if v then d.leftMain.height else d.leftMain.width) >= top.leftOfText + top.leftEnd + 7)
        && (just == Right ==>
              (if v then d.rightMain.height else d.rightMain.width) >= top.rightOfText + top.rightEnd + 7)
  }

  lemma LongestHasRoom(d: Descr, e: Descr, t: int, just: Justification, faces: seq<Face>, top: Reserved)
    requires Splits(d, e, t, just, faces) && SameBar(d, e) && d.length >= 0
    requires IsLongest(d, faces, top) && Len(d.title, d.vertical) == t
    requires top.Sum() + (if d.length > 0 then d.length + 10 else 0) + 14 <= t
    ensures e.reserved == if d.upsideDown then top.Swapped() else top
    ensures just != Center ==> Space(e, just) >= top.Side(just) + 7
  {
    LongestIs(d, faces, top);
    AllReserved(d.AsBar(), faces, UnderWidth(d.length, t), t);
    hide Reserve, Longest, SplitsBar, SplitsTitle, IsLongest, TextOffset;
    if just != Center {
      RoomBesideText(d, e, t, just, faces);
    }
  }

  lemma SameLongest(d: Descr, e: Descr, faces: seq<Face>, top: Reserved)
    requires SameBar(d, e)
    ensures IsLongest(d, faces, top) <==> IsLongest(e, faces, top)
  {
  }

  lemma RoomForLongest(d: Descr, e: Descr, t: int, just: Justification, faces: seq<Face>)
    requires Splits(d, e, t, just, faces) && SameBar(d, e)
    ensures KeepsRoom(e, t, just, faces)
  {
    hide Splits, IsLongest;
    forall top | IsLongest(e, faces, top) && d.length >= 0 && Len(d.title, d.vertical) == t &&
                 top.Sum() + (if d.length > 0 then d.length + 10 else 0) + 14 <= t
      ensures e.reserved == if d.upsideDown then top.Swapped() else top
      ensures just != Center ==> Space(e, just) >= top.Side(just) + 7
    {
      SameLongest(d, e, faces, top);
      LongestHasRoom(d, e, t, just, faces, top);
    }
  }

  /** If anything is reserved, the other side has its room, too. */
  lemma RoomOnOtherSide(d: Descr, e: Descr, t: int, just: Justification, faces: seq<Face>)
    requires Splits(d, e, t, just, faces) && SameBar(d, e) && Len(d.title, d.vertical) == t && Placed(d, t, just)
    requires just != Center && d.length > 0 && !IsCramped(d.length, t)
    requires Reserve(d.AsBar(), faces, UnderWidth(d.length, t), t) != NONE
    ensures var r := Reserve(d.AsBar(), faces, UnderWidth(d.length, t), t);
            Space(e, if just == Left then Right else Left)
            >= r.Side(if just == Left then Right else Left) + TBMP_MIN_RL_TITLE_LENGTH
  {
    ReservedFits(d.AsBar(), faces, UnderWidth(d.length, t), t);
    hide Reserve, SplitsBar, Longest;
  }

  lemma PartLengths(d: Descr, e: Descr, t: int, just: Justification, faces: seq<Face>)
    requires Splits(d, e, t, just, faces) && SameBar(d, e) && Len(d.title, d.vertical) == t >= 0
    ensures var u := UnderWidth(d.length, t);
            var before := e.offset - CDiv(u - d.length, 2);
            NoNegativePart(e) <==> before >= 0 && t - before - u >= 0
  {
    hide Reserve, SplitsBar, TextOffset;
  }

  /** The offset, from the gap that the text leaves on its side. */
  function Place(length: int, t: int, fromStart: bool, gap: int): int {
    var middle := Max(t / 2, MIN_WINDOW_TITLE_TEXT_OFFSET);
    if length > 0 then if fromStart then gap else t - (length + gap)
    else if fromStart then Max(middle, gap) else Min(middle, t - gap)
  }

  lemma PlaceOfText(d: Descr, t: int, just: Justification, r: Reserved)
    requires Placed(d, t, just) && NonNegative(r) && !IsCramped(d.length, t) && just != Center
    ensures var gap := r.Side(just) + TBMP_MIN_RL_TITLE_LENGTH + TBMP_TITLE_PADDING;
            TextOffset(d, t, just, r) == Place(d.length, t, FromStart(just, d.upsideDown), gap)
  {
  }

  lemma PlaceFits(length: int, t: int, fromStart: bool, side: int)
    requires length >= 0 && t >= 0 && !IsCramped(length, t)
    requires SideOk(side, UnderWidth(length, t), t)
    ensures var before := Place(length, t, fromStart, side + TBMP_MIN_RL_TITLE_LENGTH + TBMP_TITLE_PADDING)
                          - if length > 0 then TBMP_TITLE_PADDING else 0;
            before >= 0 && t - before - UnderWidth(length, t) >= 0 <==> IsWideEnough(length, t, Left)
  {
  }

  /** With any reserved lengths that fit. */
  lemma PlaceIsWideEnough(d: Descr, t: int, just: Justification, r: Reserved)
    requires t >= 0 && Placed(d, t, just) && NonNegative(r) && !IsCramped(d.length, t)
    requires r == NONE || r.Fits(UnderWidth(d.length, t), t)
    ensures var u := UnderWidth(d.length, t);
            var before := TextOffset(d, t, just, r) - CDiv(u - d.length, 2);
            before >= 0 && t - before - u >= 0 <==> IsWideEnough(d.length, t, just)
  {
    PaddingIs(d.length, t);
    if just == Center {
      hide NonNegative, Reserved.Fits;
    } else {
      var side := r.Side(just);
      SideFits(r, just, UnderWidth(d.length, t), t);
      PlaceOfText(d, t, just, r);
      assert IsWideEnough(d.length, t, just) == IsWideEnough(d.length, t, Left);
      hide *;
      PlaceFits(d.length, t, FromStart(just, d.upsideDown), side);
    }
  }

  lemma PaddingIs(length: int, t: int)
    requires length >= 0 && !IsCramped(length, t)
    ensures CDiv(UnderWidth(length, t) - length, 2) == if length > 0 then TBMP_TITLE_PADDING else 0
  {
  }

  predicate SideOk(side: int, under: int, t: int) {
    side >= 0 && (side > 0 ==> side + under + 2 * TBMP_MIN_RL_TITLE_LENGTH <= t)
  }

  lemma SideFits(r: Reserved, just: Justification, under: int, t: int)
    requires NonNegative(r) && (r == NONE || r.Fits(under, t))
    ensures SideOk(r.Side(just), under, t)
  {
  }

  /** No part gets a negative length exactly if the title is wide enough; else the
      gap beside the text pushes the far part below zero. */
  lemma NegativeIffNarrow(d: Descr, e: Descr, t: int, just: Justification, faces: seq<Face>)
    requires Splits(d, e, t, just, faces) && SameBar(d, e) && Len(d.title, d.vertical) == t >= 0 && Placed(d, t, just)
    ensures NoNegativePart(e) <==> IsWideEnough(d.length, t, just)
  {
    PartLengths(d, e, t, just, faces);
    if !IsCramped(d.length, t) {
      ReservedFits(d.AsBar(), faces, UnderWidth(d.length, t), t);
      PlaceIsWideEnough(d, t, just, Reserve(d.AsBar(), faces, UnderWidth(d.length, t), t));
      hide Reserve, SplitsBar, SplitsTitle, Longest, TextOffset, IsWideEnough, NoNegativePart, Placed;
    } else {
      hide Reserve, SplitsBar, SplitsTitle, TextOffset, NoNegativePart, Placed;
    }
  }

  /** The text stays over the part that is meant for it. */
  lemma SplitHoldsText(d: Descr, e: Descr, t: int, just: Justification, faces: seq<Face>)
    requires Splits(d, e, t, just, faces) && SameBar(d, e) && 0 <= d.length <= t
    ensures TextIsInside(e)
  {
    hide Reserve, SplitsBar;
  }

  // ----- rotation

  /** The geometry that a rectangle is turned in; without one, coordinates are
      only exchanged. */
  function Turn(rot: Rotation, r: Rect, within: Option<Rect>): Rect {
    match rot
    case R0 => r
    case R90 => Rect(if within.Some? then within.value.height - (r.y + r.height) else r.y, r.x, r.height, r.width)
    case R270 => Rect(r.y, if within.Some? then within.value.width - (r.x + r.width) else r.x, r.height, r.width)
    case R180 =>
      if within.None? then r
      else Rect(within.value.width - (r.x + r.width), r.y, r.width, r.height)
  }
}

/** Turning a description, and what that keeps. */
module TitlebarTheorems {
  import opened CStrings
  import opened Geometry
  import opened TitlebarSpec

  /** The rotation that makes the bar horizontal. */
  function Back(rot: Rotation): Rotation {
    match rot
    case R90 => R270
    case R270 => R90
    case R180 => R180
    case R0 => R0
  }

  /** The rotation agrees with the direction of the bar (fvwm/geometry.c:264-290). */
  predicate IsConsistent(d: Descr) {
    d.vertical == (d.drawRotation == R90 || d.drawRotation == R270) &&
    d.upsideDown == (d.drawRotation == R180 || d.drawRotation == R270)
  }

  /** The description with the bar made horizontal. */
  function Turned(d: Descr): Descr {
    var rot := Back(d.drawRotation);
    var frame, title := Some(d.frame), Some(d.title);
    d.(vertical := false, upsideDown := false, isRotated := true,
       offset := match rot
                 case R90 => d.title.height - d.offset - d.length
                 case R180 => d.title.width - d.offset - d.length
                 case _ => d.offset,
       reserved := if rot == R90 || rot == R180 then d.reserved.Swapped() else d.reserved,
       leftButtons := Turn(rot, d.leftButtons, frame), rightButtons := Turn(rot, d.rightButtons, frame),
       buttons := TurnedAll(rot, d.buttons, frame),
       underText := Turn(rot, d.underText, title),
       leftMain := Turn(rot, d.leftMain, title), rightMain := Turn(rot, d.rightMain, title),
       fullLeft := Turn(rot, d.fullLeft, frame), fullRight := Turn(rot, d.fullRight, frame),
       title := Turn(rot, d.title, frame), bar := Turn(rot, d.bar, frame),
       frame := Turn(rot, d.frame, None))
  }

  function TurnedAll(rot: Rotation, s: seq<Rect>, within: Option<Rect>): (r: seq<Rect>)
    ensures |r| == |s| && forall i :: 0 <= i < |s| ==> r[i] == Turn(rot, s[i], within)
  {
    seq(|s|, i requires 0 <= i < |s| => Turn(rot, s[i], within))
  }

  /** border_rotate_titlebar_descr(), with its static copy. */
  function Rotated(d: Descr, saved: Descr): (Descr, Descr) {
    if d.drawRotation == R0 then (d, saved)
    else
      var e := d.(hasBeenSaved := true);
      var copy := if d.hasBeenSaved then saved else e;
      if e.isRotated then (copy.(isRotated := false), copy) else (Turned(e), copy)
  }

  function RotatedTimes(d: Descr, saved: Descr, n: nat): (Descr, Descr) {
    if n == 0 then (d, saved)
    else
      var (e, copy) := RotatedTimes(d, saved, n - 1);
      Rotated(e, copy)
  }

  /** Any even number of calls gives back every field, and any odd number leaves
      the description turned once. */
  lemma {:induction false} RotatingTwiceRestores(d: Descr, saved: Descr, n: nat)
    requires !d.isRotated && !d.hasBeenSaved && d.drawRotation != R0
    ensures RotatedTimes(d, saved, 2 * n + 1) == (Turned(d.(hasBeenSaved := true)), d.(hasBeenSaved := true))
    ensures RotatedTimes(d, saved, 2 * n + 2) == (d.(hasBeenSaved := true), d.(hasBeenSaved := true))
  {
    var e := d.(hasBeenSaved := true);
    assert Turned(e).isRotated && Turned(e).hasBeenSaved && Turned(e).drawRotation == d.drawRotation;
    if n == 0 {
      assert RotatedTimes(d, saved, 0) == (d, saved);
    } else {
      RotatingTwiceRestores(d, saved, n - 1);
    }
    assert RotatedTimes(d, saved, 2 * n + 1) == (Turned(e), e);
  }

  /** Where the points of a geometry go: the turns of the plane by a multiple of 90
      degrees that keep it in the corner at the origin. */
  function TurnPoint(rot: Rotation, x: int, y: int, within: Rect): (int, int) {
    match rot
    case R0 => (x, y)
    case R90 => (within.height - 1 - y, x)
    case R270 => (y, within.width - 1 - x)
    case R180 => (within.width - 1 - x, within.height - 1 - y)
  }

  predicate Holds(r: Rect, x: int, y: int) { r.x <= x < r.x + r.width && r.y <= y < r.y + r.height }

  /** It lies as far from the upper edge as from the lower one. */
  predicate IsCentred(r: Rect, within: Rect) { 2 * r.y + r.height == within.height }

  ghost predicate TurnsPoints(rot: Rotation, r: Rect, within: Rect) {
    forall x, y {:trigger Holds(r, x, y)} ::
      var p := TurnPoint(rot, x, y, within);
      Holds(r, x, y) <==> Holds(Turn(rot, r, Some(within)), p.0, p.1)
  }

  /** Turning a rectangle turns each of its points, except that turning by 180
      degrees never changes the y coordinate: this is a turn exactly for rectangles
      that lie halfway up. */
  lemma TurnsPointsIff(rot: Rotation, r: Rect, within: Rect)
    requires r.width > 0 && r.height > 0
    ensures TurnsPoints(rot, r, within) <==> rot != R180 || IsCentred(r, within)
  {
    if rot == R180 && TurnsPoints(rot, r, within) {
      assert Holds(r, r.x, r.y) && Holds(r, r.x, r.y + r.height - 1);
    }
  }

  /** The parts of a title that fills the height of its bar do. */
  lemma PartsAreCentred(d: Descr)
    requires SplitsTitle(d) && Tiled(d) && !d.vertical
    ensures IsCentred(d.leftMain, d.title) && IsCentred(d.underText, d.title) && IsCentred(d.rightMain, d.title)
  {
  }

  /** Turning back within the turned geometry gives the rectangle again. */
  lemma TurnBack(rot: Rotation, r: Rect, within: Rect)
    ensures Turn(Back(rot), Turn(rot, r, Some(within)), Some(Turn(rot, within, None))) == r
  {
  }

  /** The split of the title is still end to end after the bar was made horizontal,
      now with the left part on the left. */
  lemma TurningKeepsSplit(d: Descr)
    requires IsConsistent(d) && d.drawRotation != R0 && Tiled(d) && SplitsTitle(d)
    ensures SplitsTitle(Turned(d))
    ensures Tiled(Turned(d))
    ensures Len(Turned(d).title, false) == Len(d.title, d.vertical)
    ensures Len(Turned(d).leftMain, false) == Len(d.leftMain, d.vertical)
    ensures Len(Turned(d).underText, false) == Len(d.underText, d.vertical)
    ensures Len(Turned(d).rightMain, false) == Len(d.rightMain, d.vertical)
  {
  }

  lemma TurningKeepsBar(d: Descr)
    requires IsConsistent(d) && d.drawRotation != R0 && Tiled(d) && SplitsTitle(d) && SplitsBar(d)
    ensures SplitsBar(Turned(d))
  {
  }

  /** However often the description is turned and restored, its title and its bar
      are split end to end. */
  lemma {:induction false} AlwaysSplit(d: Descr, saved: Descr, n: nat)
    requires IsConsistent(d) && d.drawRotation != R0 && Tiled(d) && SplitsTitle(d) && SplitsBar(d)
    requires !d.isRotated && !d.hasBeenSaved
    ensures var e := RotatedTimes(d, saved, n).0;
            SplitsTitle(e) && SplitsBar(e) && e.isRotated == (n % 2 == 1)
  {
    var e := d.(hasBeenSaved := true);
    TurningKeepsSplit(e);
    TurningKeepsBar(e);
    assert SplitsTitle(e) && SplitsBar(e);
    hide SplitsTitle, SplitsBar, Tiled, IsConsistent;
    if n > 0 {
      RotatingTwiceRestores(d, saved, (n - 1) / 2);
      assert n == 2 * ((n - 1) / 2) + 1 || n == 2 * ((n - 1) / 2) + 2;
    }
  }

  /** Where everything in the frame goes, and the parts of the title in the title: a
      bar that is read downwards or upwards is turned a quarter back, and one that is
      upside down is mirrored from left to right. */
  lemma TurnedPlaces(d: Descr, x: int, y: int)
    requires d.drawRotation != R0
    ensures var e, rot, f := Turned(d), d.drawRotation, d.frame;
            var u := if rot == R90 then y else if rot == R180 then f.width - 1 - x else f.height - 1 - y;
            var v := if rot == R90 then f.width - 1 - x else if rot == R180 then y else x;
            && (Holds(d.title, x, y) <==> Holds(e.title, u, v)) && (Holds(d.bar, x, y) <==> Holds(e.bar, u, v))
            && (Holds(d.leftButtons, x, y) <==> Holds(e.leftButtons, u, v))
            && (Holds(d.rightButtons, x, y) <==> Holds(e.rightButtons, u, v))
            && (Holds(d.fullLeft, x, y) <==> Holds(e.fullLeft, u, v))
            && (Holds(d.fullRight, x, y) <==> Holds(e.fullRight, u, v))
            && |e.buttons| == |d.buttons|
            && forall i | 0 <= i < |d.buttons| :: Holds(d.buttons[i], x, y) <==> Holds(e.buttons[i], u, v)
    ensures var e, rot, f := Turned(d), d.drawRotation, d.title;
            var u := if rot == R90 then y else if rot == R180 then f.width - 1 - x else f.height - 1 - y;
            var v := if rot == R90 then f.width - 1 - x else if rot == R180 then y else x;
            && (Holds(d.underText, x, y) <==> Holds(e.underText, u, v))
            && (Holds(d.leftMain, x, y) <==> Holds(e.leftMain, u, v))
            && (Holds(d.rightMain, x, y) <==> Holds(e.rightMain, u, v))
  {
  }

  /** In the horizontal bar the reserved lengths are those of the pieces they are named
      after, and the side where the text begins or ends has its room. */
  lemma TurnedRoom(d: Descr, t: int, just: Justification, faces: seq<Face>, top: Reserved)
    requires IsConsistent(d) && d.drawRotation != R0 && KeepsRoom(d, t, just, faces) && IsLongest(d, faces, top)
    requires d.length >= 0 && t == if d.vertical then d.title.height else d.title.width
    requires top.leftOfText + top.rightOfText + top.leftEnd + top.rightEnd
             + (if d.length > 0 then d.length + 10 else 0) + 14 <= t
    ensures var e := Turned(d);
            && e.reserved == top
            && (just == Left ==> e.leftMain.width >= top.leftOfText + top.leftEnd + 7)
            && (just == Right ==> e.rightMain.width >= top.rightOfText + top.rightEnd + 7)
  {
    hide IsLongest, TurnedAll;
  }

  lemma TurningKeepsText(d: Descr)
    requires IsConsistent(d) && d.drawRotation != R0 && TextIsInside(d)
    ensures TextIsInside(Turned(d))
  {
  }
}

module Titlebar {
  import opened CStrings
  import opened Geometry
  import opened TitlebarSpec
  import opened TitlebarTheorems
  import opened TitleLayout
  import opened TitleBarGeometry

  class TitlebarDescr {
    var td: Descr
    /** The static copy of the rotation code. */
    var savedTd: Descr

    /** The bar and the boxes for its buttons (fvwm/borders.c:4360-4493). */
    method SetBar(newG: Rect, boundary: int, title: Rect, buttons: seq<Rect>, has: Buttons,
                  isVertical: bool, textRotation: Rotation, useDecorRotation: bool)
      requires |buttons| == NUMBER_OF_TITLE_BUTTONS
      modifies this`td
      ensures td == old(td).(frame := newG, title := title, buttons := buttons, vertical := isVertical,
                             upsideDown := old(td).upsideDown || textRotation == R270 || textRotation == R180,
                             drawRotation := if useDecorRotation then textRotation else old(td).drawRotation,
                             bar := td.bar, leftButtons := td.leftButtons, rightButtons := td.rightButtons)
      ensures BarIsSet(td, boundary, has)
      ensures td.bar == if isVertical then Rect(title.x, boundary, title.width, newG.height - 2 * boundary)
                        else Rect(boundary, title.y, newG.width - 2 * boundary, title.height)
      ensures BoxesAt(td, boundary, SideLength(buttons, has, isVertical, true, NUMBER_OF_TITLE_BUTTONS),
                      SideLength(buttons, has, isVertical, false, NUMBER_OF_TITLE_BUTTONS))
    {
      td := td.(frame := newG, title := title, buttons := buttons, vertical := isVertical);
      SetRotation(textRotation, useDecorRotation);
      var left, right := SideLengths(buttons, has, isVertical);
      hide SideLength, BoxesAreSet, BoxesAt;
      if !td.vertical {
        td := td.(bar := Rect(boundary, title.y, newG.width - 2 * boundary, title.height));
      } else {
        td := td.(bar := Rect(title.x, boundary, title.width, newG.height - 2 * boundary));
      }
      PlaceBoxes(boundary, left, right);
    }

    method SetRotation(textRotation: Rotation, useDecorRotation: bool)
      modifies this`td
      ensures td == old(td).(upsideDown := old(td).upsideDown || textRotation == R270 || textRotation == R180,
                             drawRotation := if useDecorRotation then textRotation else old(td).drawRotation)
    {
      if useDecorRotation {
        td := td.(drawRotation := textRotation);
      }
      if textRotation == R270 || textRotation == R180 {
        td := td.(upsideDown := true);
      }
    }

    /** The boxes for the buttons: the one of the even buttons at the start of the bar, the
        other one behind the title. */
    ghost predicate BoxesAt(d: Descr, boundary: int, left: int, right: int) {
      var first := if d.upsideDown then d.rightButtons else d.leftButtons;
      var last := if d.upsideDown then d.leftButtons else d.rightButtons;
      && d.leftButtons.width == (if d.vertical then d.bar.width else if d.upsideDown then right else left)
      && d.rightButtons.width == (if d.vertical then d.bar.width else if d.upsideDown then left else right)
      && d.leftButtons.height == (if !d.vertical then d.bar.height else if d.upsideDown then right else left)
      && d.rightButtons.height == (if !d.vertical then d.bar.width else if d.upsideDown then left else right)
      && first.x == (if d.vertical then d.bar.x else boundary) && first.y == (if d.vertical then boundary else d.bar.y)
      && last.x == (if d.vertical then d.bar.x else d.title.x + d.title.width)
      && last.y == (if d.vertical then d.title.y + d.title.height else d.bar.y)
    }

    method PlaceBoxes(boundary: int, left: int, right: int)
      modifies this`td
      ensures td == old(td).(leftButtons := td.leftButtons, rightButtons := td.rightButtons)
      ensures if td.upsideDown then BoxesAreSet(td, boundary, right, left) else BoxesAreSet(td, boundary, left, right)
      ensures BoxesAt(td, boundary, left, right)
    {
      var title := td.title;
      if td.vertical {
        td := td.(leftButtons := td.leftButtons.(width := td.bar.width),
                  rightButtons := td.rightButtons.(width := td.bar.width));
      } else {
        td := td.(leftButtons := td.leftButtons.(height := td.bar.height),
                  rightButtons := td.rightButtons.(height := td.bar.width));
      }
      if td.upsideDown {
        if td.vertical {
          td := td.(leftButtons := td.leftButtons.(height := right, y := title.y + title.height, x := td.bar.x),
                    rightButtons := td.rightButtons.(height := left, y := boundary, x := td.bar.x));
        } else {
          td := td.(leftButtons := td.leftButtons.(width := right, x := title.x + title.width, y := td.bar.y),
                    rightButtons := td.rightButtons.(width := left, x := boundary, y := td.bar.y));
        }
      } else {
        if td.vertical {
          td := td.(leftButtons := td.leftButtons.(height := left, y := boundary, x := td.bar.x),
                    rightButtons := td.rightButtons.(height := right, y := title.y + title.height, x := td.bar.x));
        } else {
          td := td.(leftButtons := td.leftButtons.(width := left, x := boundary, y := td.bar.y),
                    rightButtons := td.rightButtons.(width := right, x := title.x + title.width, y := td.bar.y));
        }
      }
    }

    /** The lengths of the even and of the odd buttons. */
    method SideLengths(buttons: seq<Rect>, has: Buttons, vertical: bool) returns (left: int, right: int)
      requires |buttons| == NUMBER_OF_TITLE_BUTTONS
      ensures left == SideLength(buttons, has, vertical, true, NUMBER_OF_TITLE_BUTTONS)
      ensures right == SideLength(buttons, has, vertical, false, NUMBER_OF_TITLE_BUTTONS)
    {
      left, right := 0, 0;
      for i := 0 to NUMBER_OF_TITLE_BUTTONS
        invariant left == SideLength(buttons, has, vertical, true, i)
        invariant right == SideLength(buttons, has, vertical, false, i)
      {
        if !has[i] {
          continue;
        }
        if i % 2 != 0 {
          right := right + Len(buttons[i], vertical);
        } else {
          left := left + Len(buttons[i], vertical);
        }
      }
    }

    /** Sets the length and the offset of the text, from its width, if the window has
        a name (fvwm/borders.c:4500-4567). */
    method PlaceText(textWidth: Option<int>, titleLength: int, justify: Justification)
      requires titleLength >= 0
      modifies this`td
      ensures td == old(td).(length := td.length, offset := td.offset)
      ensures td.length == match textWidth
                           case None => 0
                           case Some(w) => Max(0, Min(w, titleLength - 2 * MIN_WINDOW_TITLE_TEXT_OFFSET))
      ensures Placed(td, titleLength, justify)
    {
      var just := justify;
      var length, offset := 0, 0;
      if textWidth.Some? {
        length := textWidth.value;
        if length > titleLength - 2 * MIN_WINDOW_TITLE_TEXT_OFFSET {
          length := titleLength - 2 * MIN_WINDOW_TITLE_TEXT_OFFSET;
          just := Center;
        }
        if length < 0 {
          length := 0;
        }
      }
      if length == 0 {
        just := Center;
      }
      var isStart := just == Left;
      if just != Center {
        if td.upsideDown {
          isStart := !isStart;
        }
        if isStart {
          if WINDOW_TITLE_TEXT_OFFSET + length <= titleLength {
            offset := WINDOW_TITLE_TEXT_OFFSET;
          } else {
            offset := titleLength - length;
          }
        } else {
          offset := titleLength - length - WINDOW_TITLE_TEXT_OFFSET;
        }
      } else {
        offset := CDiv(titleLength - length, 2);
      }
      if offset < MIN_WINDOW_TITLE_TEXT_OFFSET {
        offset := MIN_WINDOW_TITLE_TEXT_OFFSET;
      }
      td := td.(length := length, offset := offset);
    }

    /** Reserves room for the decorations of a face, as long as all of them fit. */
    method ReserveForFace(f: Face, was: Reserved, under: int, titleLength: int) returns (r: Reserved)
      requires f.MultiPixmap?
      ensures r == ReserveFace(td.AsBar(), f, was, under, titleLength)
    {
      var leftOfText, rightOfText, leftEnd, rightEnd := was.leftOfText, was.rightOfText, was.leftEnd, was.rightEnd;
      var bar := td.AsBar();
      hide PieceLength;
      var gaps := under + 2 * TBMP_MIN_RL_TITLE_LENGTH;
      var add := PieceLength(bar, f.leftOfText);
      if add > leftOfText && add + leftEnd + rightOfText + rightEnd + gaps <= titleLength {
        leftOfText := add;
      }
      ghost var r1 := Take(was, LeftOfText, add, under, titleLength);
      assert r1 == Reserved(leftOfText, rightOfText, leftEnd, rightEnd);
      add := PieceLength(bar, f.rightOfText);
      if add > rightOfText && add + leftEnd + leftOfText + rightEnd + gaps <= titleLength {
        rightOfText := add;
      }
      ghost var r2 := Take(r1, RightOfText, add, under, titleLength);
      assert r2 == Reserved(leftOfText, rightOfText, leftEnd, rightEnd);
      add := PieceLength(bar, f.leftEnd);
      if add > leftEnd && add + rightOfText + leftOfText + rightEnd + gaps <= titleLength {
        leftEnd := add;
      }
      ghost var r3 := Take(r2, LeftEnd, add, under, titleLength);
      assert r3 == Reserved(leftOfText, rightOfText, leftEnd, rightEnd);
      add := PieceLength(bar, f.rightEnd);
      if add > rightEnd && add + rightOfText + leftOfText + leftEnd + gaps <= titleLength {
        rightEnd := add;
      }
      r := Reserved(leftOfText, rightOfText, leftEnd, rightEnd);
    }

    method ReserveRoom(under: int, titleLength: int, faces: seq<Face>) returns (r: Reserved, hasMp: bool)
      ensures r == Reserve(td.AsBar(), faces, under, titleLength)
      ensures hasMp <==> HasMp(faces)
    {
      r, hasMp := NONE, false;
      for n := 0 to |faces|
        invariant r == Reserve(td.AsBar(), faces[..n], under, titleLength)
        invariant hasMp <==> HasMp(faces[..n])
      {
        assert faces[..n + 1][..n] == faces[..n];
        HasMpOneMore(faces, n);
        if faces[n].OtherFace? {
          continue;
        }
        hasMp := true;
        r := ReserveForFace(faces[n], r, under, titleLength);
      }
      assert faces[..|faces|] == faces;
    }

    lemma HasMpOneMore(faces: seq<Face>, n: nat)
      requires n < |faces|
      ensures HasMp(faces[..n + 1]) <==> HasMp(faces[..n]) || faces[n].MultiPixmap?
    {
      assert faces[..n + 1] == faces[..n] + [faces[n]];
    }

    /** The place of the text that leaves room for what is reserved. */
    method AdjustOffset(titleLength: int, just: Justification, r: Reserved)
      modifies this`td
      ensures td == old(td).(offset := TextOffset(old(td), titleLength, just, r))
    {
      if just != Center {
        var isStart := just == Left;
        if td.upsideDown {
          isStart := !isStart;
        }
        var gap := TBMP_MIN_RL_TITLE_LENGTH + TBMP_TITLE_PADDING;
        if isStart {
          if td.upsideDown {
            td := td.(offset := Max(td.offset, r.rightOfText + r.rightEnd + gap));
          } else {
            td := td.(offset := Max(td.offset, r.leftOfText + r.leftEnd + gap));
          }
        } else {
          if td.upsideDown {
            td := td.(offset := Min(td.offset, titleLength - (td.length + r.leftOfText + r.leftEnd + gap)));
          } else {
            td := td.(offset := Min(td.offset, titleLength - (td.length + r.rightOfText + r.rightEnd + gap)));
          }
        }
      }
    }

    /** Lays out the parts beside the text, which is `under` wide with its padding. */
    method LayOut(under: int, r: Reserved)
      modifies this`td
      ensures td == old(td).(underText := td.underText, leftMain := td.leftMain, rightMain := td.rightMain,
                             fullLeft := td.fullLeft, fullRight := td.fullRight,
                             reserved := if td.upsideDown then r.Swapped() else r)
      ensures Len(td.underText, td.vertical) == under
      ensures Pos(td.underText, td.vertical) == td.offset - CDiv(under - td.length, 2)
      ensures SplitsTitle(td) && SplitsBar(td)
    {
      var underOffset := td.offset - CDiv(under - td.length, 2);
      var before := underOffset;
      var after := Len(td.title, td.vertical) - before - under;
      if td.upsideDown {
        td := td.(reserved := r.Swapped());
        before, after := after, before;
      } else {
        td := td.(reserved := r);
      }
      if td.vertical {
        td := td.(underText := Rect(0, underOffset, td.bar.width, under),
                  fullLeft := td.fullLeft.(width := td.bar.width, height := before + td.leftButtons.height),
                  leftMain := td.leftMain.(width := td.bar.width, height := before),
                  fullRight := td.fullRight.(width := td.bar.width, height := after + td.rightButtons.height),
                  rightMain := td.rightMain.(width := td.bar.width, height := after));
      } else {
        td := td.(underText := Rect(underOffset, 0, under, td.bar.height),
                  fullLeft := td.fullLeft.(height := td.bar.height, width := before + td.leftButtons.width),
                  leftMain := td.leftMain.(height := td.bar.height, width := before),
                  fullRight := td.fullRight.(height := td.bar.height, width := after + td.rightButtons.width),
                  rightMain := td.rightMain.(height := td.bar.height, width := after));
      }
      if td.upsideDown {
        td := td.(fullRight := td.fullRight.(x := td.bar.x, y := td.bar.y), rightMain := td.rightMain.(x := 0, y := 0));
      } else {
        td := td.(fullLeft := td.fullLeft.(x := td.bar.x, y := td.bar.y), leftMain := td.leftMain.(x := 0, y := 0));
      }
      if td.vertical {
        if td.upsideDown {
          td := td.(fullLeft := td.fullLeft.(x := td.bar.x, y := td.fullRight.height + td.bar.y + td.underText.height),
                    leftMain := td.leftMain.(y := td.underText.y + td.underText.height, x := 0));
        } else {
          td := td.(fullRight := td.fullRight.(x := td.bar.x, y := td.fullLeft.height + td.bar.y + td.underText.height),
                    rightMain := td.rightMain.(y := td.underText.y + td.underText.height, x := 0));
        }
      } else {
        if td.upsideDown {
          td := td.(fullLeft := td.fullLeft.(x := td.fullRight.width + td.bar.x + td.underText.width, y := td.bar.y),
                    leftMain := td.leftMain.(x := td.underText.x + td.underText.width, y := 0));
        } else {
          td := td.(fullRight := td.fullRight.(x := td.fullLeft.width + td.bar.x + td.underText.width, y := td.bar.y),
                    rightMain := td.rightMain.(x := td.underText.x + td.underText.width, y := 0));
        }
      }
    }

    /** The width under the text; a text without room for its padding is centred. */
    method Cramp(titleLength: int, justify: Justification) returns (under: int, just: Justification)
      modifies this`td
      ensures under == UnderWidth(td.length, titleLength)
      ensures just == if IsCramped(td.length, titleLength) then Center else justify
      ensures td == old(td).(offset := if IsCramped(td.length, titleLength) then CDiv(titleLength - td.length, 2)
                                       else old(td).offset)
    {
      just := justify;
      under := if td.length > 0 then td.length + 2 * TBMP_TITLE_PADDING else 0;
      if under > titleLength {
        under := titleLength;
        td := td.(offset := CDiv(titleLength - td.length, 2));
        just := Center;
      }
    }

    /** border_mp_get_titlebar_descr() */
    method GetMpDescr(titleLength: int, justify: Justification, faces: seq<Face>)
      modifies this`td
      ensures td == old(td).(offset := td.offset, underText := td.underText,
                             leftMain := td.leftMain, rightMain := td.rightMain,
                             fullLeft := td.fullLeft, fullRight := td.fullRight, reserved := td.reserved)
      ensures HasMp(faces) ==> Splits(old(td), td, titleLength, justify, faces)
      ensures !HasMp(faces) ==> td == old(td).(offset := td.offset)
      ensures !HasMp(faces) ==>
                td.offset == if IsCramped(td.length, titleLength) then CDiv(titleLength - td.length, 2)
                             else old(td.offset)
      ensures HasMp(faces) ==> KeepsRoom(td, titleLength, justify, faces)
    {
      hide SplitsTitle, SplitsBar, Reserve, HasMp, CDiv, IsCramped, UnderWidth;
      ghost var was := td;
      var under, just := Cramp(titleLength, justify);
      assert td.AsBar() == was.AsBar();
      var r, hasMp := ReserveRoom(under, titleLength, faces);
      if !hasMp {
        return;
      }
      AdjustOffset(titleLength, just, r);
      LayOut(under, r);
      RoomForLongest(was, td, titleLength, justify, faces);
    }

    /** The text and the parts of the title, as border_get_titlebar_descr() sets them. */
    method GetTitlebarDescr(textWidth: Option<int>, titleLength: int, justify: Justification, faces: seq<Face>)
      requires titleLength >= 0
      modifies this`td
      ensures HasMp(faces) ==> SplitsTitle(td) && SplitsBar(td) && TextIsInside(td)
      ensures !HasMp(faces) ==> td == old(td).(length := td.length, offset := td.offset)
      ensures td.length == match textWidth
                           case None => 0
                           case Some(w) => Max(0, Min(w, titleLength - 2 * MIN_WINDOW_TITLE_TEXT_OFFSET))
      ensures !HasMp(faces) ==>
                td.offset == if td.length > 0 && td.length + 10 > titleLength then CDiv(titleLength - td.length, 2)
                             else if td.length == 0 || justify == Center then
                               Max(CDiv(titleLength - td.length, 2), MIN_WINDOW_TITLE_TEXT_OFFSET)
                             else if (justify == Left) != td.upsideDown then WINDOW_TITLE_TEXT_OFFSET
                             else Max(titleLength - td.length - 10, MIN_WINDOW_TITLE_TEXT_OFFSET)
      ensures HasMp(faces) ==> KeepsRoom(td, titleLength, justify, faces)
      ensures HasMp(faces) && Len(td.title, td.vertical) == titleLength ==>
                (NoNegativePart(td) <==> IsWideEnough(td.length, titleLength, justify))
    {
      PlaceText(textWidth, titleLength, justify);
      ghost var placed := td;
      hide KeepsRoom, SplitsTitle, SplitsBar, HasMp, Reserve, IsWideEnough;
      GetMpDescr(titleLength, justify, faces);
      if HasMp(faces) {
        SplitHoldsText(placed, td, titleLength, justify, faces);
        if Len(td.title, td.vertical) == titleLength {
          NegativeIffNarrow(placed, td, titleLength, justify, faces);
        }
      }
    }

    method RotateButtons(rotation: Rotation)
      modifies this`td
      ensures td == old(td).(buttons := TurnedAll(rotation, old(td).buttons, Some(old(td).frame)))
    {
      ghost var was := td;
      var n := |td.buttons|;
      for i := 0 to n
        invariant |td.buttons| == n && td == was.(buttons := td.buttons)
        invariant forall j :: 0 <= j < n ==>
                    td.buttons[j] == if j < i then Turn(rotation, was.buttons[j], Some(was.frame)) else was.buttons[j]
      {
        td := td.(buttons := td.buttons[i := Turn(rotation, td.buttons[i], Some(td.frame))]);
      }
      assert td.buttons == TurnedAll(rotation, was.buttons, Some(was.frame));
    }

    /** The lengths are those of a bar that is read from left to right. */
    method TurnLengths(rotation: Rotation)
      modifies this`td
      ensures td == old(td).(offset := match rotation
                                       case R90 => td.title.height - old(td).offset - td.length
                                       case R180 => td.title.width - old(td).offset - td.length
                                       case _ => old(td).offset,
                             reserved := if rotation == R90 || rotation == R180 then old(td).reserved.Swapped()
                                         else old(td).reserved)
    {
      match rotation {
        case R90 =>
          td := td.(offset := td.title.height - td.offset - td.length, reserved := td.reserved.Swapped());
        case R180 =>
          td := td.(offset := td.title.width - td.offset - td.length, reserved := td.reserved.Swapped());
        case R270 =>
        case R0 =>
      }
    }

    /** border_rotate_titlebar_descr() */
    method Rotate()
      modifies this
      ensures (td, savedTd) == Rotated(old(td), old(savedTd))
    {
      if td.drawRotation == R0 {
        return;
      }
      if !td.hasBeenSaved {
        td := td.(hasBeenSaved := true);
        savedTd := td;
      }
      if !td.isRotated {
        MakeHorizontal();
      } else {
        td := savedTd;
        td := td.(isRotated := false);
      }
    }

    method MakeHorizontal()
      requires td.drawRotation != R0
      modifies this`td
      ensures td == Turned(old(td))
    {
      var rotation := match td.drawRotation
        case R90 => R270
        case R270 => R90
        case _ => R180;
      assert rotation == Back(td.drawRotation);
      hide Turn, Back;
      td := td.(vertical := false, upsideDown := false, isRotated := true);
      TurnLengths(rotation);
      td := td.(leftButtons := Turn(rotation, td.leftButtons, Some(td.frame)));
      td := td.(rightButtons := Turn(rotation, td.rightButtons, Some(td.frame)));
      RotateButtons(rotation);
      TurnParts(rotation);
    }

    /** The parts of the title, those of the bar, and the geometries they lie in. */
    method TurnParts(rotation: Rotation)
      modifies this`td
      ensures var was, frame, title := old(td), Some(old(td).frame), Some(old(td).title);
              td == was.(underText := Turn(rotation, was.underText, title),
                         leftMain := Turn(rotation, was.leftMain, title),
                         rightMain := Turn(rotation, was.rightMain, title),
                         fullLeft := Turn(rotation, was.fullLeft, frame),
                         fullRight := Turn(rotation, was.fullRight, frame),
                         title := Turn(rotation, was.title, frame), bar := Turn(rotation, was.bar, frame),
                         frame := Turn(rotation, was.frame, None))
    {
      hide Turn;
      td := td.(underText := Turn(rotation, td.underText, Some(td.title)));
      td := td.(leftMain := Turn(rotation, td.leftMain, Some(td.title)));
      td := td.(rightMain := Turn(rotation, td.rightMain, Some(td.title)));
      td := td.(fullLeft := Turn(rotation, td.fullLeft, Some(td.frame)));
      td := td.(fullRight := Turn(rotation, td.fullRight, Some(td.frame)));
      td := td.(title := Turn(rotation, td.title, Some(td.frame)));
      td := td.(bar := Turn(rotation, td.bar, Some(td.frame)));
      td := td.(frame := Turn(rotation, td.frame, None));
    }
  }
}
