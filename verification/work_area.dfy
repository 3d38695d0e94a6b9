/** The work area of a monitor (fvwm/ewmh.c). */
module WorkArea {
  import opened Geometry

  datatype Strut = Strut(left: int, right: int, top: int, bottom: int)

  /** What a window has to say about the work area. */
  datatype Win = Win(onMonitor: bool, ignoresStrut: bool, sticky: bool, strut: Strut)
  {
    predicate Honoured() { onMonitor && !ignoresStrut && sticky }
  }

  function Join(a: Strut, b: Strut): Strut {
    Strut(Max(a.left, b.left), Max(a.right, b.right), Max(a.top, b.top), Max(a.bottom, b.bottom))
  }

  /** `s` is at least `t` on each side. */
  predicate Covers(s: Strut, t: Strut) {
    s.left >= t.left && s.right >= t.right && s.top >= t.top && s.bottom >= t.bottom
  }

  /** The least strut that covers the base strut and all honoured ones. */
  ghost predicate IsLeastCover(base: Strut, ws: multiset<Win>, s: Strut) {
    && Covers(s, base) && (forall w :: w in ws && w.Honoured() ==> Covers(s, w.strut))
    && forall t :: Covers(t, base) && (forall w :: w in ws && w.Honoured() ==> Covers(t, w.strut)) ==> Covers(t, s)
  }

  lemma LeastCoverIsUnique(base: Strut, ws: multiset<Win>, s: Strut, t: Strut)
    requires IsLeastCover(base, ws, s) && IsLeastCover(base, ws, t)
    ensures s == t
  {
    assert Covers(s, t) && Covers(t, s);
  }

  /** On each side, `s` is the greatest of the base strut and the struts of the sticky
      windows of the monitor that are not ignored. */
  ghost predicate IsWidest(base: Strut, ws: seq<Win>, s: Strut) {
    && s.left >= base.left && s.right >= base.right && s.top >= base.top && s.bottom >= base.bottom
    && (forall w | w in ws && w.onMonitor && w.sticky && !w.ignoresStrut ::
          && s.left >= w.strut.left && s.right >= w.strut.right
          && s.top >= w.strut.top && s.bottom >= w.strut.bottom)
    && (s.left == base.left ||
        exists w :: w in ws && w.onMonitor && w.sticky && !w.ignoresStrut && w.strut.left == s.left)
    && (s.right == base.right ||
        exists w :: w in ws && w.onMonitor && w.sticky && !w.ignoresStrut && w.strut.right == s.right)
    && (s.top == base.top ||
        exists w :: w in ws && w.onMonitor && w.sticky && !w.ignoresStrut && w.strut.top == s.top)
    && (s.bottom == base.bottom ||
        exists w :: w in ws && w.onMonitor && w.sticky && !w.ignoresStrut && w.strut.bottom == s.bottom)
  }

  lemma BaseIsWidest(base: Strut)
    ensures IsWidest(base, [], base) && IsLeastCover(base, multiset([]), base)
  {
  }

  lemma NextIsWidest(base: Strut, ws: seq<Win>, i: nat, s: Strut)
    requires i < |ws| && IsWidest(base, ws[..i], s)
    ensures var w := ws[i];
            IsWidest(base, ws[..i + 1], if w.onMonitor && !w.ignoresStrut && w.sticky then Join(s, w.strut) else s)
  {
    assert ws[..i + 1] == ws[..i] + [ws[i]];
  }

  /** The area that a strut leaves, relative to the monitor. */
  function Area(m: Rect, s: Strut): Rect {
    Rect(s.left, s.top, m.width - (s.left + s.right), m.height - (s.top + s.bottom))
  }

  class Monitor {
    const geometry: Rect
    const baseStrut: Strut
    var workingArea: Rect

    constructor (geometry: Rect, baseStrut: Strut)
      ensures this.geometry == geometry && this.baseStrut == baseStrut
    {
      this.geometry := geometry;
      this.baseStrut := baseStrut;
      workingArea := Rect(0, 0, 0, 0);
    }

    /** ewmh_ComputeAndSetWorkArea() */
    method ComputeWorkArea(windows: seq<Win>) returns (ghost strut: Strut)
      modifies this
      ensures IsLeastCover(baseStrut, multiset(windows), strut)
      ensures workingArea == Rect(strut.left, strut.top, geometry.width - strut.left - strut.right,
                                  geometry.height - strut.top - strut.bottom)
      ensures IsWidest(baseStrut, windows, strut)
    {
      hide IsWidest, IsLeastCover;
      var left, right, top, bottom := baseStrut.left, baseStrut.right, baseStrut.top, baseStrut.bottom;
      strut := baseStrut;
      var i := 0;
      assert windows[..0] == [];
      BaseIsWidest(baseStrut);
      while i < |windows|
        invariant i <= |windows| && strut == Strut(left, right, top, bottom)
        invariant IsLeastCover(baseStrut, multiset(windows[..i]), strut)
        invariant IsWidest(baseStrut, windows[..i], strut)
      {
        var fw := windows[i];
        NextIsWidest(baseStrut, windows, i, strut);
        NextWindow(baseStrut, windows, i, strut);
        if fw.onMonitor && !fw.ignoresStrut && fw.sticky {
          left := Max(left, fw.strut.left);
          right := Max(right, fw.strut.right);
          top := Max(top, fw.strut.top);
          bottom := Max(bottom, fw.strut.bottom);
          strut := Join(strut, fw.strut);
        }
        i := i + 1;
      }
      assert windows[..i] == windows;
      var area := Rect(left, top, geometry.width - (left + right), geometry.height - (top + bottom));
      if workingArea != area {
        workingArea := area;
      }
    }

    /** get_ewmhc_boundingbox() */
    method BoundingBox(windows: seq<Win>) returns (box: Strut)
      modifies this
      ensures IsLeastCover(baseStrut, multiset(windows), box)
      ensures IsWidest(baseStrut, windows, box)
    {
      ghost var strut := ComputeWorkArea(windows);
      hide *;
      var left := workingArea.x;
      var right := geometry.width - left - workingArea.width;
      var top := workingArea.y;
      var bottom := geometry.height - top - workingArea.height;
      box := Strut(left, right, top, bottom);
    }

    /** EWMH_GetWorkAreaIntersection() for the working area.  Each edge is that of
        the geometric intersection exactly under the conditions of `EdgeAgrees`. */
    method GetIntersection(windows: seq<Win>, r: Rect) returns (out: Rect)
      modifies this
      ensures exists s :: IsLeastCover(baseStrut, multiset(windows), s) &&
                          out == Intersected(geometry, Area(geometry, s), r)
    {
      ghost var strut := ComputeWorkArea(windows);
      var area := workingArea;
      var nx := Max(r.x, area.x + geometry.x);
      var ny := Max(r.y, area.y + geometry.y);
      var nw := Min(r.x + r.width, area.x + area.width) - nx + geometry.x;
      var nh := Min(r.y + r.height, area.y + area.height) - ny + geometry.y;
      out := Rect(nx, ny, nw, nh);
      assert out == Intersected(geometry, Area(geometry, strut), r);
    }
  }

  lemma NextWindow(base: Strut, windows: seq<Win>, i: nat, s: Strut)
    requires i < |windows| && IsLeastCover(base, multiset(windows[..i]), s)
    ensures var w := windows[i];
            IsLeastCover(base, multiset(windows[..i + 1]), if w.Honoured() then Join(s, w.strut) else s)
  {
    var w := windows[i];
    var ws := multiset(windows[..i]);
    assert windows[..i + 1] == windows[..i] + [w];
    assert forall v :: v in multiset(windows[..i + 1]) <==> v in ws || v == w;
  }

  /** A further window never lets the area grow. */
  lemma MoreWindowsLessArea(m: Rect, base: Strut, ws: multiset<Win>, w: Win, s: Strut, t: Strut)
    requires IsLeastCover(base, ws, s) && IsLeastCover(base, ws + multiset{w}, t)
    ensures Covers(t, s)
    ensures var a, b := Area(m, s), Area(m, t);
            a.x <= b.x && a.y <= b.y && b.x + b.width <= a.x + a.width && b.y + b.height <= a.y + a.height
  {
    assert Covers(t, s);
  }

  /** What the code computes from a rectangle and an area relative to the monitor. */
  function Intersected(m: Rect, area: Rect, r: Rect): Rect {
    var nx := Max(r.x, area.x + m.x);
    var ny := Max(r.y, area.y + m.y);
    Rect(nx, ny,
         Min(r.x + r.width, area.x + area.width) - nx + m.x,
         Min(r.y + r.height, area.y + area.height) - ny + m.y)
  }

  /** The code compares an edge of the rectangle with an edge relative to the
      monitor; this is when that makes no difference. */
  predicate EdgeAgrees(origin: int, rectEnd: int, areaEnd: int) {
    origin == 0 || (rectEnd >= areaEnd && rectEnd >= areaEnd + origin)
  }

  /** The far edges are those of the intersection exactly when the edges agree. */
  lemma IntersectionEdges(m: Rect, area: Rect, r: Rect)
    ensures var out := Intersected(m, area, r);
            && out.x == Max(r.x, area.x + m.x) && out.y == Max(r.y, area.y + m.y)
            && (out.x + out.width == Min(r.x + r.width, area.x + area.width + m.x) <==>
                EdgeAgrees(m.x, r.x + r.width, area.x + area.width))
            && (out.y + out.height == Min(r.y + r.height, area.y + area.height + m.y) <==>
                EdgeAgrees(m.y, r.y + r.height, area.y + area.height))
  {
  }

  /** Where both edges agree the result is the intersection, point by point. */
  lemma IntersectionPoints(m: Rect, area: Rect, r: Rect, px: int, py: int)
    requires EdgeAgrees(m.x, r.x + r.width, area.x + area.width)
    requires EdgeAgrees(m.y, r.y + r.height, area.y + area.height)
    ensures var out := Intersected(m, area, r);
            out.x <= px < out.x + out.width && out.y <= py < out.y + out.height <==>
            && r.x <= px < r.x + r.width && r.y <= py < r.y + r.height
            && area.x + m.x <= px < area.x + m.x + area.width && area.y + m.y <= py < area.y + m.y + area.height
  {
  }

  /** On a monitor off the origin the width can be wrong: a rectangle that ends
      inside the work area is not cut at its own edge. */
  lemma IntersectionCanBeWrong()
    ensures var m, area, r := Rect(100, 0, 100, 50), Rect(0, 0, 100, 50), Rect(110, 10, 20, 20);
            var out := Intersected(m, area, r);
            && out.x <= 150 < out.x + out.width && out.y <= 15 < out.y + out.height
            && !(r.x <= 150 < r.x + r.width)
  {
  }

  /** The whole monitor, with a non-negative origin, meets the area in exactly the
      area. */
  lemma WholeMonitor(m: Rect, s: Strut)
    requires m.x >= 0 && m.y >= 0 && Covers(s, Strut(0, 0, 0, 0))
    ensures var area := Area(m, s);
            Intersected(m, area, m) == area.(x := area.x + m.x, y := area.y + m.y)
  {
  }
}
