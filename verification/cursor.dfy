/** Moving the pointer by steps across the pages of the virtual desktop
    (fvwm/cursor.c). */
module CursorMove {
  import opened Geometry

  /** The number of whole pages: with C's division the code gets the floor. */
  function Pages(pos: int, size: int): int
    requires size > 0
  {
    if pos >= 0 then CDiv(pos, size) else CDiv(pos + 1, size) - 1
  }

  lemma PagesIsFloor(pos: int, size: int)
    requires size > 0
    ensures Pages(pos, size) == pos / size
    ensures 0 <= pos - Pages(pos, size) * size < size
  {
    if pos < 0 {
      var a := -(pos + 1);
      var q, r := a / size, a % size;
      assert a == size * q + r;
      assert pos == size * (-q - 1) + (size - 1 - r);
      FloorIs(pos, size, -q - 1, size - 1 - r);
    } else {
      assert pos == size * (pos / size) + pos % size;
    }
  }

  lemma FloorIs(pos: int, size: int, q: int, r: int)
    requires size > 0 && 0 <= r < size && pos == size * q + r
    ensures pos / size == q
  {
    var d := pos / size - q;
    var s := pos % size;
    assert pos == size * (pos / size) + s;
    assert size * d == r - s by {
      assert size * d == size * (pos / size) - size * q;
    }
    SmallMultiple(size, d);
  }

  lemma SmallMultiple(size: int, d: int)
    requires size > 0 && -size < size * d < size
    ensures d == 0
  {
    if d >= 1 {
      MulOrder(size, 1, d);
    } else if d <= -1 {
      MulOrder(size, d, -1);
    }
  }

  lemma MulOrder(k: int, a: int, b: int)
    requires k > 0 && a <= b
    ensures k * a <= k * b
  {
  }

  /** One axis: page, carry and clamp. */
  method PageAxis(start: int, size: int, vp: int, max: int) returns (pos: int, virtual: int)
    requires size > 0 && max >= 0
    ensures virtual + pos == vp + start
    ensures 0 <= virtual <= max
    ensures var v := vp + (start / size) * size;
            && virtual == (if v < 0 then 0 else if v > max then max else v)
            && (0 <= v <= max ==> 0 <= pos < size)
            && (v < 0 ==> pos < start % size) && (v > max ==> pos > start % size)
  {
    pos := start;
    virtual := vp;
    var pages: int;
    if pos >= 0 {
      pages := CDiv(pos, size);
    } else {
      pages := CDiv(pos + 1, size) - 1;
    }
    PagesIsFloor(start, size);
    assert start == size * (start / size) + start % size;
    virtual := virtual + pages * size;
    pos := pos - pages * size;
    if virtual < 0 {
      pos := pos + virtual;
      virtual := 0;
    } else if virtual > max {
      pos := pos + virtual - max;
      virtual := max;
    }
  }

  class Monitor {
    var vx: int
    var vy: int
    const vxMax: int
    const vyMax: int
    const edgeScrollX: int
    const edgeScrollY: int

    constructor (vxMax: int, vyMax: int, edgeScrollX: int, edgeScrollY: int)
      ensures vx == 0 && vy == 0 && this.vxMax == vxMax && this.vyMax == vyMax
      ensures this.edgeScrollX == edgeScrollX && this.edgeScrollY == edgeScrollY
    {
      vx, vy := 0, 0;
      this.vxMax, this.vyMax, this.edgeScrollX, this.edgeScrollY := vxMax, vyMax, edgeScrollX, edgeScrollY;
    }

    /** The viewport after the step, if it may scroll. */
    static function Target(start: int, size: int, vp: int, max: int): int
      requires size > 0
    {
      var v := vp + (start / size) * size;
      if v < 0 then 0 else if v > max then max else v
    }

    /** cursor_move_relative(): the pointer is at (px, py) and moves by the units.
        On each axis the place on the desktop, viewport plus pointer, is the old one
        plus the step, exactly when the viewport was moved or did not have to be. */
    method MoveRelative(px: int, py: int, xUnit: int, yUnit: int, width: int, height: int)
      returns (x: int, y: int, warp: bool)
      requires width > 0 && height > 0 && vxMax >= 0 && vyMax >= 0
      modifies this
      ensures var tx := Target(px + xUnit, width, old(vx), vxMax);
              var ty := Target(py + yUnit, height, old(vy), vyMax);
              var moved := (tx != old(vx) && edgeScrollX != 0) || (ty != old(vy) && edgeScrollY != 0);
              && (vx, vy) == (if moved then (tx, ty) else (old(vx), old(vy)))
              && tx + x == old(vx) + px + xUnit && ty + y == old(vy) + py + yUnit
              && (vx + x == old(vx) + px + xUnit <==> moved || tx == old(vx))
              && (vy + y == old(vy) + py + yUnit <==> moved || ty == old(vy))
              && 0 <= tx <= vxMax && 0 <= ty <= vyMax
              && (tx == old(vx) + ((px + xUnit) / width) * width ==> 0 <= x < width)
              && (ty == old(vy) + ((py + yUnit) / height) * height ==> 0 <= y < height)
      ensures warp <==> !(edgeScrollX == 0 && (x >= width || x + xUnit >= width)) &&
                        !(edgeScrollY == 0 && (y >= height || y + yUnit >= height))
    {
      var virtualX, virtualY;
      x, virtualX := PageAxis(px + xUnit, width, vx, vxMax);
      y, virtualY := PageAxis(py + yUnit, height, vy, vyMax);
      if (virtualX != vx && edgeScrollX != 0) || (virtualY != vy && edgeScrollY != 0) {
        vx, vy := virtualX, virtualY;
      }
      if edgeScrollX == 0 && (x >= width || x + xUnit >= width) {
        return x, y, false;
      }
      if edgeScrollY == 0 && (y >= height || y + yUnit >= height) {
        return x, y, false;
      }
      return x, y, true;
    }
  }
}

/** A page that the pointer takes, and the viewport does not. */
module CursorCases {
  import opened CursorMove

  /** Without edge scrolling, a step of 20 from 90 on a screen of 100 pixels takes the
      pointer to 10 on the same page. */
  method PageWithoutScrolling() returns (m: Monitor, x: int)
    ensures fresh(m) && m.vx == 0 && x == 10 && m.vx + x != 90 + 20
  {
    m := new Monitor(1000, 0, 0, 0);
    var y, warp;
    x, y, warp := m.MoveRelative(90, 0, 20, 0, 100, 100);
  }
}
