/** Reading, donating and deleting the records of the _NET_WM_ICON property
    (fvwm/ewmh_icons.c). */
module WmIcons {
  import opened CStrings
  import opened IconList

  type Int32 = i: int | -TWO31 <= i < TWO31

  // ----- the nearest record

  ghost predicate Headers(list: seq<Card32>, v: seq<nat>) {
    forall k :: 0 <= k < |v| ==> v[k] + 1 < |list|
  }

  lemma BestStays(list: seq<Card32>, v: seq<nat>, i: nat, ww: int, wh: int, best: Option<nat>)
    requires Headers(list, v) && i + 1 < |list| && Best(list, v, ww, wh, best)
    requires Fits(list, i) ==> best.Some? && best.value + 1 < |list| &&
                               DistanceAt(list, best.value, ww, wh) <= DistanceAt(list, i, ww, wh)
    ensures Headers(list, v + [i]) && Best(list, v + [i], ww, wh, best)
  {
    hide Fits, DistanceAt;
    var u := v + [i];
    assert forall k :: 0 <= k < |u| ==> u[k] == if k < |v| then v[k] else i;
    if best.Some? {
      var k :| 0 <= k < |v| && v[k] == best.value && Fits(list, best.value) &&
        (forall j :: 0 <= j < |v| && Fits(list, v[j]) ==>
           DistanceAt(list, best.value, ww, wh) <= DistanceAt(list, v[j], ww, wh)) &&
        (forall j :: 0 <= j < k && Fits(list, v[j]) ==>
           DistanceAt(list, best.value, ww, wh) < DistanceAt(list, v[j], ww, wh));
      assert u[k] == best.value;
    }
  }

  lemma BestMoves(list: seq<Card32>, v: seq<nat>, i: nat, ww: int, wh: int, best: Option<nat>)
    requires Headers(list, v) && i + 1 < |list| && Best(list, v, ww, wh, best) && Fits(list, i)
    requires best.Some? ==> best.value + 1 < |list| &&
                            DistanceAt(list, i, ww, wh) < DistanceAt(list, best.value, ww, wh)
    ensures Headers(list, v + [i]) && Best(list, v + [i], ww, wh, Some(i))
  {
    hide Fits, DistanceAt;
    var u := v + [i];
    assert forall k :: 0 <= k < |u| ==> u[k] == if k < |v| then v[k] else i;
    assert u[|v|] == i;
  }

  lemma ZeroWide(w: Card32, h: Card32)
    ensures w == 0 ==> Product(w, h) == 0
  {
  }

  /** What one more iteration does to the search. */
  lemma Iterates(list: seq<Card32>, n: nat, i: nat)
    requires |list| < TWO31 && Search(list, n) == At(i) && n <= |list|
    ensures i + 1 < |list| && Trail(list, n + 1) == Trail(list, n) + [i]
    ensures Search(list, n + 1) == PlaceAt(list, Next(list, i))
    ensures Area(list, i) > 0 ==> list[i] > 0
    ensures !Search(list, |list|).At? ==> n < |list|
    ensures Ends(list) ==> n < |list| && Next(list, i) >= 0
    ensures Next(list, i) >= 0 && Area(list, i) == 0 ==> Next(list, i) == |list|
  {
    ZeroWide(list[i], list[i + 1]);
    hide Product;
    if n < |list| && Next(list, i) < 0 {
      SearchStays(list, n + 1, |list|);
    }
  }

  lemma IsOver(list: seq<Card32>, n: nat)
    requires n <= |list| && !Search(list, n).At?
    ensures Looked(list) == Trail(list, n) && Search(list, |list|) == Search(list, n)
    ensures Ends(list) <==> Search(list, n) == Done
  {
    SearchStays(list, n, |list|);
  }

  function HeaderBefore(start: nat): Option<nat> { if start < 2 then None else Some(start - 2) }

  /** extract_wm_icon(): the first record nearest to the wanted size.  `size` is
      the length of the list, which fits an int.  The loop ends for exactly the
      lists that meet the precondition; on others it runs for ever, or reads
      before the list. */
  method ExtractWmIcon(list: array<Card32>, ww: Int32, wh: Int32) returns (start: nat, w: int, h: int)
    requires list.Length < TWO31 && Ends(list[..])
    ensures Best(list[..], Looked(list[..]), ww, wh, HeaderBefore(start))
    ensures start == 0 ==> w == 0 && h == 0
    ensures start != 0 ==> 2 <= start <= list.Length && w == ToInt(list[start - 2]) && h == ToInt(list[start - 1])
    ensures start != 0 ==> (start + FullArea(list[..], start - 2) <= list.Length <==>
                            start - 1 + FullArea(list[..], start - 2) < TWO32)
  {
    hide Area, FullArea, Fits, DistanceAt, Search, Trail, Looked, Best, Next, Ends, LiesIn, Distance32;
    var l := list[..];
    ghost var n := 0;
    var best: Option<nat> := None;
    start, w, h := 0, 0, 0;
    var dist := 0;
    var i := 0;
    Begins(l, ww, wh);
    while i < |l| - 1
      invariant 0 <= i && n <= |l| && Search(l, n) == PlaceAt(l, i)
      invariant Headers(l, Trail(l, n)) && Best(l, Trail(l, n), ww, wh, best)
      invariant best == HeaderBefore(start) && (best.None? ==> start == w == h == 0)
      invariant best.Some? ==>
                  && start == best.value + 2 && start <= |l|
                  && w == ToInt(l[start - 2]) && h == ToInt(l[start - 1])
                  && dist == DistanceAt(l, start - 2, ww, wh) && Fits(l, start - 2)
                  && (i + 1 < |l| ==> w != 0)
      decreases |l| - n
    {
      Iterates(l, n, i);
      var here := DistanceAt(l, i, ww, wh);
      if Fits(l, i) && ((w == 0 && h == 0) || here < dist) {
        BestMoves(l, Trail(l, n), i, ww, wh, best);
        start, w, h := i + 2, ToInt(l[i]), ToInt(l[i + 1]);
        dist := here;
        best := Some(i);
      } else {
        BestStays(l, Trail(l, n), i, ww, wh, best);
      }
      n := n + 1;
      i := Next(l, i);
    }
    IsOver(l, n);
    if start != 0 {
      RecordIsInside(l, start);
    }
  }

  /** The best record of this list is not in it: 0x10000 times 0x10001 pixels wrap
      to the 0x10000 that are there. */
  lemma BestCanLieOutside(list: seq<Card32>)
    requires |list| == 0x1_0002 && list[0] == 0x1_0000 && list[1] == 0x1_0001
    ensures Ends(list) && Best(list, Looked(list), 16, 16, Some(0)) && 2 + FullArea(list, 0) > |list|
  {
    FitsWithoutLyingIn(list);
    NoWrapEnds(list);
    assert Looked(list)[0] == 0;
  }

  lemma Begins(list: seq<Card32>, ww: int, wh: int)
    ensures Search(list, 0) == PlaceAt(list, 0) && Trail(list, 0) == [] && Best(list, [], ww, wh, None)
  {
  }

  /** The record lies in the list with all its pixels exactly if its end does not
      wrap. */
  lemma RecordIsInside(list: seq<Card32>, start: nat)
    requires 2 <= start <= |list| < TWO31 && Fits(list, start - 2)
    ensures start + FullArea(list, start - 2) <= |list| <==> start - 1 + FullArea(list, start - 2) < TWO32
  {
    LiesInIff(list, start - 2);
    hide FullArea, Fits;
  }

  lemma {:induction false} OffsetsHold(front: seq<Card32>, rs: seq<Rec>, k: nat)
    requires RecsOk(rs) && |front + Flatten(rs)| < TWO31 && k < |rs|
    ensures |Offsets(rs, |front|)| == |rs|
    ensures var list, i := front + Flatten(rs), Offsets(rs, |front|)[k];
            i + 1 < |list| && list[i] == rs[k].w && list[i + 1] == rs[k].h && Fits(list, i)
    decreases |rs|
  {
    hide *;
    HeaderOf(front, rs);
    RecordsStep(rs, |front|);
    if k > 0 {
      OffsetsHold(front + Image(rs[0]), rs[1..], k - 1);
    } else {
      CountOffsets(rs, |front|);
    }
  }

  lemma {:induction false} CountOffsets(rs: seq<Rec>, at: nat)
    ensures |Offsets(rs, at)| == |rs|
    decreases |rs|
  {
    if rs != [] {
      CountOffsets(rs[1..], at + 2 + rs[0].w * rs[0].h);
    }
  }

  function Apart(r: Rec, ww: int, wh: int): int { Distance(r.w, r.h, ww, wh) }

  /** The least entry, and the first of its kind. */
  ghost predicate FirstLeast(d: seq<int>, k: nat) {
    && k < |d| && (forall j :: 0 <= j < |d| ==> d[k] <= d[j])
    && (forall j :: 0 <= j < k ==> d[k] < d[j])
  }

  lemma BestIsFirstLeast(list: seq<Card32>, v: seq<nat>, ww: int, wh: int, best: Option<nat>, d: seq<int>)
    returns (k: nat)
    requires Headers(list, v) && Best(list, v, ww, wh, best) && |d| == |v| > 0
    requires forall k :: 0 <= k < |v| ==> Fits(list, v[k]) && DistanceAt(list, v[k], ww, wh) == d[k]
    ensures k < |v| && best == Some(v[k]) && FirstLeast(d, k)
  {
    hide Fits, DistanceAt;
    assert Fits(list, v[0]);
    var i := best.value;
    k :| 0 <= k < |v| && v[k] == i && Fits(list, i) &&
      (forall j :: 0 <= j < |v| && Fits(list, v[j]) ==>
         DistanceAt(list, i, ww, wh) <= DistanceAt(list, v[j], ww, wh)) &&
      (forall j :: 0 <= j < k && Fits(list, v[j]) ==>
         DistanceAt(list, i, ww, wh) < DistanceAt(list, v[j], ww, wh));
  }

  lemma DistanceOf(rs: seq<Rec>, k: nat, ww: Int32, wh: Int32)
    requires RecsOk(rs) && |Flatten(rs)| < TWO31 && k < |rs|
    ensures |Offsets(rs, 0)| == |rs|
    ensures var i := Offsets(rs, 0)[k];
            && i + 1 < |Flatten(rs)| && Fits(Flatten(rs), i)
            && DistanceAt(Flatten(rs), i, ww, wh) == Apart(rs[k], ww, wh) % TWO32
  {
    assert [] + Flatten(rs) == Flatten(rs);
    OffsetsHold([], rs, k);
    assert Sized(rs[k]);
    hide Flatten, Offsets, Fits, Distance32, Distance;
    DistanceWraps(rs[k].w, rs[k].h, ww, wh);
  }

  function AllApart(rs: seq<Rec>, ww: int, wh: int): (d: seq<int>)
    ensures |d| == |rs| && forall k :: 0 <= k < |rs| ==> d[k] == Apart(rs[k], ww, wh)
  {
    seq(|rs|, k requires 0 <= k < |rs| => Apart(rs[k], ww, wh))
  }

  function Wrapped(d: seq<int>): (e: seq<int>)
    ensures |e| == |d| && forall k :: 0 <= k < |d| ==> e[k] == d[k] % TWO32
  {
    seq(|d|, k requires 0 <= k < |d| => d[k] % TWO32)
  }

  /** On a well-formed list the answer is the first record at the least distance,
      where distances are counted modulo 2^32. */
  lemma NearestRecord(rs: seq<Rec>, ww: Int32, wh: Int32, best: Option<nat>) returns (k: nat)
    requires RecsOk(rs) && |Flatten(rs)| < TWO31 && rs != []
    requires Best(Flatten(rs), Looked(Flatten(rs)), ww, wh, best)
    ensures |Offsets(rs, 0)| == |rs| && k < |rs|
    ensures best == Some(Offsets(rs, 0)[k]) && FirstLeast(Wrapped(AllApart(rs, ww, wh)), k)
  {
    var list, v := Flatten(rs), Offsets(rs, 0);
    assert Looked(list) == v by {
      WellFormedNoWrap(rs);
      NoWrapEnds(list);
    }
    hide *;
    CountOffsets(rs, 0);
    forall k | 0 <= k < |rs|
      ensures v[k] + 1 < |list| && Fits(list, v[k])
      ensures DistanceAt(list, v[k], ww, wh) == Apart(rs[k], ww, wh) % TWO32
    {
      DistanceOf(rs, k, ww, wh);
    }
    AreHeaders(list, v);
    k := BestIsFirstLeast(list, v, ww, wh, best, Wrapped(AllApart(rs, ww, wh)));
  }

  lemma AreHeaders(list: seq<Card32>, v: seq<nat>)
    requires forall k :: 0 <= k < |v| ==> v[k] + 1 < |list|
    ensures Headers(list, v)
  {
  }

  /** A record whose distance wraps comes before another one. */
  predicate Overtakes(d: seq<int>, j: nat, t: nat)
    requires j < |d| && t < |d|
  {
    d[j] >= TWO32 && (d[j] % TWO32 < d[t] % TWO32 || (d[j] % TWO32 == d[t] % TWO32 && j < t))
  }

  /** The answer is the first record that is truly nearest exactly if no record at
      a distance of 2^32 or more overtakes that one. */
  lemma NearestIff(d: seq<int>, k: nat, t: nat)
    requires (forall j :: 0 <= j < |d| ==> d[j] >= 0) && FirstLeast(Wrapped(d), k) && FirstLeast(d, t)
    ensures k == t <==> forall j :: 0 <= j < |d| ==> !Overtakes(d, j, t)
  {
    if k != t {
      assert Wrapped(d)[k] <= Wrapped(d)[t] && d[t] <= d[k];
      assert Overtakes(d, k, t);
    }
  }

  /** A 65592x1 icon overtakes one of 128x128, when 56x56 is wanted. */
  lemma FarRecordOvertakes(r: Rec, s: Rec)
    requires r.w == 65592 && r.h == 1 && s.w == s.h == 128
    ensures var d := AllApart([s, r], 56, 56);
            FirstLeast(d, 0) && FirstLeast(Wrapped(d), 1) && Overtakes(d, 1, 0)
  {
    assert Apart(s, 56, 56) == 10368 && Apart(r, 56, 56) == TWO32 + 3025;
  }

  // ----- donating and deleting

  /** The search loop that ewmh_SetWmIconFromPixmap() and EWMH_DeleteWmIcon()
      share: where the record to keep starts, and its length.  The first of them
      is guarded against negative positions.  The loop ends for exactly the lists
      that meet the precondition. */
  method FindKeep(list: seq<Card32>, kw: nat, kh: nat, guarded: bool) returns (start: nat, length: int)
    requires |list| < TWO31
    requires Ends(list) || (guarded && Search(list, |list|) == Outside) || KeepIn(list, Looked(list), kw, kh).Some?
    ensures match KeepIn(list, Looked(list), kw, kh)
            case Some((s, n)) => start == s && length == n
            case None => start == 0 && length == 0
  {
    hide Area, Fits, Search, Trail, Looked, KeepIn, Next, Ends;
    start, length := 0, 0;
    var i := 0;
    ghost var n := 0;
    BeginsToKeep(list, kw, kh);
    while i < |list| - 1 && (!guarded || i >= 0)
      invariant n <= |list| && Search(list, n) == PlaceAt(list, i)
      invariant guarded || i >= 0
      invariant KeepIn(list, Trail(list, n), kw, kh) == None && start == length == 0
      decreases |list| - n
    {
      Iterates(list, n, i);
      KeepNext(list, n, i, kw, kh);
      if Fits(list, i) && list[i] == kw && list[i + 1] == kh {
        start, length := i, ToInt((2 + Area(list, i)) % TWO32);
        return;
      }
      n := n + 1;
      i := Next(list, i);
      if i < 0 {
        IsOver(list, n);
      }
    }
    IsOver(list, n);
  }

  lemma BeginsToKeep(list: seq<Card32>, kw: nat, kh: nat)
    ensures Search(list, 0) == PlaceAt(list, 0) && KeepIn(list, Trail(list, 0), kw, kh) == None
  {
  }

  lemma {:induction false} KeepMore(list: seq<Card32>, v: seq<nat>, u: seq<nat>, kw: nat, kh: nat)
    requires forall k :: 0 <= k < |v| ==> v[k] + 1 < |list|
    requires forall k :: 0 <= k < |u| ==> u[k] + 1 < |list|
    ensures KeepIn(list, v + u, kw, kh) ==
            if KeepIn(list, v, kw, kh).Some? then KeepIn(list, v, kw, kh) else KeepIn(list, u, kw, kh)
  {
    if v == [] {
      assert v + u == u;
    } else {
      assert (v + u)[1..] == v[1..] + u;
      KeepMore(list, v[1..], u, kw, kh);
    }
  }

  lemma {:induction false} TrailGrows(list: seq<Card32>, m: nat, n: nat) returns (u: seq<nat>)
    requires m <= n
    ensures Trail(list, n) == Trail(list, m) + u
    ensures forall k :: 0 <= k < |u| ==> u[k] + 1 < |list|
  {
    u := [];
    if m < n {
      var t := TrailGrows(list, m, n - 1);
      u := t + if Search(list, n - 1).At? then [Search(list, n - 1).i] else [];
    }
  }

  /** One more header: it is kept, or nothing is kept so far. */
  lemma KeepNext(list: seq<Card32>, n: nat, i: nat, kw: nat, kh: nat)
    requires n <= |list| < TWO31 && Search(list, n) == At(i) && KeepIn(list, Trail(list, n), kw, kh) == None
    ensures i + 1 < |list|
    ensures n < |list| || KeepIn(list, Looked(list), kw, kh) == None
    ensures IsKept(list, i, kw, kh) && n < |list| ==>
              KeepIn(list, Looked(list), kw, kh) == Some((i, ToInt((2 + Area(list, i)) % TWO32)))
    ensures !IsKept(list, i, kw, kh) ==> KeepIn(list, Trail(list, n + 1), kw, kh) == None
  {
    if n < |list| {
      var u := TrailGrows(list, n + 1, |list|);
      KeepMore(list, Trail(list, n + 1), u, kw, kh);
    }
    hide Fits, Search;
    KeepMore(list, Trail(list, n), [i], kw, kh);
    assert KeepIn(list, [i], kw, kh) ==
           if IsKept(list, i, kw, kh) then Some((i, ToInt((2 + Area(list, i)) % TWO32))) else None;
  }

  function Row(image: (nat, nat) -> Card32, w: nat, j: nat): (p: seq<Card32>)
    ensures |p| == w
  {
    seq(w, i requires 0 <= i < w => image(i, j))
  }

  /** The pixels of a picture, row by row. */
  function Raster(image: (nat, nat) -> Card32, w: nat, h: nat): (p: seq<Card32>)
    ensures |p| == w * h
  {
    if h == 0 then [] else
      assert w * h == w * (h - 1) + w;
      Raster(image, w, h - 1) + Row(image, w, h - 1)
  }

  /** Pixel (i, j) stands at place j * w + i. */
  lemma {:induction false} RasterAt(image: (nat, nat) -> Card32, w: nat, h: nat, i: nat, j: nat)
    requires i < w && j < h
    ensures 0 <= j * w + i < w * h && Raster(image, w, h)[j * w + i] == image(i, j)
  {
    hide Row;
    assert w * h == w * (h - 1) + w;
    assert 0 <= j * w == w * j;
    if j < h - 1 {
      RasterAt(image, w, h - 1, i, j);
    } else {
      assert Row(image, w, j)[i] == image(i, j) by {
        RowNext(image, w, j, i);
      }
    }
  }

  function PixelPlace(w: nat, i: nat, j: nat): int { j * w + i }

  /** The pixels of a picture, each at its place. */
  ghost predicate HoldsImage(p: seq<Card32>, image: (nat, nat) -> Card32, w: nat, h: nat) {
    |p| == w * h &&
    forall i: nat, j: nat | i < w && j < h ::
      0 <= PixelPlace(w, i, j) < |p| && p[PixelPlace(w, i, j)] == image(i, j)
  }

  lemma PixelIs(image: (nat, nat) -> Card32, w: nat, h: nat, i: nat, j: nat)
    requires i < w && j < h
    ensures 0 <= PixelPlace(w, i, j) < w * h && Raster(image, w, h)[PixelPlace(w, i, j)] == image(i, j)
  {
    RasterAt(image, w, h, i, j);
    hide Raster;
  }

  lemma RasterHolds(image: (nat, nat) -> Card32, w: nat, h: nat)
    ensures HoldsImage(Raster(image, w, h), image, w, h)
  {
    hide Raster, PixelPlace;
    forall i: nat, j: nat | i < w && j < h
      ensures 0 <= PixelPlace(w, i, j) < w * h && Raster(image, w, h)[PixelPlace(w, i, j)] == image(i, j)
    {
      PixelIs(image, w, h, i, j);
    }
  }

  method WriteRow(icon: array<Card32>, start: nat, w: nat, j: nat, image: (nat, nat) -> Card32) returns (l: nat)
    requires start + w <= icon.Length
    modifies icon
    ensures l == start + w && icon[..start] == old(icon[..start]) && icon[start..l] == Row(image, w, j)
  {
    l := start;
    var i := 0;
    while i < w
      invariant i <= w && l == start + i
      invariant icon[..start] == old(icon[..start]) && icon[start..l] == Row(image, w, j)[..i]
    {
      icon[l] := image(i, j);
      RowNext(image, w, j, i);
      l := l + 1;
      i := i + 1;
    }
  }

  /** Copies the kept record and writes the new one behind it: its width, its height
      and its pixels, row by row. */
  method BuildIcon(kept: seq<Card32>, w: nat, h: nat, image: (nat, nat) -> Card32) returns (icon: array<Card32>)
    requires 0 < w < TWO31 && 0 < h < TWO31
    ensures fresh(icon) && icon[..] == kept + Image(Rec(w, h, Raster(image, w, h)))
    ensures icon.Length == |kept| + 2 + w * h && icon[..|kept|] == kept
    ensures icon[|kept|] == w && icon[|kept| + 1] == h
    ensures HoldsImage(icon[|kept| + 2..], image, w, h)
  {
    hide Raster, Image, HoldsImage;
    ImageParts(kept, w, h, Raster(image, w, h));
    RasterHolds(image, w, h);
    icon := FillIcon(kept, w, h, image);
    ghost var list := icon[..];
    assert icon[..|kept|] == list[..|kept|] && icon[|kept| + 2..] == list[|kept| + 2..];
    assert icon[|kept|] == list[|kept|] && icon[|kept| + 1] == list[|kept| + 1];
  }

  method FillIcon(kept: seq<Card32>, w: nat, h: nat, image: (nat, nat) -> Card32) returns (icon: array<Card32>)
    requires 0 < w < TWO31 && 0 < h < TWO31
    ensures fresh(icon) && icon[..] == kept + Image(Rec(w, h, Raster(image, w, h)))
  {
    hide Row, Raster;
    RasterStarts(image, w);
    var n := |kept|;
    assert h * w == w * h >= 0;
    icon := new Card32[h * w + 2 + n];
    var m := 0;
    while m < n
      invariant m <= n && icon[..m] == kept[..m]
    {
      icon[m] := kept[m];
      m := m + 1;
    }
    icon[n], icon[n + 1] := w, h;
    ghost var front := kept + [w, h];
    assert icon[..n + 2] == front;
    WriteRows(icon, n + 2, w, h, image);
    assert icon[..] == icon[..n + 2] + icon[n + 2..];
    assert front + Raster(image, w, h) == kept + Image(Rec(w, h, Raster(image, w, h)));
  }

  lemma ImageParts(kept: seq<Card32>, w: Card32, h: Card32, pixels: seq<Card32>)
    ensures var list := kept + Image(Rec(w, h, pixels));
            && |list| == |kept| + 2 + |pixels| && list[..|kept|] == kept
            && list[|kept|] == w && list[|kept| + 1] == h && list[|kept| + 2..] == pixels
  {
  }

  method WriteRows(icon: array<Card32>, start: nat, w: nat, h: nat, image: (nat, nat) -> Card32)
    requires icon.Length == start + w * h
    modifies icon
    ensures icon[..start] == old(icon[..start]) && icon[start..] == Raster(image, w, h)
  {
    hide Row, Raster;
    RasterStarts(image, w);
    ghost var before := icon[..start];
    var l := start;
    var j := 0;
    while j < h
      invariant j <= h && l == start + w * j <= icon.Length
      invariant icon[..start] == before && icon[start..l] == Raster(image, w, j)
    {
      RowFits(w, h, j);
      RasterNext(image, w, j);
      ghost var front, from := icon[..l], l;
      l := WriteRow(icon, l, w, j, image);
      Extended(icon[..l], front, start, from, before, Raster(image, w, j), Row(image, w, j));
      j := j + 1;
    }
  }

  lemma Extended(s: seq<Card32>, front: seq<Card32>, start: nat, from: nat,
                 before: seq<Card32>, t: seq<Card32>, row: seq<Card32>)
    requires start <= from == |front| <= |s| && s[..from] == front && s[from..] == row
    requires front[..start] == before && front[start..] == t
    ensures s[..start] == before && s[start..] == t + row
  {
    assert s == front + row;
  }

  lemma RasterStarts(image: (nat, nat) -> Card32, w: nat)
    ensures Raster(image, w, 0) == []
  {
  }

  lemma RasterNext(image: (nat, nat) -> Card32, w: nat, j: nat)
    ensures Raster(image, w, j + 1) == Raster(image, w, j) + Row(image, w, j)
  {
  }

  lemma RowNext(image: (nat, nat) -> Card32, w: nat, j: nat, i: nat)
    requires i < w
    ensures Row(image, w, j)[..i + 1] == Row(image, w, j)[..i] + [image(i, j)]
  {
  }

  lemma RowFits(w: nat, h: nat, j: nat)
    requires j < h
    ensures w * j + w == w * (j + 1) <= w * h
  {
    MoreRows(w, j + 1, h);
  }

  lemma MoreRows(w: nat, a: nat, b: nat)
    requires a <= b
    ensures w * a <= w * b
  {
  }
}
