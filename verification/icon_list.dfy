/** Icon lists as in the _NET_WM_ICON property: width, height and that many
    pixels, record after record (fvwm/ewmh_icons.c). */
module IconList {
  import opened CStrings

  const TWO31 := 0x8000_0000
  const TWO32 := 0x1_0000_0000

  type Card32 = i: int | 0 <= i < TWO32

  /** The product of two CARD32 values, which wraps. */
  function Product(w: Card32, h: Card32): Card32 { (w * h) % TWO32 }

  /** A CARD32 stored in an int. */
  function ToInt(u: int): int
    requires 0 <= u < TWO32
  {
    if u < TWO31 then u else u - TWO32
  }

  function Area(list: seq<Card32>, i: nat): Card32
    requires i + 1 < |list|
  {
    Product(list[i], list[i + 1])
  }

  /** i + 1 + w * h < size */
  predicate Fits(list: seq<Card32>, i: nat)
    requires i + 1 < |list|
  {
    (i + 1 + Area(list, i)) % TWO32 < |list|
  }

  /** Where the search goes from the header at `i`. */
  function Next(list: seq<Card32>, i: nat): int
    requires i + 1 < |list|
  {
    if Area(list, i) > 0 then ToInt((i + 2 + Area(list, i)) % TWO32) else |list|
  }

  /** The sums at this header do not wrap. */
  predicate Steady(list: seq<Card32>, i: nat)
    requires i + 1 < |list|
  {
    i + 2 + Area(list, i) < TWO31
  }

  /** The headers that the search looks at, up to the first that is not steady. */
  function Visited(list: seq<Card32>, i: nat): (v: seq<nat>)
    ensures forall k :: 0 <= k < |v| ==> i <= v[k] && v[k] + 1 < |list|
    decreases |list| - i
  {
    if i + 1 >= |list| then []
    else if !Steady(list, i) || Area(list, i) == 0 then [i]
    else [i] + Visited(list, i + 2 + Area(list, i))
  }

  predicate NoWrapFrom(list: seq<Card32>, i: nat) {
    forall k :: 0 <= k < |Visited(list, i)| ==> Steady(list, Visited(list, i)[k])
  }

  predicate NoWrap(list: seq<Card32>) { NoWrapFrom(list, 0) }

  /** A step goes forward exactly when the header is steady, or its product is
      the largest number there is. */
  lemma ForwardIff(list: seq<Card32>, i: nat)
    requires i + 1 < |list| < TWO31 && Area(list, i) > 0
    ensures Next(list, i) > i <==> Steady(list, i) || Area(list, i) == TWO32 - 1
    ensures Steady(list, i) ==> Next(list, i) == i + 2 + Area(list, i)
    ensures Steady(list, i) ==> (Fits(list, i) <==> i + 1 + Area(list, i) < |list|)
  {
    var sum := i + 2 + Area(list, i);
    if sum >= TWO32 {
      assert sum % TWO32 == sum - TWO32;
    }
  }

  /** Where the search is: before a header, behind the list, or before it. */
  datatype Place = Done | At(i: nat) | Outside

  function PlaceAt(list: seq<Card32>, j: int): Place {
    if j < 0 then Outside else if j + 1 < |list| then At(j) else Done
  }

  /** The place after `n` iterations. */
  function Search(list: seq<Card32>, n: nat): (p: Place)
    ensures p.At? ==> p.i + 1 < |list|
  {
    if n == 0 then PlaceAt(list, 0)
    else
      var p := Search(list, n - 1);
      if p.At? then PlaceAt(list, Next(list, p.i)) else p
  }

  /** The headers that these iterations look at. */
  function Trail(list: seq<Card32>, n: nat): (v: seq<nat>)
    ensures forall k :: 0 <= k < |v| ==> v[k] + 1 < |list|
  {
    if n == 0 then []
    else Trail(list, n - 1) + if Search(list, n - 1).At? then [Search(list, n - 1).i] else []
  }

  lemma {:induction false} SearchStays(list: seq<Card32>, m: nat, n: nat)
    requires m <= n && !Search(list, m).At?
    ensures Search(list, n) == Search(list, m) && Trail(list, n) == Trail(list, m)
    decreases n
  {
    if m < n {
      SearchStays(list, m, n - 1);
    }
  }

  lemma {:induction false} SamePlaceSameSearch(list: seq<Card32>, k: nat, m: nat, n: nat)
    requires Search(list, k) == Search(list, m)
    ensures Search(list, k + n) == Search(list, m + n)
  {
    if n > 0 {
      SamePlaceSameSearch(list, k, m, n - 1);
    }
  }

  /** A search that comes back to a header never ends. */
  lemma {:induction false} LoopGoesOn(list: seq<Card32>, k: nat, m: nat, n: nat)
    requires k < m && Search(list, k) == Search(list, m) && Search(list, m).At?
    ensures Search(list, n).At?
    decreases n
  {
    if n <= m {
      if !Search(list, n).At? {
        SearchStays(list, n, m);
      }
    } else {
      SamePlaceSameSearch(list, k, m, n - m);
      LoopGoesOn(list, k, m, k + (n - m));
    }
  }

  /** More numbers below `n` than `n`: two of them are equal. */
  lemma {:induction false} Pigeonhole(p: seq<nat>, n: nat) returns (i: nat, j: nat)
    requires |p| > n && forall k :: 0 <= k < |p| ==> p[k] < n
    ensures i < j < |p| && p[i] == p[j]
    decreases n
  {
    var a := |p| - 1;
    if k :| 0 <= k < a && p[k] == p[a] {
      i, j := k, a;
    } else {
      // Put the number n - 1, wherever it is, in place of the last one.
      var q := seq(a, k requires 0 <= k < a => if p[k] == n - 1 then p[a] else p[k]);
      i, j := Pigeonhole(q, n - 1);
    }
  }

  function PlacesOf(list: seq<Card32>, n: nat): (p: seq<nat>)
    requires Search(list, n).At?
    ensures |p| == n + 1 && forall k :: 0 <= k <= n ==> Search(list, k) == At(p[k])
    ensures forall k :: 0 <= k <= n ==> p[k] + 1 < |list|
  {
    if n == 0 then [0]
    else PlacesOf(list, n - 1) + [Search(list, n).i]
  }

  /** Either the search is over after as many iterations as the list is long, behind
      the list or before it; or it has come back to a header and never ends. */
  lemma SearchOutcome(list: seq<Card32>) returns (k: nat, m: nat)
    ensures Search(list, |list|).At? ==> k < m <= |list| && Search(list, k) == Search(list, m)
    ensures Search(list, |list|).At? ==> forall n: nat :: Search(list, n).At?
    ensures !Search(list, |list|).At? ==> forall n: nat :: n >= |list| ==> Search(list, n) == Search(list, |list|)
  {
    if Search(list, |list|).At? {
      k, m := Pigeonhole(PlacesOf(list, |list|), |list|);
      forall n: nat
        ensures Search(list, n).At?
      {
        LoopGoesOn(list, k, m, n);
      }
    } else {
      k, m := 0, 0;
      forall n: nat | n >= |list|
        ensures Search(list, n) == Search(list, |list|)
      {
        SearchStays(list, |list|, n);
      }
    }
  }

  /** The search is over behind the list in time. */
  predicate Ends(list: seq<Card32>) { Search(list, |list|) == Done }

  /** All headers that it looks at until then. */
  function Looked(list: seq<Card32>): (v: seq<nat>)
    ensures forall k :: 0 <= k < |v| ==> v[k] + 1 < |list|
  {
    Trail(list, |list|)
  }

  /** The search ends behind the list exactly if it does so within as many
      iterations as the list is long. */
  lemma EndsIff(list: seq<Card32>)
    ensures (exists m: nat :: Search(list, m) == Done) <==> Ends(list)
  {
    var k, m := SearchOutcome(list);
    if n: nat :| Search(list, n) == Done {
      if n < |list| {
        SearchStays(list, n, |list|);
      }
    }
  }

  /** On a list without wrapping sums the search ends, and looks at each header
      once on its way forward. */
  lemma {:induction false} SearchEnds(list: seq<Card32>, n: nat, i: nat)
    requires |list| < TWO31 && Search(list, n) == PlaceAt(list, i) && NoWrapFrom(list, i) && n <= i && n <= |list|
    ensures Ends(list) && Looked(list) == Trail(list, n) + Visited(list, i)
    decreases |list| - i
  {
    hide *;
    if i + 1 < |list| {
      var j := SearchStep(list, n, i);
      SearchEnds(list, n + 1, j);
      Joined(Trail(list, n), i, Visited(list, j));
    } else {
      NothingLeft(list, i);
      SearchIsOver(list, n);
    }
  }

  lemma SearchIsOver(list: seq<Card32>, n: nat)
    requires Search(list, n) == Done && n <= |list|
    ensures Ends(list) && Looked(list) == Trail(list, n) == Trail(list, n) + []
  {
    SearchStays(list, n, |list|);
    hide Search, Trail;
  }

  lemma NothingLeft(list: seq<Card32>, i: nat)
    requires i + 1 >= |list|
    ensures PlaceAt(list, i) == Done && Visited(list, i) == []
  {
  }

  lemma SearchStep(list: seq<Card32>, n: nat, i: nat) returns (j: nat)
    requires i + 1 < |list| < TWO31 && Search(list, n) == PlaceAt(list, i) && NoWrapFrom(list, i)
    ensures i < j
    ensures Visited(list, i) == [i] + Visited(list, j) && NoWrapFrom(list, j)
    ensures Search(list, n + 1) == PlaceAt(list, j) && Trail(list, n + 1) == Trail(list, n) + [i]
  {
    j := NoWrapNext(list, i);
    assert Search(list, n).i == i;
    hide Area, Steady, Next, Visited;
  }

  lemma NoWrapNext(list: seq<Card32>, i: nat) returns (j: nat)
    requires i + 1 < |list| < TWO31 && NoWrapFrom(list, i)
    ensures i < j == (if Area(list, i) > 0 then i + 2 + Area(list, i) else |list|) == Next(list, i)
    ensures Steady(list, i) && Visited(list, i) == [i] + Visited(list, j) && NoWrapFrom(list, j)
  {
    j := if Area(list, i) > 0 then i + 2 + Area(list, i) else |list|;
    assert Visited(list, i)[0] == i;
    VisitedForward(list, i, j);
    hide Area, Steady, Next;
    forall k | 0 <= k < |Visited(list, j)|
      ensures Steady(list, Visited(list, j)[k])
    {
      assert Visited(list, j)[k] == Visited(list, i)[k + 1];
    }
  }

  lemma VisitedForward(list: seq<Card32>, i: nat, j: nat)
    requires i + 1 < |list| < TWO31 && Steady(list, i)
    requires j == if Area(list, i) > 0 then i + 2 + Area(list, i) else |list|
    ensures Next(list, i) == j && j > i && Visited(list, i) == [i] + Visited(list, j)
  {
    if Area(list, i) > 0 {
      ForwardIff(list, i);
    }
    hide Area;
  }

  lemma Joined(s: seq<nat>, i: nat, t: seq<nat>)
    ensures (s + [i]) + t == s + ([i] + t)
  {
  }

  lemma NoWrapEnds(list: seq<Card32>)
    requires |list| < TWO31 && NoWrap(list)
    ensures Ends(list) && Looked(list) == Visited(list, 0)
  {
    assert Search(list, 0) == PlaceAt(list, 0) && Trail(list, 0) + Visited(list, 0) == Visited(list, 0);
    hide Search, Trail, Visited, Ends, Looked, Steady;
    SearchEnds(list, 0, 0);
  }

  /** A header whose product is 2^32 - 2 leads the search back to itself, and it
      never ends. */
  lemma {:induction false} WrapNeverEnds(n: nat)
    ensures Search([2, 0x7fff_ffff], n) == At(0)
  {
    var list: seq<Card32> := [2, 0x7fff_ffff];
    if n > 0 {
      WrapNeverEnds(n - 1);
      assert Area(list, 0) == TWO32 - 2;
    }
  }

  /** One whose product is 2^32 - 1 leads it one place on, and it ends. */
  lemma WrapCanEnd()
    ensures var list: seq<Card32> := [0xffff_ffff, 1, 0];
            && !NoWrap(list) && Ends(list)
            && Fits(list, 0) && !LiesIn(list, 0)
  {
    var list: seq<Card32> := [0xffff_ffff, 1, 0];
    assert Visited(list, 0)[0] == 0 && !Steady(list, 0);
    assert Area(list, 0) == TWO32 - 1;
    assert Search(list, 1) == At(1) && Area(list, 1) == 0;
    assert Search(list, 2) == Done;
  }

  /** One whose product is larger leads it before the list. */
  lemma WrapCanLeave()
    ensures var list: seq<Card32> := [0x8000_0000, 1];
            Search(list, |list|) == Outside
  {
    var list: seq<Card32> := [0x8000_0000, 1];
    assert Area(list, 0) == TWO31;
    assert Search(list, 1) == Outside;
  }

  // ----- a record in the list

  /** The product without wrapping. */
  function FullArea(list: seq<Card32>, i: nat): (p: int)
    requires i + 1 < |list|
    ensures p >= 0 && Area(list, i) == p % TWO32
  {
    var w: int, h: int := list[i], list[i + 1];
    PositiveProduct(w, h);
    w * h
  }

  lemma PositiveProduct(w: int, h: int)
    requires w >= 0 && h >= 0
    ensures w * h >= 0
  {
  }

  /** The pixels of the record lie in the list. */
  predicate LiesIn(list: seq<Card32>, i: nat)
    requires i + 1 < |list|
  {
    i + 2 + FullArea(list, i) <= |list|
  }

  /** A record that passes the test of the code lies in the list exactly if the sum
      does not wrap; one that lies in the list always passes. */
  lemma LiesInIff(list: seq<Card32>, i: nat)
    requires i + 1 < |list| < TWO31
    ensures LiesIn(list, i) <==> Fits(list, i) && i + 1 + FullArea(list, i) < TWO32
    ensures LiesIn(list, i) ==> Area(list, i) == FullArea(list, i)
  {
    hide Area;
    var p := FullArea(list, i);
    if p < TWO32 {
      SmallRemainder(p);
    }
    hide FullArea;
  }

  lemma SmallRemainder(p: int)
    requires 0 <= p < TWO32
    ensures p % TWO32 == p
  {
  }

  /** A wrapped product is enough for a list in which no sum wraps: 0x10000 times
      0x10001 pixels pass for 0x10000 of them. */
  lemma FitsWithoutLyingIn(list: seq<Card32>)
    requires |list| == 0x1_0002 && list[0] == 0x1_0000 && list[1] == 0x1_0001
    ensures NoWrap(list) && Visited(list, 0) == [0] && Fits(list, 0) && !LiesIn(list, 0)
  {
    assert Area(list, 0) == 0x1_0000;
    assert Visited(list, 0) == [0] + Visited(list, 0x1_0002);
  }

  // ----- records

  datatype Rec = Rec(w: nat, h: nat, pixels: seq<Card32>)
  {
    predicate Ok() { 0 < w && 0 < h && |pixels| == w * h }

    predicate HasSize(kw: nat, kh: nat) { w == kw && h == kh }
  }

  /** The sizes fit an int, and the pixels fill the size. */
  predicate Sized(r: Rec) { r.Ok() && r.w < TWO31 && r.h < TWO31 }

  predicate RecsOk(rs: seq<Rec>) { forall k :: 0 <= k < |rs| ==> Sized(rs[k]) }

  function Image(r: Rec): seq<Card32>
    requires r.w < TWO32 && r.h < TWO32
  {
    [r.w, r.h] + r.pixels
  }

  function Flatten(rs: seq<Rec>): seq<Card32>
    requires RecsOk(rs)
  {
    if rs == [] then [] else Image(rs[0]) + Flatten(rs[1..])
  }

  /** The offsets of the records, when the first is at `at`. */
  function Offsets(rs: seq<Rec>, at: nat): seq<nat> {
    if rs == [] then [] else [at] + Offsets(rs[1..], at + 2 + rs[0].w * rs[0].h)
  }

  lemma FirstRecord(front: seq<Card32>, rs: seq<Rec>)
    requires rs != [] && RecsOk(rs)
    ensures var list, i, n := front + Flatten(rs), |front|, 2 + rs[0].w * rs[0].h;
            && n > 2 && i + n <= |list| && list[i] == rs[0].w && list[i + 1] == rs[0].h
            && list[i..i + n] == Image(rs[0]) && |front + Image(rs[0])| == i + n
            && list == (front + Image(rs[0])) + Flatten(rs[1..])
  {
    var r := rs[0];
    assert Sized(r);
    PositiveArea(r.w, r.h);
    Splice(front, Image(r), Flatten(rs[1..]));
  }

  lemma Splice(front: seq<Card32>, image: seq<Card32>, rest: seq<Card32>)
    requires |image| > 2
    ensures var list, i := front + (image + rest), |front|;
            && list[i] == image[0] && list[i + 1] == image[1]
            && list[i..i + |image|] == image && list == (front + image) + rest
  {
  }

  lemma PositiveArea(w: nat, h: nat)
    requires w > 0 && h > 0
    ensures w * h > 0
  {
  }

  lemma HeaderIs(list: seq<Card32>, i: nat, w: nat, h: nat)
    requires |list| < TWO31 && i + 1 < |list| && list[i] == w && list[i + 1] == h
    requires 0 < w * h && i + 2 + w * h <= |list|
    ensures Area(list, i) == w * h && Steady(list, i) && Fits(list, i)
  {
  }

  lemma HeaderOf(front: seq<Card32>, rs: seq<Rec>)
    requires rs != [] && RecsOk(rs) && |front + Flatten(rs)| < TWO31
    ensures var list, i := front + Flatten(rs), |front|;
            && i + 1 < |list| && list[i] == rs[0].w && list[i + 1] == rs[0].h
            && Area(list, i) == rs[0].w * rs[0].h > 0 && Steady(list, i) && Fits(list, i)
            && i + 2 + Area(list, i) <= |list|
            && list[i..i + 2 + Area(list, i)] == Image(rs[0]) && rs[0] in rs
            && list == (front + Image(rs[0])) + Flatten(rs[1..])
            && |front + Image(rs[0])| == i + 2 + Area(list, i)
  {
    FirstRecord(front, rs);
    HeaderIs(front + Flatten(rs), |front|, rs[0].w, rs[0].h);
  }

  lemma NoRecords(front: seq<Card32>)
    ensures Visited(front + Flatten([]), |front|) == Offsets([], |front|) == []
    ensures AllSteady(front + Flatten([]), |front|)
    ensures forall kw: nat, kh: nat ::
              Keep(front + Flatten([]), kw, kh, |front|) == None && FindSize([], kw, kh) == None
  {
  }

  lemma RecordsStep(rs: seq<Rec>, at: nat)
    requires rs != [] && RecsOk(rs)
    ensures RecsOk(rs[1..]) && rs[0].w < TWO32 && rs[0].h < TWO32
    ensures Offsets(rs, at) == [at] + Offsets(rs[1..], at + 2 + rs[0].w * rs[0].h)
  {
  }

  /** On a well-formed list the search looks at exactly the record boundaries. */
  lemma {:induction false} VisitsBoundaries(front: seq<Card32>, rs: seq<Rec>)
    requires RecsOk(rs) && |front + Flatten(rs)| < TWO31
    ensures Visited(front + Flatten(rs), |front|) == Offsets(rs, |front|)
    ensures AllSteady(front + Flatten(rs), |front|)
    decreases |rs|
  {
    hide *;
    if rs == [] {
      NoRecords(front);
    } else {
      HeaderOf(front, rs);
      RecordsStep(rs, |front|);
      var list, i := front + Flatten(rs), |front|;
      VisitsBoundaries(front + Image(rs[0]), rs[1..]);
      VisitedStep(list, i);
      SteadyFrom(list, i);
    }
  }

  /** The headers from `i` on are steady and their records lie in the list. */
  ghost predicate AllSteady(list: seq<Card32>, i: nat) {
    forall k :: 0 <= k < |Visited(list, i)| ==> Steady(list, Visited(list, i)[k]) && Fits(list, Visited(list, i)[k])
  }

  lemma SteadyFrom(list: seq<Card32>, i: nat)
    requires i + 1 < |list| && Steady(list, i) && Fits(list, i) && Area(list, i) > 0
    requires AllSteady(list, i + 2 + Area(list, i))
    ensures AllSteady(list, i)
  {
    var rest := Visited(list, i + 2 + Area(list, i));
    hide Area, Steady, Fits, Visited;
    assert Visited(list, i) == [i] + rest by {
      VisitedStep(list, i);
    }
    forall k | 0 <= k < |Visited(list, i)|
      ensures Steady(list, Visited(list, i)[k]) && Fits(list, Visited(list, i)[k])
    {
      if k > 0 {
        assert Visited(list, i)[k] == rest[k - 1];
      }
    }
  }

  lemma VisitedStep(list: seq<Card32>, i: nat)
    requires i + 1 < |list| && Steady(list, i) && Area(list, i) > 0
    ensures Visited(list, i) == [i] + Visited(list, i + 2 + Area(list, i))
  {
  }

  lemma WellFormedNoWrap(rs: seq<Rec>)
    requires RecsOk(rs) && |Flatten(rs)| < TWO31
    ensures NoWrap(Flatten(rs)) && Visited(Flatten(rs), 0) == Offsets(rs, 0)
  {
    VisitsBoundaries([], rs);
    assert [] + Flatten(rs) == Flatten(rs);
  }

  // ----- the record to keep

  /** Offset and length of the first record of a given size, from `i` on. */
  function Keep(list: seq<Card32>, kw: nat, kh: nat, i: nat): Option<(nat, int)>
    decreases |list| - i
  {
    if i + 1 >= |list| then None
    else if !Steady(list, i) then None
    else if Fits(list, i) && list[i] == kw && list[i + 1] == kh then Some((i, 2 + Area(list, i)))
    else if Area(list, i) == 0 then None
    else Keep(list, kw, kh, i + 2 + Area(list, i))
  }

  /** The record that the loop keeps: the first header among those looked at that
      passes the test and has the size; the length is stored in an int. */
  function KeepIn(list: seq<Card32>, v: seq<nat>, kw: nat, kh: nat): Option<(nat, int)>
    requires forall k :: 0 <= k < |v| ==> v[k] + 1 < |list|
  {
    if v == [] then None
    else if IsKept(list, v[0], kw, kh) then Some((v[0], ToInt((2 + Area(list, v[0])) % TWO32)))
    else KeepIn(list, v[1..], kw, kh)
  }

  predicate IsKept(list: seq<Card32>, i: nat, kw: nat, kh: nat)
    requires i + 1 < |list|
  {
    Fits(list, i) && list[i] == kw && list[i + 1] == kh
  }

  /** Where no sum wraps, the loop keeps the first record from the front. */
  lemma {:induction false} KeepsFirst(list: seq<Card32>, kw: nat, kh: nat, i: nat)
    requires |list| < TWO31 && NoWrapFrom(list, i)
    ensures KeepIn(list, Visited(list, i), kw, kh) == Keep(list, kw, kh, i)
    decreases |list| - i
  {
    hide IsKept;
    if i + 1 >= |list| {
      NothingLeft(list, i);
    } else {
      var j := NoWrapNext(list, i);
      KeepsOrGoesOn(list, kw, kh, i, j);
      hide *;
      KeepsFirst(list, kw, kh, j);
      KeepInStep(list, i, Visited(list, j), kw, kh);
    }
  }

  lemma KeepsOrGoesOn(list: seq<Card32>, kw: nat, kh: nat, i: nat, j: nat)
    requires i + 1 < |list| < TWO31 && Steady(list, i)
    requires j == if Area(list, i) > 0 then i + 2 + Area(list, i) else |list|
    ensures Keep(list, kw, kh, i) ==
            if IsKept(list, i, kw, kh) then Some((i, ToInt((2 + Area(list, i)) % TWO32))) else Keep(list, kw, kh, j)
  {
    hide Area;
  }

  lemma KeepInStep(list: seq<Card32>, i: nat, v: seq<nat>, kw: nat, kh: nat)
    requires i + 1 < |list| && forall k :: 0 <= k < |v| ==> v[k] + 1 < |list|
    ensures KeepIn(list, [i] + v, kw, kh) ==
            if IsKept(list, i, kw, kh) then Some((i, ToInt((2 + Area(list, i)) % TWO32))) else KeepIn(list, v, kw, kh)
  {
    assert ([i] + v)[1..] == v;
  }

  function FindSize(rs: seq<Rec>, kw: nat, kh: nat): Option<Rec> {
    if rs == [] then None else if rs[0].HasSize(kw, kh) then Some(rs[0]) else FindSize(rs[1..], kw, kh)
  }

  /** That is the first record with this width and height. */
  lemma {:induction false} FindSizeIs(rs: seq<Rec>, kw: nat, kh: nat, k: nat)
    requires k <= |rs| && forall j | 0 <= j < k :: rs[j].w != kw || rs[j].h != kh
    requires k < |rs| ==> rs[k].w == kw && rs[k].h == kh
    ensures FindSize(rs, kw, kh) == if k == |rs| then None else Some(rs[k])
  {
    if k > 0 {
      FindSizeIs(rs[1..], kw, kh, k - 1);
    }
  }

  /** The search keeps the first record of the wanted size, whole. */
  lemma {:induction false} KeepsRecord(front: seq<Card32>, rs: seq<Rec>, kw: nat, kh: nat)
    requires RecsOk(rs) && |front + Flatten(rs)| < TWO31
    ensures var list := front + Flatten(rs);
            match Keep(list, kw, kh, |front|)
            case None => FindSize(rs, kw, kh) == None
            case Some((start, length)) =>
              && start + length <= |list| && length > 0
              && FindSize(rs, kw, kh).Some? && FindSize(rs, kw, kh).value in rs
              && list[start..start + length] == Image(FindSize(rs, kw, kh).value)
    decreases |rs|
  {
    hide *;
    if rs == [] {
      NoRecords(front);
    } else {
      HeaderOf(front, rs);
      RecordsStep(rs, |front|);
      KeepStep(front + Flatten(rs), |front|, rs, kw, kh);
      KeepsRecord(front + Image(rs[0]), rs[1..], kw, kh);
    }
  }

  lemma KeepStep(list: seq<Card32>, i: nat, rs: seq<Rec>, kw: nat, kh: nat)
    requires rs != [] && i + 1 < |list| && list[i] == rs[0].w && list[i + 1] == rs[0].h
    requires Area(list, i) > 0 && Steady(list, i) && Fits(list, i)
    ensures Keep(list, kw, kh, i) ==
            if rs[0].HasSize(kw, kh) then Some((i, 2 + Area(list, i))) else Keep(list, kw, kh, i + 2 + Area(list, i))
    ensures FindSize(rs, kw, kh) == if rs[0].HasSize(kw, kh) then Some(rs[0]) else FindSize(rs[1..], kw, kh)
  {
  }

  // ----- the nearest size

  /** The squared distance as computed in CARD32 arithmetic. */
  function Distance32(w: Card32, h: Card32, ww: int, wh: int): Card32 {
    (((w - ww) % TWO32) * ((w - ww) % TWO32) % TWO32 + ((h - wh) % TWO32) * ((h - wh) % TWO32) % TWO32) % TWO32
  }

  /** The squared distance. */
  function Distance(w: int, h: int, ww: int, wh: int): (d: int)
    ensures d >= 0
  {
    SquareNonNegative(w - ww);
    SquareNonNegative(h - wh);
    (w - ww) * (w - ww) + (h - wh) * (h - wh)
  }

  lemma SquareWraps(a: int)
    ensures (a % TWO32) * (a % TWO32) % TWO32 == (a * a) % TWO32
  {
    var q, r := a / TWO32, a % TWO32;
    assert a == q * TWO32 + r;
    SquareOfSum(q * TWO32, r);
    assert a * a == r * r + (q * q * TWO32 + 2 * (q * r)) * TWO32;
    AddMultiple(r * r, q * q * TWO32 + 2 * (q * r));
  }

  lemma SquareOfSum(x: int, y: int)
    ensures (x + y) * (x + y) == x * x + 2 * (x * y) + y * y
  {
  }

  lemma AddMultiple(x: int, k: int)
    ensures (x + k * TWO32) % TWO32 == x % TWO32
  {
    var q, r := x / TWO32, x % TWO32;
    assert x + k * TWO32 == (q + k) * TWO32 + r;
  }

  lemma SumWraps(x: int, y: int)
    ensures (x % TWO32 + y % TWO32) % TWO32 == (x + y) % TWO32
  {
    AddMultiple(x % TWO32 + y % TWO32, x / TWO32 + y / TWO32);
    assert x + y == x % TWO32 + y % TWO32 + (x / TWO32 + y / TWO32) * TWO32;
  }

  /** The code computes the squared distance modulo 2^32, and so gets it right
      exactly if it is below 2^32. */
  lemma DistanceWraps(w: Card32, h: Card32, ww: int, wh: int)
    ensures Distance32(w, h, ww, wh) == ((w - ww) * (w - ww) + (h - wh) * (h - wh)) % TWO32
    ensures Distance32(w, h, ww, wh) == Distance(w, h, ww, wh) % TWO32
    ensures Distance32(w, h, ww, wh) == Distance(w, h, ww, wh) <==> Distance(w, h, ww, wh) < TWO32
  {
    var a, b := w - ww, h - wh;
    var x, y := a * a, b * b;
    SquareWraps(a);
    SquareWraps(b);
    assert Distance32(w, h, ww, wh) == (x % TWO32 + y % TWO32) % TWO32;
    assert Distance(w, h, ww, wh) == x + y == (w - ww) * (w - ww) + (h - wh) * (h - wh);
    hide *;
    SumWraps(x, y);
    RemainderIsSelf(Distance(w, h, ww, wh));
  }

  lemma RemainderIsSelf(d: int)
    requires d >= 0
    ensures d % TWO32 == d <==> d < TWO32
  {
  }

  lemma SquareNonNegative(a: int)
    ensures a * a >= 0
  {
  }

  /** All sizes up to a bound have exact distances from each other exactly if the
      bound is at most 46340. */
  lemma BoundedSizesAreExact(bound: nat)
    ensures (forall w, h, ww, wh :: 0 <= w <= bound && 0 <= h <= bound && 0 <= ww <= bound && 0 <= wh <= bound ==>
               Distance(w, h, ww, wh) < TWO32) <==> bound <= 46340
  {
    if bound <= 46340 {
      forall w, h, ww, wh | 0 <= w <= bound && 0 <= h <= bound && 0 <= ww <= bound && 0 <= wh <= bound
        ensures Distance(w, h, ww, wh) < TWO32
      {
        SquareBelow(w - ww, 46340);
        SquareBelow(h - wh, 46340);
      }
    } else {
      assert Distance(46341, 46341, 0, 0) >= TWO32;
    }
  }

  lemma SquareBelow(a: int, b: int)
    requires -b <= a <= b
    ensures a * a <= b * b
  {
  }

  function DistanceAt(list: seq<Card32>, i: nat, ww: int, wh: int): Card32
    requires i + 1 < |list|
  {
    Distance32(list[i], list[i + 1], ww, wh)
  }

  /** The first header, among those looked at whose record lies in the list, that
      is nearest to the wanted size; `v` holds the headers so far. */
  ghost predicate Best(list: seq<Card32>, v: seq<nat>, ww: int, wh: int, best: Option<nat>)
    requires forall k :: 0 <= k < |v| ==> v[k] + 1 < |list|
  {
    match best
    case None => forall k :: 0 <= k < |v| ==> !Fits(list, v[k])
    case Some(i) =>
      exists k :: 0 <= k < |v| && v[k] == i && Fits(list, i) &&
        (forall j :: 0 <= j < |v| && Fits(list, v[j]) ==>
           DistanceAt(list, i, ww, wh) <= DistanceAt(list, v[j], ww, wh)) &&
        (forall j :: 0 <= j < k && Fits(list, v[j]) ==>
           DistanceAt(list, i, ww, wh) < DistanceAt(list, v[j], ww, wh))
  }
}
