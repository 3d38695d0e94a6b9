/** Merging the pending ConfigureRequests of a window (fvwm/events.c). */
module MergeSpec {

  datatype Bit = CWX | CWY | CWWidth | CWHeight | CWBorderWidth | CWSibling | CWStackMode

  /** CR_MOVERESIZE_MASK */
  const MOVERESIZE: set<Bit> := {CWX, CWY, CWWidth, CWHeight, CWBorderWidth}

  datatype Kind = ConfigureRequest | PropertyNotify | OtherEvent | Invalid

  datatype Event = Event(
    kind: Kind, window: nat, atom: nat, mask: set<Bit>,
    x: int, y: int, width: int, height: int, borderWidth: int, above: nat, detail: nat)
  {
    function Field(b: Bit): int {
      match b
      case CWX => x
      case CWY => y
      case CWWidth => width
      case CWHeight => height
      case CWBorderWidth => borderWidth
      case CWSibling => above
      case CWStackMode => detail
    }
  }

  const XA_WM_NORMAL_HINTS: nat := 40

  predicate Requests(e: Event, w: nat) { e.kind == ConfigureRequest && e.window == w }

  /** A property change of the window ends the search, except for its normal
      hints. */
  predicate Stops(e: Event, w: nat) {
    e.kind == PropertyNotify && e.window == w && e.atom != XA_WM_NORMAL_HINTS
  }

  /** Where the search ends: event 0 is the one in hand, the rest is queued. */
  function StopIndex(evs: seq<Event>, w: nat, i: nat): (n: nat)
    requires i <= |evs|
    ensures i <= n <= |evs| && (forall k :: i <= k < n ==> !Stops(evs[k], w))
    ensures n < |evs| ==> Stops(evs[n], w)
    decreases |evs| - i
  {
    if i == |evs| || Stops(evs[i], w) then i else StopIndex(evs, w, i + 1)
  }

  /** The requests of the chain among the first `n` events. */
  predicate InChain(evs: seq<Event>, w: nat, n: nat, i: nat) {
    i < n && i < |evs| && Requests(evs[i], w)
  }

  ghost predicate IsLast(evs: seq<Event>, w: nat, n: nat, last: nat) {
    InChain(evs, w, n, last) && forall i: nat :: InChain(evs, w, n, i) ==> i <= last
  }

  /** The earliest request of the chain that sets a bit. */
  ghost predicate IsFirstWith(evs: seq<Event>, w: nat, n: nat, i: nat, b: Bit) {
    && InChain(evs, w, n, i) && b in evs[i].mask
    && forall k: nat :: k < i && InChain(evs, w, n, k) ==> b !in evs[k].mask
  }

  /** What merging the first `n` events leaves: events outside the chain are
      untouched; each request but the last keeps only its other bits, and is
      invalid exactly if there are none; the last has all move and resize bits,
      each with the value of the earliest request that set it. */
  ghost predicate Merged(before: seq<Event>, after: seq<Event>, w: nat, n: nat, last: nat) {
    && |after| == |before| && IsLast(before, w, n, last)
    && (forall i :: 0 <= i < |before| && !InChain(before, w, n, i) ==> after[i] == before[i])
    && (forall i: nat :: InChain(before, w, n, i) ==> Kept(before[i], after[i], i == last))
    && (forall b :: b in MOVERESIZE ==>
          (b in after[last].mask <==> exists i: nat :: InChain(before, w, n, i) && b in before[i].mask))
    && (forall b, i: nat :: b in MOVERESIZE && IsFirstWith(before, w, n, i, b) ==>
          after[last].Field(b) == before[i].Field(b))
  }

  ghost predicate Kept(e: Event, f: Event, isLast: bool) {
    && f.window == e.window && f.above == e.above && f.detail == e.detail
    && f.mask - MOVERESIZE == e.mask - MOVERESIZE
    && (!isLast ==> f.mask * MOVERESIZE == {})
    && f.kind == if !isLast && f.mask == {} then Invalid else ConfigureRequest
  }

  // ----- one step

  function Absorb(e: Event, l: Event): Event {
    e.(x := if CWX in l.mask then l.x else e.x,
       y := if CWY in l.mask then l.y else e.y,
       width := if CWWidth in l.mask then l.width else e.width,
       height := if CWHeight in l.mask then l.height else e.height,
       borderWidth := if CWBorderWidth in l.mask then l.borderWidth else e.borderWidth,
       mask := e.mask + l.mask * MOVERESIZE)
  }

  function Strip(l: Event): Event {
    var mask := l.mask - MOVERESIZE;
    l.(mask := mask, kind := if mask == {} then Invalid else l.kind)
  }

  lemma NothingToMerge(before: seq<Event>, w: nat)
    requires |before| > 0 && before[0].kind == ConfigureRequest && before[0].window == w
    ensures Merged(before, before, w, 1, 0) && !Stops(before[0], w)
  {
  }

  lemma OutsideChain(before: seq<Event>, after: seq<Event>, w: nat, n: nat, last: nat)
    requires Merged(before, after, w, n, last) && n < |before| && !Requests(before[n], w)
    ensures Merged(before, after, w, n + 1, last)
  {
    assert forall i: nat :: InChain(before, w, n + 1, i) <==> InChain(before, w, n, i);
    forall b, i: nat | b in MOVERESIZE && IsFirstWith(before, w, n + 1, i, b)
      ensures after[last].Field(b) == before[i].Field(b)
    {
      assert IsFirstWith(before, w, n, i, b);
    }
  }

  lemma NextInChain(before: seq<Event>, after: seq<Event>, w: nat, n: nat, last: nat)
    requires Merged(before, after, w, n, last) && n < |before| && Requests(before[n], w)
    ensures Merged(before, after[n := Absorb(after[n], after[last])][last := Strip(after[last])], w, n + 1, n)
  {
    var l, e := after[last], before[n];
    var out := after[n := Absorb(e, l)][last := Strip(l)];
    assert !InChain(before, w, n, n) && after[n] == e;
    assert forall i: nat :: InChain(before, w, n + 1, i) <==> InChain(before, w, n, i) || i == n;
    forall b | b in MOVERESIZE
      ensures b in out[n].mask <==> exists i: nat :: InChain(before, w, n + 1, i) && b in before[i].mask
    {
      assert InChain(before, w, n + 1, n);
      if i: nat :| InChain(before, w, n, i) && b in before[i].mask {
        assert b in l.mask && InChain(before, w, n + 1, i);
      }
    }
    forall b, i: nat | b in MOVERESIZE && IsFirstWith(before, w, n + 1, i, b)
      ensures out[n].Field(b) == before[i].Field(b)
    {
      if i == n {
        assert b !in l.mask;
      } else {
        assert IsFirstWith(before, w, n, i, b);
      }
    }
    assert Kept(before[last], l, true);
    assert Kept(before[last], out[last], false);
    assert Kept(e, out[n], true);
  }

  // ----- what that means

  lemma {:induction false} SomeFirst(evs: seq<Event>, w: nat, n: nat, i: nat, b: Bit) returns (k: nat)
    requires InChain(evs, w, n, i) && b in evs[i].mask
    ensures IsFirstWith(evs, w, n, k, b)
  {
    if j: nat :| j < i && InChain(evs, w, n, j) && b in evs[j].mask {
      k := SomeFirst(evs, w, n, j, b);
    } else {
      k := i;
    }
  }

  /** The move and resize bits that any request of the chain has. */
  ghost function Wanted(evs: seq<Event>, chain: seq<Event>, w: nat, n: nat): set<Bit>
    requires |chain| == |evs|
  {
    set b | b in MOVERESIZE && exists i: nat :: InChain(evs, w, n, i) && b in chain[i].mask
  }

  /** Merging keeps the union of the requested changes, and they all end up in
      the last event of the chain. */
  lemma MergeConserves(before: seq<Event>, after: seq<Event>, w: nat, n: nat, last: nat)
    requires Merged(before, after, w, n, last)
    ensures Wanted(before, after, w, n) == Wanted(before, before, w, n) == after[last].mask * MOVERESIZE
  {
    forall b | b in MOVERESIZE
      ensures (exists i: nat :: InChain(before, w, n, i) && b in after[i].mask) <==> b in after[last].mask
    {
      if i: nat :| InChain(before, w, n, i) && b in after[i].mask {
        if i != last {
          assert Kept(before[i], after[i], false);
          assert b in after[i].mask * MOVERESIZE;
        }
      }
    }
  }

  /** The properties fix the outcome: any two ways to merge agree on every bit
      that is set, on its value, and on which events are invalid. */
  lemma MergeIsDetermined(before: seq<Event>, f: seq<Event>, g: seq<Event>, w: nat, n: nat, last: nat)
    requires Merged(before, f, w, n, last) && Merged(before, g, w, n, last)
    ensures forall i :: 0 <= i < |before| ==> f[i].mask == g[i].mask && f[i].kind == g[i].kind
    ensures forall b :: b in f[last].mask * MOVERESIZE ==> f[last].Field(b) == g[last].Field(b)
  {
    forall i | 0 <= i < |before|
      ensures f[i].mask == g[i].mask && f[i].kind == g[i].kind
    {
      if InChain(before, w, n, i) {
        var isLast := i == last;
        assert Kept(before[i], f[i], isLast) && Kept(before[i], g[i], isLast);
        assert f[i].mask == (f[i].mask - MOVERESIZE) + (f[i].mask * MOVERESIZE);
        assert g[i].mask == (g[i].mask - MOVERESIZE) + (g[i].mask * MOVERESIZE);
        if isLast {
          assert f[i].mask * MOVERESIZE == g[i].mask * MOVERESIZE;
        }
      }
    }
    forall b | b in f[last].mask * MOVERESIZE
      ensures f[last].Field(b) == g[last].Field(b)
    {
      var i: nat :| InChain(before, w, n, i) && b in before[i].mask;
      var k := SomeFirst(before, w, n, i, b);
    }
  }

  /** What merging up to the end of the search means, said of the fields of the events:
      only requests of the window change, and none of them behind the first change of
      another property of the window; all but the last of them lose their move and
      resize bits. */
  lemma MergedRequests(before: seq<Event>, after: seq<Event>, w: nat, last: nat)
    requires Merged(before, after, w, StopIndex(before, w, 0), last)
    ensures && |after| == |before| && last < |before|
            && before[last].kind == ConfigureRequest && before[last].window == w
    ensures forall k | 0 <= k < |before| :: (before[k].kind == ConfigureRequest && before[k].window == w) ||
              after[k] == before[k]
    ensures forall h | 0 <= h < |before| && before[h].kind == PropertyNotify && before[h].window == w
              && before[h].atom != XA_WM_NORMAL_HINTS :: h > last && after[h..] == before[h..]
    ensures forall k | last < k < |before| && before[k].kind == ConfigureRequest && before[k].window == w ::
              exists h :: last < h < k && before[h].kind == PropertyNotify && before[h].window == w &&
                          before[h].atom != XA_WM_NORMAL_HINTS
    ensures forall k | 0 <= k < last && before[k].kind == ConfigureRequest && before[k].window == w ::
              && after[k].mask == before[k].mask - {CWX, CWY, CWWidth, CWHeight, CWBorderWidth}
              && after[k].kind == (if after[k].mask == {} then Invalid else ConfigureRequest)
              && after[k].window == w && after[k].above == before[k].above && after[k].detail == before[k].detail
  {
    var n := StopIndex(before, w, 0);
    assert InChain(before, w, n, last);
    forall h | 0 <= h < |before| && before[h].kind == PropertyNotify && before[h].window == w
               && before[h].atom != XA_WM_NORMAL_HINTS
      ensures h > last && after[h..] == before[h..]
    {
      assert Stops(before[h], w);
      assert forall k :: h <= k < |before| ==> !InChain(before, w, n, k);
    }
    forall k | last < k < |before| && before[k].kind == ConfigureRequest && before[k].window == w
      ensures exists h :: last < h < k && before[h].kind == PropertyNotify && before[h].window == w &&
                          before[h].atom != XA_WM_NORMAL_HINTS
    {
      assert !InChain(before, w, n, k);
      assert Stops(before[n], w);
    }
    forall k | 0 <= k < last && before[k].kind == ConfigureRequest && before[k].window == w
      ensures && after[k].mask == before[k].mask - {CWX, CWY, CWWidth, CWHeight, CWBorderWidth}
              && after[k].kind == (if after[k].mask == {} then Invalid else ConfigureRequest)
              && after[k].window == w && after[k].above == before[k].above && after[k].detail == before[k].detail
    {
      assert InChain(before, w, n, k) && Kept(before[k], after[k], false);
      assert after[k].mask == (after[k].mask - MOVERESIZE) + (after[k].mask * MOVERESIZE);
    }
  }

  /** Event `k` is the first request of the window for a change of `b`. */
  ghost predicate AsksFirst(evs: seq<Event>, w: nat, k: nat, b: Bit)
    requires k < |evs|
  {
    && evs[k].kind == ConfigureRequest && evs[k].window == w && b in evs[k].mask
    && forall j | 0 <= j < k :: evs[j].kind != ConfigureRequest || evs[j].window != w || b !in evs[j].mask
  }

  /** The last request has the bits that any of them had, and keeps what it says of the
      stacking order. */
  lemma MergedBits(before: seq<Event>, after: seq<Event>, w: nat, last: nat)
    requires Merged(before, after, w, StopIndex(before, w, 0), last)
    ensures && |after| == |before| && last < |before| && after[last].kind == ConfigureRequest
            && after[last].window == w && after[last].above == before[last].above
            && after[last].detail == before[last].detail
            && (CWSibling in after[last].mask <==> CWSibling in before[last].mask)
            && (CWStackMode in after[last].mask <==> CWStackMode in before[last].mask)
    ensures forall b | b != CWSibling && b != CWStackMode :: b in after[last].mask <==>
              exists k: nat :: k <= last && AsksFirst(before, w, k, b)
  {
    var n := StopIndex(before, w, 0);
    assert InChain(before, w, n, last) && Kept(before[last], after[last], true);
    assert CWSibling in after[last].mask <==> CWSibling in after[last].mask - MOVERESIZE;
    assert CWStackMode in after[last].mask <==> CWStackMode in after[last].mask - MOVERESIZE;
    forall b | b != CWSibling && b != CWStackMode
      ensures b in after[last].mask <==> exists k: nat :: k <= last && AsksFirst(before, w, k, b)
    {
      assert b in MOVERESIZE;
      if i: nat :| InChain(before, w, n, i) && b in before[i].mask {
        var k := SomeFirst(before, w, n, i, b);
        FirstAsks(before, w, last, k, b);
      }
      if k: nat :| k <= last && AsksFirst(before, w, k, b) {
        assert InChain(before, w, n, k);
      }
    }
  }

  lemma FirstAsks(before: seq<Event>, w: nat, last: nat, k: nat, b: Bit)
    requires var n := StopIndex(before, w, 0); n > last && k <= last && last < |before|
    ensures IsFirstWith(before, w, StopIndex(before, w, 0), k, b) <==> AsksFirst(before, w, k, b)
  {
    var n := StopIndex(before, w, 0);
    assert forall j: nat :: j <= k ==>
      (InChain(before, w, n, j) <==> before[j].kind == ConfigureRequest && before[j].window == w);
  }

  /** Each of these has the value that was asked for first. */
  lemma MergedValues(before: seq<Event>, after: seq<Event>, w: nat, last: nat, k: nat, b: Bit)
    requires Merged(before, after, w, StopIndex(before, w, 0), last)
    requires k <= last < |before| == |after| && AsksFirst(before, w, k, b)
    ensures && (b == CWX ==> after[last].x == before[k].x) && (b == CWY ==> after[last].y == before[k].y)
            && (b == CWWidth ==> after[last].width == before[k].width)
            && (b == CWHeight ==> after[last].height == before[k].height)
            && (b == CWBorderWidth ==> after[last].borderWidth == before[k].borderWidth)
  {
    assert InChain(before, w, StopIndex(before, w, 0), last);
    FirstAsks(before, w, last, k, b);
    hide IsFirstWith, IsLast, Kept, InChain, StopIndex;
    assert b in MOVERESIZE ==> after[last].Field(b) == before[k].Field(b);
  }

  // ----- requests and size hints

  /** A request hands a bit to a request behind a change of the size hints exactly if
      one of the chain with a bit to hand over has such a change behind it, and a
      request of the chain behind that. */
  lemma CrossesHintsIff(before: seq<Event>, after: seq<Event>, w: nat, n: nat, last: nat)
    requires Merged(before, after, w, n, last)
    ensures (exists i: nat, h: nat, b ::
               && i < h < last && before[h].kind == PropertyNotify && before[h].window == w
               && before[h].atom == XA_WM_NORMAL_HINTS
               && b in before[i].mask && b !in after[i].mask && b in after[last].mask) <==>
            (exists i: nat, h: nat ::
               && i < h < last && before[h].kind == PropertyNotify && before[h].window == w
               && before[h].atom == XA_WM_NORMAL_HINTS && before[i].kind == ConfigureRequest && before[i].window == w
               && before[i].mask * {CWX, CWY, CWWidth, CWHeight, CWBorderWidth} != {})
  {
    assert InChain(before, w, n, last);
    if i: nat, h: nat, b :| (
      && i < h < last && before[h].kind == PropertyNotify && before[h].window == w
      && before[h].atom == XA_WM_NORMAL_HINTS
      && b in before[i].mask && b !in after[i].mask && b in after[last].mask)
    {
      GivesAway(before, after, w, n, last, i, b);
      assert b in before[i].mask * MOVERESIZE;
    }
    if i: nat, h: nat :| (
      && i < h < last && before[h].kind == PropertyNotify && before[h].window == w
      && before[h].atom == XA_WM_NORMAL_HINTS && before[i].kind == ConfigureRequest && before[i].window == w
      && before[i].mask * {CWX, CWY, CWWidth, CWHeight, CWBorderWidth} != {})
    {
      var b :| b in before[i].mask * MOVERESIZE;
      GivesAway(before, after, w, n, last, i, b);
    }
  }

  /** What is handed over to the last request are the move and resize bits of the chain. */
  lemma GivesAway(before: seq<Event>, after: seq<Event>, w: nat, n: nat, last: nat, i: nat, b: Bit)
    requires Merged(before, after, w, n, last) && i < last
    ensures b in before[i].mask && b !in after[i].mask && b in after[last].mask <==>
            before[i].kind == ConfigureRequest && before[i].window == w && b in before[i].mask * MOVERESIZE
  {
    assert InChain(before, w, n, last);
    if InChain(before, w, n, i) {
      assert Kept(before[i], after[i], false);
      KeepsOthers(before[i], after[i], b);
    }
  }

  lemma KeepsOthers(e: Event, f: Event, b: Bit)
    requires Kept(e, f, false)
    ensures b in f.mask <==> b in e.mask && b !in MOVERESIZE
  {
    assert b in f.mask * MOVERESIZE <==> b in f.mask && b in MOVERESIZE;
    assert b in f.mask - MOVERESIZE <==> b in e.mask - MOVERESIZE;
  }

  // ----- handling the requests one by one

  /** The geometry of the window after the first `n` events: each request of the
      window sets what it has bits for. */
  function Handled(evs: seq<Event>, w: nat, n: nat, b: Bit, start: int): int
    requires n <= |evs|
  {
    if n == 0 then start
    else if Requests(evs[n - 1], w) && b in evs[n - 1].mask then evs[n - 1].Field(b)
    else Handled(evs, w, n - 1, b, start)
  }

  ghost predicate IsLastWith(evs: seq<Event>, w: nat, n: nat, k: nat, b: Bit) {
    && InChain(evs, w, n, k) && b in evs[k].mask
    && forall j: nat :: k < j && InChain(evs, w, n, j) ==> b !in evs[j].mask
  }

  lemma {:induction false} HandledIsLast(evs: seq<Event>, w: nat, n: nat, k: nat, b: Bit, start: int)
    requires n <= |evs| && IsLastWith(evs, w, n, k, b)
    ensures Handled(evs, w, n, b, start) == evs[k].Field(b)
  {
    if k < n - 1 {
      assert InChain(evs, w, n, n - 1) || !Requests(evs[n - 1], w);
      forall j: nat | k < j && InChain(evs, w, n - 1, j)
        ensures b !in evs[j].mask
      {
        assert InChain(evs, w, n, j);
      }
      HandledIsLast(evs, w, n - 1, k, b, start);
    }
  }

  lemma {:induction false} NotHandled(evs: seq<Event>, w: nat, n: nat, b: Bit, start: int)
    requires n <= |evs| && forall i: nat :: InChain(evs, w, n, i) ==> b !in evs[i].mask
    ensures Handled(evs, w, n, b, start) == start
  {
    if n > 0 {
      assert InChain(evs, w, n, n - 1) || !Requests(evs[n - 1], w);
      forall i: nat | InChain(evs, w, n - 1, i)
        ensures b !in evs[i].mask
      {
        assert InChain(evs, w, n, i);
      }
      NotHandled(evs, w, n - 1, b, start);
    }
  }

  /** Merged requests give the window what the earliest request wants, while one by
      one the latest wins: both come to the same exactly if these agree. */
  lemma EarliestWinsIff(before: seq<Event>, after: seq<Event>, w: nat, n: nat, last: nat,
                        i: nat, k: nat, b: Bit, start: int)
    requires Merged(before, after, w, n, last) && n <= |before| && b in MOVERESIZE
    requires IsFirstWith(before, w, n, i, b) && IsLastWith(before, w, n, k, b)
    ensures Handled(after, w, n, b, start) == before[i].Field(b)
    ensures Handled(before, w, n, b, start) == before[k].Field(b)
    ensures Handled(after, w, n, b, start) == Handled(before, w, n, b, start) <==>
            before[i].Field(b) == before[k].Field(b)
  {
    HandledIsLast(before, w, n, k, b, start);
    assert IsLastWith(after, w, n, last, b) by {
      AfterIsLast(before, after, w, n, last, b);
    }
    HandledIsLast(after, w, n, last, b, start);
  }

  lemma AfterIsLast(before: seq<Event>, after: seq<Event>, w: nat, n: nat, last: nat, b: Bit)
    requires Merged(before, after, w, n, last) && b in MOVERESIZE
    ensures forall j: nat :: InChain(after, w, n, j) && b in after[j].mask ==> j == last
    ensures b in after[last].mask ==> IsLastWith(after, w, n, last, b)
  {
    assert Kept(before[last], after[last], true);
    forall j: nat | InChain(after, w, n, j) && b in after[j].mask
      ensures j == last
    {
      if InChain(before, w, n, j) && Kept(before[j], after[j], false) {
        KeepsOthers(before[j], after[j], b);
      }
    }
  }

  lemma {:induction false} SomeLast(evs: seq<Event>, w: nat, n: nat, i: nat, b: Bit) returns (k: nat)
    requires InChain(evs, w, n, i) && b in evs[i].mask
    ensures IsLastWith(evs, w, n, k, b)
    decreases n - i
  {
    if j: nat :| i < j && InChain(evs, w, n, j) && b in evs[j].mask {
      k := SomeLast(evs, w, n, j, b);
    } else {
      k := i;
    }
  }

  /** Some request of the chain wants something else than the first with that bit,
      and is the last one with it. */
  ghost predicate ChangesItsMind(evs: seq<Event>, w: nat, n: nat, i: nat, k: nat, b: Bit) {
    IsFirstWith(evs, w, n, i, b) && IsLastWith(evs, w, n, k, b) && evs[i].Field(b) != evs[k].Field(b)
  }

  /** The window ends up in the same geometry, wherever it was before. */
  ghost predicate SameGeometry(before: seq<Event>, after: seq<Event>, w: nat, n: nat)
    requires n <= |before| == |after|
  {
    forall b, start: int :: b in MOVERESIZE ==> Handled(after, w, n, b, start) == Handled(before, w, n, b, start)
  }

  /** No bit has different values in its first and its last request. */
  ghost predicate KeepsItsMind(evs: seq<Event>, w: nat, n: nat) {
    forall b, i: nat, k: nat :: b in MOVERESIZE ==> !ChangesItsMind(evs, w, n, i, k, b)
  }

  lemma SameValue(before: seq<Event>, after: seq<Event>, w: nat, n: nat, last: nat, b: Bit, start: int)
    requires Merged(before, after, w, n, last) && n <= |before| && b in MOVERESIZE && KeepsItsMind(before, w, n)
    ensures Handled(after, w, n, b, start) == Handled(before, w, n, b, start)
  {
    if j: nat :| InChain(before, w, n, j) && b in before[j].mask {
      var i := SomeFirst(before, w, n, j, b);
      var k := SomeLast(before, w, n, j, b);
      assert !ChangesItsMind(before, w, n, i, k, b);
      EarliestWinsIff(before, after, w, n, last, i, k, b, start);
    } else {
      NotHandled(before, w, n, b, start);
      AfterIsLast(before, after, w, n, last, b);
      NotHandled(after, w, n, b, start);
    }
  }

  /** The whole geometry is the same exactly if the first and the last request for
      each bit agree. */
  lemma SameGeometryIff(before: seq<Event>, after: seq<Event>, w: nat, n: nat, last: nat)
    requires Merged(before, after, w, n, last) && n <= |before|
    ensures SameGeometry(before, after, w, n) <==> KeepsItsMind(before, w, n)
  {
    if KeepsItsMind(before, w, n) {
      forall b, start: int | b in MOVERESIZE
        ensures Handled(after, w, n, b, start) == Handled(before, w, n, b, start)
      {
        SameValue(before, after, w, n, last, b, start);
      }
    } else {
      var b, i: nat, k: nat :| b in MOVERESIZE && ChangesItsMind(before, w, n, i, k, b);
      EarliestWinsIff(before, after, w, n, last, i, k, b, 0);
    }
  }

  function Move(x: int): Event { Event(ConfigureRequest, 1, 0, {CWX}, x, 0, 0, 0, 0, 0, 0) }

  function Change(atom: nat): Event { Event(PropertyNotify, 1, atom, {}, 0, 0, 0, 0, 0, 0, 0) }

  /** Two moves are merged across a change of the size hints, and not across that of
      another property. */
  lemma MergedAcrossHints(after: seq<Event>)
    ensures StopIndex([Move(10), Change(XA_WM_NORMAL_HINTS), Move(20)], 1, 0) == 3
    ensures forall atom: nat :: atom != XA_WM_NORMAL_HINTS ==> StopIndex([Move(10), Change(atom), Move(20)], 1, 0) == 1
    ensures Merged([Move(10), Change(XA_WM_NORMAL_HINTS), Move(20)], after, 1, 3, 2) ==>
              after[0].kind == Invalid && CWX in after[2].mask && after[2].x == 10
  {
    var evs := [Move(10), Change(XA_WM_NORMAL_HINTS), Move(20)];
    assert StopIndex(evs, 1, 3) == 3 && StopIndex(evs, 1, 2) == 3 && StopIndex(evs, 1, 1) == 3;
    forall atom: nat | atom != XA_WM_NORMAL_HINTS
      ensures StopIndex([Move(10), Change(atom), Move(20)], 1, 0) == 1
    {
      assert StopIndex([Move(10), Change(atom), Move(20)], 1, 1) == 1;
    }
    if Merged(evs, after, 1, 3, 2) {
      assert InChain(evs, 1, 3, 0) && IsFirstWith(evs, 1, 3, 0, CWX);
      var mask := after[0].mask;
      assert {CWX} - MOVERESIZE == {};
      assert mask == (mask - MOVERESIZE) + (mask * MOVERESIZE);
      assert Kept(evs[0], after[0], false) && mask == {};
    }
  }

  /** A window that is moved to 10 and then to 20 ends up at 10. */
  lemma FirstMoveWins(after: seq<Event>, start: int)
    requires Merged([Move(10), Move(20)], after, 1, 2, 1)
    ensures Handled(after, 1, 2, CWX, start) == 10 && Handled([Move(10), Move(20)], 1, 2, CWX, start) == 20
  {
    var evs := [Move(10), Move(20)];
    assert InChain(evs, 1, 2, 0) && IsFirstWith(evs, 1, 2, 0, CWX);
    assert InChain(evs, 1, 2, 1) && IsLastWith(evs, 1, 2, 1, CWX);
    EarliestWinsIff(evs, after, 1, 2, 1, 0, 1, CWX, start);
  }
}

module Merge {
  import opened MergeSpec

  /** _pred_merge_cr(): event 0 is the request in hand, the rest is the queue. */
  method MergePending(evs: array<Event>) returns (count: nat, ghost last: nat)
    requires evs.Length > 0 && evs[0].kind == ConfigureRequest
    modifies evs
    ensures var w := old(evs[0]).window;
            && Merged(old(evs[..]), evs[..], w, StopIndex(old(evs[..]), w, 0), last)
            && (count == 0 <==> last == 0)
    ensures count == 0 ==> evs[..] == old(evs[..])
  {
    hide *;
    var w := evs[0].window;
    ghost var before := evs[..];
    var lastCr := 0;
    NothingToMerge(before, w);
    count := 0;
    var i := 1;
    while i < evs.Length && !Stops(evs[i], w)
      invariant 1 <= i <= evs.Length && lastCr < i
      invariant forall k :: i <= k < evs.Length ==> evs[k] == before[k]
      invariant Merged(before, evs[..], w, i, lastCr)
      invariant forall k :: 0 <= k < i ==> !Stops(before[k], w)
      invariant count == 0 <==> lastCr == 0
      invariant count == 0 ==> evs[..] == before
    {
      assert evs[i] == before[i];
      if Requests(evs[i], w) {
        NextInChain(before, evs[..], w, i, lastCr);
        MergeInto(evs, i, lastCr);
        lastCr := i;
        count := count + 1;
      } else {
        OutsideChain(before, evs[..], w, i, lastCr);
      }
      i := i + 1;
    }
    StopIndexIs(before, w, i);
    last := lastCr;
  }

  /** The caller of _pred_merge_cr(): event 0 is the request in hand, the rest
      is the queue.  Answers how many requests it was merged into. */
  method MergeMoveResize(evs: array<Event>) returns (count: nat, ghost last: nat)
    requires evs.Length > 0 && evs[0].kind == ConfigureRequest
    modifies evs
    ensures var w := old(evs[0]).window;
            && Merged(old(evs[..]), evs[..], w, StopIndex(old(evs[..]), w, 0), last)
            && (count == 0 <==> last == 0)
    ensures count == 0 ==> evs[..] == old(evs[..])
    // what changes, said of the fields of the events alone
    ensures var before, after, w := old(evs[..]), evs[..], old(evs[0]).window;
            && last < |before| == |after| && before[last].kind == ConfigureRequest && before[last].window == w
            && (forall k | 0 <= k < |before| :: (before[k].kind == ConfigureRequest && before[k].window == w) ||
                  after[k] == before[k])
            && (forall h | 0 <= h < |before| && before[h].kind == PropertyNotify && before[h].window == w
                  && before[h].atom != XA_WM_NORMAL_HINTS :: h > last && after[h..] == before[h..])
            && (forall k | last < k < |before| && before[k].kind == ConfigureRequest && before[k].window == w ::
                  exists h :: last < h < k && before[h].kind == PropertyNotify && before[h].window == w &&
                              before[h].atom != XA_WM_NORMAL_HINTS)
            && (forall k | 0 <= k < last && before[k].kind == ConfigureRequest && before[k].window == w ::
                  && after[k].mask == before[k].mask - {CWX, CWY, CWWidth, CWHeight, CWBorderWidth}
                  && after[k].kind == (if after[k].mask == {} then Invalid else ConfigureRequest)
                  && after[k].window == w && after[k].above == before[k].above && after[k].detail == before[k].detail)
    // what the last request asks for
    ensures var before, end, w := old(evs[..]), evs[last], old(evs[0]).window;
            && end.kind == ConfigureRequest && end.window == w
            && end.above == before[last].above && end.detail == before[last].detail
            && (CWSibling in end.mask <==> CWSibling in before[last].mask)
            && (CWStackMode in end.mask <==> CWStackMode in before[last].mask)
            && (forall b | b != CWSibling && b != CWStackMode :: b in end.mask <==>
                  exists k: nat :: k <= last && AsksFirst(before, w, k, b))
            && (forall k: nat, b | k <= last && AsksFirst(before, w, k, b) ::
                  && (b == CWX ==> end.x == before[k].x) && (b == CWY ==> end.y == before[k].y)
                  && (b == CWWidth ==> end.width == before[k].width)
                  && (b == CWHeight ==> end.height == before[k].height)
                  && (b == CWBorderWidth ==> end.borderWidth == before[k].borderWidth))
  {
    ghost var before := evs[..];
    count, last := MergePending(evs);
    MergedRequests(before, evs[..], evs[0].window, last);
    MergedBits(before, evs[..], evs[0].window, last);
    hide *;
    forall k: nat, b | k <= last && AsksFirst(before, evs[0].window, k, b) {
      MergedValues(before, evs[..], evs[0].window, last, k, b);
    }
  }

  lemma {:induction false} StopIndexFrom(evs: seq<Event>, w: nat, i: nat, j: nat)
    requires j <= i <= |evs| && (i < |evs| ==> Stops(evs[i], w))
    requires forall k :: j <= k < i ==> !Stops(evs[k], w)
    ensures StopIndex(evs, w, j) == i
    decreases i - j
  {
    if j < i {
      StopIndexFrom(evs, w, i, j + 1);
    }
  }

  lemma StopIndexIs(evs: seq<Event>, w: nat, i: nat)
    requires i <= |evs| && (i < |evs| ==> Stops(evs[i], w))
    requires forall k :: 0 <= k < i ==> !Stops(evs[k], w)
    ensures StopIndex(evs, w, 0) == i
  {
    StopIndexFrom(evs, w, i, 0);
  }

  /** Merges the last request into event `i`. */
  method MergeInto(evs: array<Event>, i: nat, l: nat)
    requires l < i < evs.Length
    modifies evs
    ensures evs[..] == old(evs[..])[i := Absorb(old(evs[i]), old(evs[l]))][l := Strip(old(evs[l]))]
  {
    ghost var before := evs[..];
    Collect(evs, i, l);
    assert evs[l] == before[l];
    evs[l] := evs[l].(mask := evs[l].mask - MOVERESIZE);
    if evs[l].mask == {} {
      evs[l] := evs[l].(kind := Invalid);
    }
  }

  /** Copies the changes of the last request into event `i`. */
  method Collect(evs: array<Event>, i: nat, l: nat)
    requires l < i < evs.Length
    modifies evs
    ensures evs[..] == old(evs[..])[i := Absorb(old(evs[i]), old(evs[l]))]
  {
    var lcr := evs[l];
    if CWX in lcr.mask {
      evs[i] := evs[i].(x := lcr.x);
    }
    if CWY in lcr.mask {
      evs[i] := evs[i].(y := lcr.y);
    }
    if CWWidth in lcr.mask {
      evs[i] := evs[i].(width := lcr.width);
    }
    if CWHeight in lcr.mask {
      evs[i] := evs[i].(height := lcr.height);
    }
    if CWBorderWidth in lcr.mask {
      evs[i] := evs[i].(borderWidth := lcr.borderWidth);
    }
    evs[i] := evs[i].(mask := evs[i].mask + lcr.mask * MOVERESIZE);
  }
}
