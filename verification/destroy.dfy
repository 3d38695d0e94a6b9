/** Deferred destruction of windows (fvwm/add_window.c, fvwm/update.c,
    fvwm/events.c): while a function runs, a destroyed window is only unlinked
    and put on a list, and the main loop frees it later. */
module DestroySpec {

  /** A window structure; the counters are what became of it. */
  datatype Win = Win(scheduled: bool, reuse: bool, unlinks: nat, broadcasts: nat, frees: nat)

  datatype Scr<W(==)> = Scr(
    wins: map<W, Win>, list: seq<W>, queue: seq<W>, pending: bool,
    depth: nat, complex: bool, menu: bool, menuSaved: seq<bool>)
  {
    predicate Executing() { complex || menu }
  }

  function Without<W(==)>(list: seq<W>, w: W): seq<W> {
    if list == [] then []
    else if list[0] == w then Without(list[1..], w)
    else [list[0]] + Without(list[1..], w)
  }

  lemma {:induction false} WithoutIs<W>(list: seq<W>, w: W)
    ensures w !in Without(list, w)
    ensures forall v :: v != w ==> (v in Without(list, w) <==> v in list)
  {
    if list != [] {
      WithoutIs(list[1..], w);
    }
  }

  /** The other windows keep their order: what is in front of the window comes
      before what is behind it. */
  lemma {:induction false} WithoutSplits<W>(front: seq<W>, w: W, back: seq<W>)
    requires w !in front && w !in back
    ensures Without(front + [w] + back, w) == front + back
  {
    var list := front + [w] + back;
    if front == [] {
      assert list[1..] == back;
      WithoutKeeps(back, w);
    } else {
      assert list[1..] == front[1..] + [w] + back;
      WithoutSplits(front[1..], w, back);
    }
  }

  lemma {:induction false} WithoutKeeps<W>(list: seq<W>, w: W)
    requires w !in list
    ensures Without(list, w) == list
  {
    if list != [] {
      WithoutKeeps(list[1..], w);
    }
  }

  lemma WithoutEnds<W>(list: seq<W>, w: W)
    ensures Without(list[0..], w) == Without(list, w) && Without(list[|list|..], w) == []
  {
    assert list[0..] == list;
  }

  lemma WithoutNext<W>(list: seq<W>, w: W, i: nat)
    requires i < |list|
    ensures Without(list[i..], w) == (if list[i] == w then [] else [list[i]]) + Without(list[i + 1..], w)
  {
    assert list[i..][1..] == list[i + 1..];
  }

  /** At the end of the window list. */
  function Added<W(==)>(s: Scr<W>, w: W, reuse: bool): Scr<W> {
    s.(wins := s.wins[w := Win(false, reuse, 0, 0, 0)], list := s.list + [w])
  }

  /** Out of the window list and the stacking ring. */
  function Unlinked<W(==)>(s: Scr<W>, w: W): Scr<W>
    requires w in s.wins
  {
    var x := s.wins[w];
    s.(wins := s.wins[w := x.(unlinks := x.unlinks + 1)], list := Without(s.list, w))
  }

  /** Announced, and left to the main loop. */
  function Scheduled<W(==)>(s: Scr<W>, w: W): Scr<W>
    requires w in s.wins
  {
    var x := s.wins[w];
    if x.scheduled then s
    else s.(wins := s.wins[w := x.(scheduled := true, broadcasts := x.broadcasts + 1)],
            pending := true, queue := s.queue + [w])
  }

  /** Announced unless that is done, and freed unless it is reused. */
  function Finished<W(==)>(s: Scr<W>, w: W): Scr<W>
    requires w in s.wins
  {
    var x := s.wins[w];
    s.(wins := s.wins[w := x.(scheduled := true,
                              broadcasts := x.broadcasts + (if x.scheduled then 0 else 1),
                              frees := x.frees + (if x.reuse then 0 else 1))])
  }

  /** destroy_window() */
  function Destroyed<W(==)>(s: Scr<W>, w: W): (r: Scr<W>)
    requires w in s.wins
    ensures r.wins.Keys == s.wins.Keys
  {
    var t := if s.wins[w].scheduled then s else Unlinked(s, w);
    if t.Executing() && !t.wins[w].reuse then Scheduled(t, w) else Finished(t, w)
  }

  lemma DestroyedFields<W>(s: Scr<W>, w: W)
    requires w in s.wins
    ensures var t, running := Destroyed(s, w), s.complex || s.menu;
            var x, y, first := s.wins[w], t.wins[w], !s.wins[w].scheduled;
            && y.scheduled && y.reuse == x.reuse
            && y.unlinks == x.unlinks + (if first then 1 else 0)
            && y.broadcasts == x.broadcasts + (if first then 1 else 0)
            && y.frees == x.frees + (if x.reuse || running then 0 else 1)
            && t.queue == s.queue + (if first && running && !x.reuse then [w] else [])
  {
    hide Without;
  }

  function DestroyedAll<W(==)>(s: Scr<W>, ws: seq<W>): (r: Scr<W>)
    requires forall w :: w in ws ==> w in s.wins
    ensures r.wins.Keys == s.wins.Keys
    decreases |ws|
  {
    if ws == [] then s
    else
      var n := |ws| - 1;
      Destroyed(DestroyedAll(s, ws[..n]), ws[n])
  }

  lemma DestroyedNone<W>(s: Scr<W>, ws: seq<W>)
    ensures DestroyedAll(s, ws[..0]) == s
  {
  }

  lemma DestroyedNext<W>(s: Scr<W>, ws: seq<W>, i: nat)
    requires i < |ws| && forall w :: w in ws ==> w in s.wins
    ensures DestroyedAll(s, ws[..i + 1]) == Destroyed(DestroyedAll(s, ws[..i]), ws[i])
  {
    assert ws[..i + 1][..i] == ws[..i];
  }

  /** destroy_scheduled_windows() */
  function Drained<W(==)>(s: Scr<W>): Scr<W>
    requires forall w :: w in s.queue ==> w in s.wins
  {
    if s.Executing() || !s.pending then s
    else DestroyedAll(s.(pending := false), s.queue).(queue := [])
  }

  lemma DrainCases<W>(s: Scr<W>)
    requires forall w :: w in s.queue ==> w in s.wins
    ensures Drained(s) == if s.Executing() || !s.pending then s
                          else DestroyedAll(s.(pending := false), s.queue).(queue := [])
  {
  }

  /** What can happen between two events, and in functions. */
  datatype Op<W> =
    | Add(w: W, reuse: bool)
    | Destroy(w: W)
    | EnterComplex | ExitComplex
    | EnterMenu | ExitMenu
    | LoopHead

  /** A window that waits for its end reaches destroy_window() again only while
      a function runs (apart from the drain), unless it is reused; and a freed one
      never does. */
  predicate Allowed<W(==)>(s: Scr<W>, op: Op<W>) {
    match op
    case Add(w, _) => w !in s.wins
    case Destroy(w) => w in s.wins && s.wins[w].frees == 0 && (s.wins[w].scheduled ==> s.Executing() || s.wins[w].reuse)
    case ExitComplex => s.depth > 0
    case ExitMenu => s.menuSaved != []
    case _ => true
  }

  function Step<W(==)>(s: Scr<W>, op: Op<W>): Scr<W>
    requires Inv(s) && Allowed(s, op)
  {
    match op
    case Add(w, reuse) => Added(s, w, reuse)
    case Destroy(w) => Destroyed(s, w)
    case EnterComplex => s.(complex := true, depth := s.depth + 1)
    case ExitComplex => s.(depth := s.depth - 1, complex := if s.depth == 1 then false else s.complex)
    case EnterMenu => s.(menu := true, menuSaved := s.menuSaved + [s.menu])
    case ExitMenu => s.(menu := s.menuSaved[|s.menuSaved| - 1], menuSaved := s.menuSaved[..|s.menuSaved| - 1])
    case LoopHead => Drained(s)
  }

  /** A window is in one of three states: in the window list; unlinked, announced
      and waiting once in the queue; or freed. */
  predicate WinOk<W(==)>(s: Scr<W>, w: W)
    requires w in s.wins
  {
    var x := s.wins[w];
    && x.unlinks == x.broadcasts == (if x.scheduled then 1 else 0)
    && (w in s.list <==> !x.scheduled)
    && x.frees <= 1
    && (x.frees == 1 ==> x.scheduled && !x.reuse)
    && (w in s.queue <==> x.scheduled && !x.reuse && x.frees == 0)
  }

  predicate ListKnown<W(==)>(s: Scr<W>) { forall w :: w in s.list ==> w in s.wins }

  predicate Inv<W(==)>(s: Scr<W>) {
    && (forall w :: w in s.wins ==> WinOk(s, w))
    && (forall w :: w in s.queue ==> w in s.wins) && ListKnown(s)
    && (forall i, j :: 0 <= i < j < |s.queue| ==> s.queue[i] != s.queue[j])
    && (s.queue != [] ==> s.pending)
    && (s.complex <==> s.depth > 0)
  }

  lemma QueueKnown<W>(s: Scr<W>)
    requires Inv(s)
    ensures forall w :: w in s.queue ==> w in s.wins
  {
  }

  lemma StaysListed<W>(s: Scr<W>, w: W, v: W)
    requires w in s.wins && v in Destroyed(s, w).list
    ensures v in s.list
  {
    WithoutIs(s.list, w);
    assert Destroyed(s, w).list == if s.wins[w].scheduled then s.list else Without(s.list, w);
  }

  lemma DestroyKeepsList<W>(s: Scr<W>, w: W)
    requires ListKnown(s) && w in s.wins
    ensures ListKnown(Destroyed(s, w))
  {
    forall v | v in Destroyed(s, w).list
      ensures v in s.wins
    {
      StaysListed(s, w, v);
    }
  }

  lemma DestroyKeepsInv<W>(s: Scr<W>, w: W)
    requires Inv(s) && Allowed(s, Destroy(w))
    ensures Inv(Destroyed(s, w))
  {
    DestroyKeepsList(s, w);
    assert WinOk(s, w);
    var r := Destroyed(s, w);
    forall v | v in r.wins
      ensures WinOk(r, v)
    {
      assert WinOk(s, v);
      DestroyKeepsWin(s, w, v);
    }
    hide ListKnown, Without, WinOk;
    assert r.queue == s.queue || (w !in s.queue && r.queue == s.queue + [w] && r.pending);
  }

  lemma DestroyKeepsWin<W>(s: Scr<W>, w: W, v: W)
    requires w in s.wins && v in s.wins && WinOk(s, w) && WinOk(s, v) && Allowed(s, Destroy(w))
    ensures WinOk(Destroyed(s, w), v)
  {
    WithoutIs(s.list, w);
    hide Without;
  }

  /** What a run must not do: a window that is destroyed again before the drain, and
      outside functions, is freed while it is in the queue. */
  lemma DestroyKeepsInvIff<W>(s: Scr<W>, w: W)
    requires Inv(s) && w in s.wins && s.wins[w].frees == 0
    ensures Inv(Destroyed(s, w)) <==> Allowed(s, Destroy(w))
  {
    assert WinOk(s, w);
    if Allowed(s, Destroy(w)) {
      DestroyKeepsInv(s, w);
    } else {
      var r := Destroyed(s, w);
      assert r.wins[w].frees == 1 && w in r.queue;
      assert !WinOk(r, w);
    }
  }

  /** Part of the way through the drain: the first `k` of the queue are freed,
      and nothing else has changed. */
  ghost predicate PartDrained<W>(s: Scr<W>, t: Scr<W>, k: nat)
    requires k <= |s.queue|
  {
    && t == s.(pending := false, wins := t.wins) && t.wins.Keys == s.wins.Keys
    && (forall w :: w in s.wins ==>
          t.wins[w] == if w in s.queue[..k] then s.wins[w].(frees := 1) else s.wins[w])
  }

  lemma DrainNext<W>(s: Scr<W>, t: Scr<W>, k: nat)
    requires Inv(s) && !s.Executing() && k < |s.queue| && PartDrained(s, t, k)
    ensures s.queue[k] in t.wins && PartDrained(s, Destroyed(t, s.queue[k]), k + 1)
  {
    var w := s.queue[k];
    assert w in s.queue && WinOk(s, w);
    assert w !in s.queue[..k];
    assert s.queue[..k + 1] == s.queue[..k] + [w];
    hide Inv, WinOk;
    assert t.wins[w] == s.wins[w];
    assert Destroyed(t, w) == t.(wins := t.wins[w := t.wins[w].(frees := 1)]);
  }

  lemma {:induction false} DrainPart<W>(s: Scr<W>, k: nat)
    requires Inv(s) && !s.Executing() && k <= |s.queue|
    ensures PartDrained(s, DestroyedAll(s.(pending := false), s.queue[..k]), k)
    decreases k
  {
    hide Inv, Destroyed;
    if k > 0 {
      DrainPart(s, k - 1);
      QueueKnown(s);
      DestroyedNext(s.(pending := false), s.queue, k - 1);
      DrainNext(s, DestroyedAll(s.(pending := false), s.queue[..k - 1]), k - 1);
    }
  }

  lemma DrainKeepsInv<W>(s: Scr<W>)
    requires Inv(s)
    ensures Inv(Drained(s))
    ensures !s.Executing() ==> forall w :: w in s.wins && s.wins[w].scheduled && !s.wins[w].reuse ==>
              Drained(s).wins[w].frees == 1
  {
    if !s.Executing() && s.pending {
      DrainPart(s, |s.queue|);
      assert s.queue[..|s.queue|] == s.queue;
      var r := Drained(s);
      forall w | w in r.wins
        ensures WinOk(r, w)
      {
        assert WinOk(s, w);
      }
    }
  }

  lemma AddKeepsInv<W>(s: Scr<W>, w: W, reuse: bool)
    requires Inv(s) && w !in s.wins
    ensures Inv(Added(s, w, reuse))
  {
    var r := Added(s, w, reuse);
    forall v | v in r.wins
      ensures WinOk(r, v)
    {
      assert v != w ==> WinOk(s, v);
    }
  }

  lemma StepKeepsInv<W>(s: Scr<W>, op: Op<W>)
    requires Inv(s) && Allowed(s, op)
    ensures Inv(Step(s, op))
  {
    var r := Step(s, op);
    match op
    case Add(w, reuse) => AddKeepsInv(s, w, reuse);
    case Destroy(w) => DestroyKeepsInv(s, w);
    case LoopHead => DrainKeepsInv(s);
    case _ =>
      forall w | w in r.wins
        ensures WinOk(r, w)
      {
        assert WinOk(s, w);
      }
  }

  ghost predicate Legal<W>(s: Scr<W>, ops: seq<Op<W>>)
    requires Inv(s)
    decreases |ops|
  {
    ops == [] || (Allowed(s, ops[0]) && (StepKeepsInv(s, ops[0]); Legal(Step(s, ops[0]), ops[1..])))
  }

  function Run<W(==)>(s: Scr<W>, ops: seq<Op<W>>): Scr<W>
    requires Inv(s) && Legal(s, ops)
    decreases |ops|
  {
    if ops == [] then s
    else
      StepKeepsInv(s, ops[0]);
      Run(Step(s, ops[0]), ops[1..])
  }

  lemma StepTracks<W>(s: Scr<W>, op: Op<W>, w: W)
    requires Inv(s) && Allowed(s, op) && w in s.wins
    ensures var t := Step(s, op);
            && w in t.wins && t.wins[w].reuse == s.wins[w].reuse
            && (t.wins[w].scheduled <==> s.wins[w].scheduled || op == Destroy(w))
  {
    match op
    case Destroy(v) => DestroyTracks(s, v, w);
    case LoopHead => DrainTracks(s, w);
    case _ => hide Inv;
  }

  lemma DestroyTracks<W>(s: Scr<W>, v: W, w: W)
    requires v in s.wins && w in s.wins
    ensures var t := Destroyed(s, v);
            && w in t.wins && t.wins[w].reuse == s.wins[w].reuse
            && (t.wins[w].scheduled <==> s.wins[w].scheduled || v == w)
  {
    hide Without;
  }

  lemma DrainTracks<W>(s: Scr<W>, w: W)
    requires Inv(s) && w in s.wins
    ensures w in Drained(s).wins && Drained(s).wins[w].reuse == s.wins[w].reuse
    ensures Drained(s).wins[w].scheduled == s.wins[w].scheduled
  {
    if !s.Executing() {
      DrainPart(s, |s.queue|);
      assert s.queue[..|s.queue|] == s.queue;
      hide DestroyedAll, WinOk;
    }
  }

  lemma CountsOf<W>(s: Scr<W>, w: W)
    requires Inv(s) && w in s.wins
    ensures var x := s.wins[w];
            && x.unlinks == x.broadcasts <= 1 && (x.scheduled <==> x.unlinks == 1) && x.frees <= 1
            && (x.frees == 1 ==> x.unlinks == 1 && !x.reuse)
            && (!x.reuse && x.unlinks == 1 ==> (x.frees == 1 <==> w !in s.queue))
  {
    assert WinOk(s, w);
  }

  /** After any run, each window that is not reused was unlinked, announced and
      freed at most once: unlinked and announced exactly once if it was ever
      destroyed, and then either freed once or still in the queue once. */
  lemma {:induction false} EachWindowEndsOnce<W>(s: Scr<W>, ops: seq<Op<W>>, w: W)
    requires Inv(s) && Legal(s, ops) && w in s.wins
    ensures var r := Run(s, ops);
            && Inv(r) && w in r.wins && r.wins[w].reuse == s.wins[w].reuse
            && r.wins[w].unlinks == r.wins[w].broadcasts <= 1
            && (s.wins[w].scheduled || Destroy(w) in ops <==> r.wins[w].unlinks == 1)
            && (!r.wins[w].reuse && r.wins[w].unlinks == 1 ==> (r.wins[w].frees == 1 <==> w !in r.queue))
            && r.wins[w].frees <= 1 && (r.wins[w].frees == 1 ==> r.wins[w].unlinks == 1 && !r.wins[w].reuse)
    decreases |ops|
  {
    hide Step, WinOk, Inv, Allowed;
    CountsOf(s, w);
    if ops != [] {
      var op := ops[0];
      StepKeepsInv(s, op);
      StepTracks(s, op, w);
      EachWindowEndsOnce(Step(s, op), ops[1..], w);
      assert Destroy(w) in ops <==> op == Destroy(w) || Destroy(w) in ops[1..];
    }
  }

  /** No step frees a window while a complex or menu function runs. */
  lemma NoFreeWhileExecuting<W>(s: Scr<W>, op: Op<W>, w: W)
    requires Inv(s) && Allowed(s, op) && w in s.wins && s.Executing()
    ensures w in Step(s, op).wins && Step(s, op).wins[w].frees == s.wins[w].frees
  {
  }

  // ----- which functions are open

  /** The saved flags of nested menu functions: only the outermost one found the
      flag clear, and the flag is set while there are any. */
  predicate MenusNest<W(==)>(s: Scr<W>) {
    && (s.menu <==> s.menuSaved != [])
    && forall i :: 0 <= i < |s.menuSaved| ==> (s.menuSaved[i] <==> i > 0)
  }

  lemma DestroyedKeepsFlags<W>(s: Scr<W>, w: W)
    requires w in s.wins
    ensures var t := Destroyed(s, w);
            t.depth == s.depth && t.complex == s.complex && t.menu == s.menu && t.menuSaved == s.menuSaved
  {
  }

  lemma DrainKeepsFlags<W>(s: Scr<W>)
    requires Inv(s)
    ensures var t := Drained(s);
            t.depth == s.depth && t.complex == s.complex && t.menu == s.menu && t.menuSaved == s.menuSaved
  {
    if !s.Executing() && s.pending {
      DrainPart(s, |s.queue|);
      assert s.queue[..|s.queue|] == s.queue;
    }
  }

  lemma StepNests<W>(s: Scr<W>, op: Op<W>)
    requires Inv(s) && Allowed(s, op) && MenusNest(s)
    ensures var t := Step(s, op);
            && MenusNest(t)
            && t.depth == s.depth + (if op == EnterComplex then 1 else 0) - (if op == ExitComplex then 1 else 0)
            && |t.menuSaved| ==
               |s.menuSaved| + (if op == EnterMenu then 1 else 0) - (if op == ExitMenu then 1 else 0)
  {
    match op
    case Destroy(w) => DestroyedKeepsFlags(s, w);
    case LoopHead => DrainKeepsFlags(s);
    case _ =>
  }

  lemma {:induction false} RunNests<W>(s: Scr<W>, ops: seq<Op<W>>)
    requires Inv(s) && Legal(s, ops) && MenusNest(s)
    ensures var r, done := Run(s, ops), multiset(ops);
            && Inv(r) && MenusNest(r)
            && r.depth == s.depth + done[EnterComplex] - done[ExitComplex]
            && |r.menuSaved| == |s.menuSaved| + done[EnterMenu] - done[ExitMenu]
    decreases |ops|
  {
    hide Step, Inv, Allowed, MenusNest;
    if ops != [] {
      StepKeepsInv(s, ops[0]);
      StepNests(s, ops[0]);
      RunNests(Step(s, ops[0]), ops[1..]);
      assert ops == [ops[0]] + ops[1..];
    }
  }

  /** From a start where nothing runs, a function runs after a run of calls exactly
      if more complex functions were entered than left, or more menu functions. */
  lemma ExecutingIff<W>(s: Scr<W>, ops: seq<Op<W>>)
    requires Inv(s) && Legal(s, ops)
    requires s.depth == 0 && !s.complex && !s.menu && s.menuSaved == []
    ensures var done := multiset(ops);
            Run(s, ops).Executing() <==>
            done[EnterComplex] > done[ExitComplex] || done[EnterMenu] > done[ExitMenu]
  {
    RunNests(s, ops);
  }

  /** While more functions were entered than left, no call frees a window; a window
      that is destroyed then, and is not reused, waits in the queue. */
  lemma NoFreeWhileOpen<W>(s: Scr<W>, ops: seq<Op<W>>, op: Op<W>, w: W)
    requires Inv(s) && Legal(s, ops)
    requires s.depth == 0 && !s.complex && !s.menu && s.menuSaved == []
    requires var done := multiset(ops);
             done[EnterComplex] > done[ExitComplex] || done[EnterMenu] > done[ExitMenu]
    requires Allowed(Run(s, ops), op) && w in Run(s, ops).wins
    ensures var r := Run(s, ops);
            && Inv(r) && w in Step(r, op).wins && Step(r, op).wins[w].frees == r.wins[w].frees
            && (op == Destroy(w) && !r.wins[w].reuse ==> w in Step(r, op).queue)
  {
    RunNests(s, ops);
    ExecutingIff(s, ops);
    var r := Run(s, ops);
    NoFreeWhileExecuting(r, op, w);
    assert WinOk(r, w);
  }

  /** Once all functions are left, the next loop head frees every window that waits. */
  lemma FreedWhenClosed<W>(s: Scr<W>, ops: seq<Op<W>>, w: W)
    requires Inv(s) && Legal(s, ops)
    requires s.depth == 0 && !s.complex && !s.menu && s.menuSaved == []
    requires var done := multiset(ops);
             done[EnterComplex] == done[ExitComplex] && done[EnterMenu] == done[ExitMenu]
    requires w in s.wins && !s.wins[w].reuse && Destroy(w) in ops
    ensures var r := Run(s, ops);
            && Inv(r) && Allowed(r, LoopHead) && w in Step(r, LoopHead).wins
            && Step(r, LoopHead).wins[w].frees == 1 && Step(r, LoopHead).queue == []
  {
    EachWindowEndsOnce(s, ops, w);
    ExecutingIff(s, ops);
    CountsOf(Run(s, ops), w);
    DrainFreesAll(Run(s, ops), w);
  }

  /** The next loop head outside functions frees every waiting window. */
  lemma DrainFreesAll<W>(s: Scr<W>, w: W)
    requires Inv(s) && !s.Executing() && w in s.wins && !s.wins[w].reuse && s.wins[w].scheduled
    ensures var r := Step(s, LoopHead);
            w in r.wins && r.wins[w].frees == 1 && r.queue == [] && Inv(r)
  {
    DrainKeepsInv(s);
    assert WinOk(s, w);
  }
}

module Destruction {
  import opened DestroySpec

  class FvwmWindow {
    var scheduledForDestroy: bool
    var reuseDestroyed: bool
    ghost var unlinks: nat
    ghost var broadcasts: nat
    ghost var frees: nat

    ghost function Value(): Win
      reads this
    {
      Win(scheduledForDestroy, reuseDestroyed, unlinks, broadcasts, frees)
    }

    constructor (reuse: bool)
      ensures Value() == Win(false, reuse, 0, 0, 0)
    {
      scheduledForDestroy, reuseDestroyed := false, reuse;
      unlinks, broadcasts, frees := 0, 0, 0;
    }
  }

  class Screen {
    ghost var all: set<FvwmWindow>
    /** The window list and the stacking ring, which hold the same windows. */
    var list: seq<FvwmWindow>
    var fwScheduledForDestroy: seq<FvwmWindow>
    var isWindowScheduledForDestroy: bool
    var functionDepth: nat
    var isExecutingComplexFunction: bool
    var isExecutingMenuFunction: bool
    var savedMenuFlags: seq<bool>

    ghost function State(): Scr<FvwmWindow>
      reads this, all
    {
      Scr(map w | w in all :: w.Value(), list, fwScheduledForDestroy, isWindowScheduledForDestroy,
          functionDepth, isExecutingComplexFunction, isExecutingMenuFunction, savedMenuFlags)
    }

    constructor ()
      ensures State() == Scr(map[], [], [], false, 0, false, false, []) && Inv(State())
    {
      all := {};
      list, fwScheduledForDestroy := [], [];
      isWindowScheduledForDestroy := false;
      functionDepth, isExecutingComplexFunction := 0, false;
      isExecutingMenuFunction, savedMenuFlags := false, [];
    }

    /** AddWindow() puts a new window at the end of the window list. */
    method AddWindow(reuse: bool) returns (fw: FvwmWindow)
      requires Inv(State())
      modifies this`all, this`list
      ensures fresh(fw) && all == old(all) + {fw} && list == old(list) + [fw]
      ensures State() == Step(old(State()), Add(fw, reuse)) && Inv(State())
    {
      ghost var s := State();
      fw := new FvwmWindow(reuse);
      StepKeepsInv(s, Add(fw, reuse));
      assert Step(s, Add(fw, reuse)) == Added(s, fw, reuse);
      hide Inv, Step, Added;
      Append(fw, reuse);
    }

    method Append(fw: FvwmWindow, ghost reuse: bool)
      requires fw !in all && fw.Value() == Win(false, reuse, 0, 0, 0)
      modifies this`all, this`list
      ensures all == old(all) + {fw} && State() == Added(old(State()), fw, reuse)
      ensures list == old(list) + [fw]
    {
      ghost var s := State();
      all := all + {fw};
      list := list + [fw];
      assert State().wins == s.wins[fw := Win(false, reuse, 0, 0, 0)];
    }

    /** Walks a list and leaves out one window. */
    method Filter(ws: seq<FvwmWindow>, fw: FvwmWindow) returns (rest: seq<FvwmWindow>)
      ensures rest == Without(ws, fw)
    {
      hide Without;
      WithoutEnds(ws, fw);
      var i := 0;
      rest := [];
      while i < |ws|
        invariant i <= |ws| && rest + Without(ws[i..], fw) == Without(ws, fw)
      {
        WithoutNext(ws, fw, i);
        if ws[i] != fw {
          rest := rest + [ws[i]];
        }
        i := i + 1;
      }
    }

    /** Takes a window out of the window list and the stacking ring. */
    method Unlink(fw: FvwmWindow)
      requires fw in all
      modifies this`list, fw`unlinks
      ensures State() == Unlinked(old(State()), fw)
    {
      hide Without;
      ghost var s := State();
      list := Filter(list, fw);
      fw.unlinks := fw.unlinks + 1;
      assert State().wins == s.wins[fw := fw.Value()];
    }

    /** Announces the window, and leaves the rest to the main loop. */
    method Schedule(fw: FvwmWindow)
      requires fw in all
      modifies this`fwScheduledForDestroy, this`isWindowScheduledForDestroy, fw
      ensures State() == Scheduled(old(State()), fw)
    {
      ghost var s := State();
      if fw.scheduledForDestroy {
        return;
      }
      fw.scheduledForDestroy := true;
      isWindowScheduledForDestroy := true;
      fw.broadcasts := fw.broadcasts + 1;
      fwScheduledForDestroy := fwScheduledForDestroy + [fw];
      assert State().wins == s.wins[fw := fw.Value()];
    }

    /** Announces the window unless that is done, and frees it unless it is
        reused. */
    method Finish(fw: FvwmWindow)
      requires fw in all
      modifies fw
      ensures State() == Finished(old(State()), fw)
    {
      FinishedIs(State(), fw);
      hide *;
      Announce(fw);
      Free(fw);
    }

    ghost function Announced(x: Win): Win {
      if x.scheduled then x else x.(scheduled := true, broadcasts := x.broadcasts + 1)
    }

    ghost function Freed(x: Win): Win { if x.reuse then x else x.(frees := x.frees + 1) }

    ghost function With(s: Scr<FvwmWindow>, fw: FvwmWindow, x: Win): Scr<FvwmWindow> { s.(wins := s.wins[fw := x]) }

    lemma FinishedIs(s: Scr<FvwmWindow>, fw: FvwmWindow)
      requires fw in s.wins
      ensures var t := With(s, fw, Announced(s.wins[fw]));
              fw in t.wins && With(t, fw, Freed(t.wins[fw])) == Finished(s, fw)
    {
    }

    /** Marks and announces the window, if that was not done before. */
    method Announce(fw: FvwmWindow)
      requires fw in all
      modifies fw
      ensures fw in old(State()).wins && State() == With(old(State()), fw, Announced(old(State()).wins[fw]))
    {
      ghost var s := State();
      if !fw.scheduledForDestroy {
        fw.scheduledForDestroy := true;
        fw.broadcasts := fw.broadcasts + 1;
      }
      assert State().wins == s.wins[fw := fw.Value()];
    }

    /** Frees the structure, unless it is reused. */
    method Free(fw: FvwmWindow)
      requires fw in all
      modifies fw
      ensures fw in old(State()).wins && State() == With(old(State()), fw, Freed(old(State()).wins[fw]))
    {
      ghost var s := State();
      if !fw.reuseDestroyed {
        fw.frees := fw.frees + 1;
      }
      assert State().wins == s.wins[fw := fw.Value()];
    }

    /** destroy_window() */
    method DestroyWindow(fw: FvwmWindow)
      requires fw in all
      modifies this`list, this`fwScheduledForDestroy, this`isWindowScheduledForDestroy, fw
      ensures State() == Destroyed(old(State()), fw)
      ensures var running := isExecutingComplexFunction || isExecutingMenuFunction;
              var first := !old(fw.scheduledForDestroy);
              && fw.scheduledForDestroy
              && fw.unlinks == old(fw.unlinks) + (if first then 1 else 0)
              && fw.broadcasts == old(fw.broadcasts) + (if first then 1 else 0)
              && fw.frees == old(fw.frees) + (if fw.reuseDestroyed || running then 0 else 1)
              && fwScheduledForDestroy ==
                 old(fwScheduledForDestroy) + (if first && running && !fw.reuseDestroyed then [fw] else [])
    {
      ghost var s := State();
      DestroyedFields(s, fw);
      assert s.wins[fw] == fw.Value();
      hide Destroyed;
      UnlinkAndEnd(fw);
      assert State().wins[fw] == fw.Value();
    }

    /** A window is unlinked if it is not, and then put on the list or finished. */
    method UnlinkAndEnd(fw: FvwmWindow)
      requires fw in all
      modifies this`list, this`fwScheduledForDestroy, this`isWindowScheduledForDestroy, fw
      ensures State() == Destroyed(old(State()), fw)
    {
      hide Without, Inv, Unlinked, Scheduled, Finished;
      assert State().wins[fw] == fw.Value();
      if !fw.scheduledForDestroy {
        Unlink(fw);
      }
      assert State().wins[fw] == fw.Value();
      if (isExecutingComplexFunction || isExecutingMenuFunction) && !fw.reuseDestroyed {
        Schedule(fw);
      } else {
        Finish(fw);
      }
    }

    /** The loop of destroy_scheduled_windows(). */
    method DestroyEach(queue: seq<FvwmWindow>, ghost t: Scr<FvwmWindow>)
      requires State() == t && forall w :: w in queue ==> w in all
      modifies this`list, this`fwScheduledForDestroy, this`isWindowScheduledForDestroy, all
      ensures State() == DestroyedAll(t, queue)
    {
      hide Destroyed, DestroyedAll;
      var i := 0;
      DestroyedNone(t, queue);
      while i < |queue|
        invariant i <= |queue|
        invariant State() == DestroyedAll(t, queue[..i])
      {
        DestroyedNext(t, queue, i);
        DestroyWindow(queue[i]);
        i := i + 1;
      }
      assert queue[..i] == queue;
    }

    /** destroy_scheduled_windows() */
    method DestroyScheduledWindows()
      requires Inv(State())
      modifies this, all
      ensures all == old(all) && State() == Drained(old(State())) && Inv(State())
    {
      hide *;
      QueueKnown(State());
      DrainKeepsInv(State());
      DrainCases(State());
      KnownIsAll(State());
      if isExecutingComplexFunction || isExecutingMenuFunction || !isWindowScheduledForDestroy {
        return;
      }
      ghost var s := State();
      ClearPending();
      DestroyEach(fwScheduledForDestroy, s.(pending := false));
      ClearQueue();
    }

    lemma KnownIsAll(s: Scr<FvwmWindow>)
      requires s == State()
      ensures s.wins.Keys == all && s.queue == fwScheduledForDestroy && s.pending == isWindowScheduledForDestroy
      ensures s.Executing() == (isExecutingComplexFunction || isExecutingMenuFunction)
    {
    }

    method ClearPending()
      modifies this`isWindowScheduledForDestroy
      ensures State() == old(State()).(pending := false)
    {
      isWindowScheduledForDestroy := false;
    }

    method ClearQueue()
      modifies this`fwScheduledForDestroy
      ensures State() == old(State()).(queue := [])
    {
      fwScheduledForDestroy := [];
    }

    method EnterComplexFunction()
      requires Inv(State())
      modifies this
      ensures all == old(all) && State() == Step(old(State()), EnterComplex) && Inv(State())
      ensures isExecutingComplexFunction && functionDepth == old(functionDepth) + 1
    {
      StepKeepsInv(State(), EnterComplex);
      isExecutingComplexFunction := true;
      functionDepth := functionDepth + 1;
    }

    method LeaveComplexFunction()
      requires Inv(State()) && Allowed(State(), ExitComplex)
      modifies this
      ensures all == old(all) && State() == Step(old(State()), ExitComplex) && Inv(State())
      ensures functionDepth == old(functionDepth) - 1 && (isExecutingComplexFunction <==> functionDepth > 0)
    {
      StepKeepsInv(State(), ExitComplex);
      functionDepth := functionDepth - 1;
      if functionDepth == 0 {
        isExecutingComplexFunction := false;
      }
    }

    method EnterMenuFunction()
      requires Inv(State())
      modifies this
      ensures all == old(all) && State() == Step(old(State()), EnterMenu) && Inv(State())
      ensures isExecutingMenuFunction && savedMenuFlags == old(savedMenuFlags) + [old(isExecutingMenuFunction)]
    {
      StepKeepsInv(State(), EnterMenu);
      savedMenuFlags := savedMenuFlags + [isExecutingMenuFunction];
      isExecutingMenuFunction := true;
    }

    method LeaveMenuFunction()
      requires Inv(State()) && Allowed(State(), ExitMenu)
      modifies this
      ensures all == old(all) && State() == Step(old(State()), ExitMenu) && Inv(State())
      ensures savedMenuFlags + [isExecutingMenuFunction] == old(savedMenuFlags)
    {
      StepKeepsInv(State(), ExitMenu);
      isExecutingMenuFunction := savedMenuFlags[|savedMenuFlags| - 1];
      savedMenuFlags := savedMenuFlags[..|savedMenuFlags| - 1];
    }

    /** The filter of dispatch_event(): a window that waits for its end gets no
        event but DestroyNotify. */
    method DispatchEvent(fw: FvwmWindow, isDestroyNotify: bool) returns (handled: bool)
      requires Inv(State()) && fw in all && fw.frees == 0
      modifies this, all
      ensures all == old(all)
      ensures handled == (isDestroyNotify || !old(fw.scheduledForDestroy))
      ensures State() == if isDestroyNotify then Destroyed(old(State()), fw) else old(State())
      ensures Inv(State()) <==> (isDestroyNotify ==> Allowed(old(State()), Destroy(fw)))
    {
      if fw.scheduledForDestroy && !isDestroyNotify {
        return false;
      }
      if isDestroyNotify {
        DestroyKeepsInvIff(State(), fw);
        DestroyWindow(fw);
      }
      return true;
    }
  }
}
