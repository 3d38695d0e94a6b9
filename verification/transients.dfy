/** The transient-for hints of the managed windows and the check that keeps
    them free of loops (fvwm/add_window.c). */
module HintGraph {
  import opened CStrings

  /** The window `n` hints away from `a`, if there is one. */
  function Walk<W(==)>(g: map<W, W>, a: W, n: nat): Option<W> {
    if n == 0 then Some(a) else if a in g then Walk(g, g[a], n - 1) else None
  }

  ghost predicate Cyclic<W>(g: map<W, W>) {
    exists a, n: nat :: a in g && n > 0 && Walk(g, a, n) == Some(a)
  }

  ghost predicate Reaches<W>(g: map<W, W>, a: W, b: W) {
    exists n: nat :: Walk(g, a, n) == Some(b)
  }

  lemma {:induction false} WalkSplits<W>(g: map<W, W>, a: W, i: nat, j: nat)
    ensures Walk(g, a, i + j) == match Walk(g, a, i) case None => None case Some(b) => Walk(g, b, j)
  {
    if i > 0 && a in g {
      WalkSplits(g, g[a], i - 1, j);
    }
  }

  /** A walk stays the same in a larger graph while it lasts. */
  lemma {:induction false} WalkGrows<W>(g: map<W, W>, h: map<W, W>, a: W, n: nat)
    requires forall x :: x in g ==> x in h && h[x] == g[x]
    requires Walk(g, a, n).Some?
    ensures Walk(h, a, n) == Walk(g, a, n)
  {
    if n > 0 {
      WalkGrows(g, h, g[a], n - 1);
    }
  }

  /** A walk that never comes to `fw` does not use the edge of `fw`. */
  lemma {:induction false} WalkAvoids<W>(g: map<W, W>, fw: W, a: W, n: nat)
    requires forall k: nat :: k < n ==> Walk(g, a, k) != Some(fw)
    ensures Walk(g - {fw}, a, n) == Walk(g, a, n)
  {
    if n > 0 {
      assert Walk(g, a, 0) == Some(a);
      if a in g {
        forall k: nat | k < n - 1
          ensures Walk(g, g[a], k) != Some(fw)
        {
          assert Walk(g, a, k + 1) == Walk(g, g[a], k);
        }
        WalkAvoids(g, fw, g[a], n - 1);
      }
    }
  }

  /** Without a cycle every walk ends. */
  lemma {:induction false} WalkEnds<W>(g: map<W, W>, a: W) returns (n: nat)
    requires !Cyclic(g)
    ensures Walk(g, a, n) == None
    decreases |g|
  {
    if a !in g {
      n := 1;
    } else {
      var h := g - {a};
      assert h.Keys == g.Keys - {a};
      forall x, k: nat | x in h && k > 0
        ensures Walk(h, x, k) != Some(x)
      {
        if Walk(h, x, k) == Some(x) {
          WalkGrows(h, g, x, k);
        }
      }
      var m := WalkEnds(h, g[a]);
      forall k: nat
        ensures Walk(g, g[a], k) != Some(a)
      {
        assert Walk(g, a, k + 1) == Walk(g, g[a], k);
      }
      WalkAvoids(g, a, g[a], m);
      n := m + 1;
    }
  }

  /** A new edge from `fw` to `c` closes a cycle exactly when `c` already leads
      to `fw`. */
  lemma EdgeClosesCycle<W>(g: map<W, W>, fw: W, c: W)
    requires !Cyclic(g) && fw !in g
    ensures Cyclic(g[fw := c]) <==> Reaches(g, c, fw)
  {
    var h := g[fw := c];
    assert h - {fw} == g;
    if Reaches(g, c, fw) {
      var n: nat :| Walk(g, c, n) == Some(fw);
      WalkGrows(g, h, c, n);
      assert Walk(h, fw, n + 1) == Some(fw);
    }
    if Cyclic(h) {
      var a, n: nat :| a in h && n > 0 && Walk(h, a, n) == Some(a);
      CycleMeets(h, fw, a, n);
    }
  }

  lemma AvoidingCycle<W>(h: map<W, W>, fw: W, a: W, n: nat)
    requires n > 0 && Walk(h, a, n) == Some(a)
    requires forall k: nat :: k < n ==> Walk(h, a, k) != Some(fw)
    ensures Cyclic(h - {fw})
  {
    WalkAvoids(h, fw, a, n);
    assert Walk(h, a, 0) == Some(a);
    assert a in h - {fw};
  }

  lemma CycleMeets<W>(h: map<W, W>, fw: W, a: W, n: nat)
    requires fw in h && !Cyclic(h - {fw})
    requires n > 0 && Walk(h, a, n) == Some(a)
    ensures Reaches(h - {fw}, h[fw], fw)
  {
    if forall k: nat :: k < n ==> Walk(h, a, k) != Some(fw) {
      AvoidingCycle(h, fw, a, n);
    }
    var i: nat :| i < n && Walk(h, a, i) == Some(fw);
    WalkSplits(h, a, i, n - i);
    WalkSplits(h, fw, n - i, i);
    assert Walk(h, fw, n) == Some(fw);
    FirstReturn(h, fw, n - 1);
  }

  /** From the successor of `fw` back to `fw`, without passing through it. */
  lemma {:induction false} FirstReturn<W>(h: map<W, W>, fw: W, m: nat)
    requires fw in h && Walk(h, h[fw], m) == Some(fw)
    ensures Reaches(h - {fw}, h[fw], fw)
  {
    if k: nat :| k < m && Walk(h, h[fw], k) == Some(fw) {
      FirstReturn(h, fw, k);
    } else {
      WalkAvoids(h, fw, h[fw], m);
    }
  }

  /** All of these go to one window. */
  function AllTo<A, W>(s: set<A>, w: W): (m: map<A, W>)
    ensures m.Keys == s && forall a :: a in s ==> m[a] == w
  {
    map a | a in s :: w
  }

  /** New edges from windows without one to a new window at the end. */
  predicate Extends<W(==)>(g: map<W, W>, h: map<W, W>, named: set<W>, fw: W) {
    fw !in g && fw !in named && named !! g.Keys && h == g + AllTo(named, fw)
  }

  /** A walk in the larger graph is one in the smaller graph, up to its last step. */
  lemma {:induction false} WalkExtended<W>(g: map<W, W>, h: map<W, W>, named: set<W>, fw: W, c: W, n: nat)
    requires Extends(g, h, named, fw) && Walk(h, c, n).Some?
    ensures Walk(g, c, n) == Walk(h, c, n) ||
            (Walk(h, c, n) == Some(fw) && n > 0 && Walk(g, c, n - 1).Some? && Walk(g, c, n - 1).value in named)
  {
    if n > 0 {
      if c in named {
        assert n == 1 by {
          assert Walk(h, fw, n - 1).Some?;
        }
        assert Walk(g, c, 0) == Some(c);
      } else {
        WalkExtended(g, h, named, fw, h[c], n - 1);
      }
    }
  }

  /** A walk comes to a window that gets an edge to `fw`. */
  ghost predicate LeadsToOne<W>(g: map<W, W>, named: set<W>, c: W) {
    exists n: nat, a :: a in named && Walk(g, c, n) == Some(a)
  }

  /** It does so further on than at its start. */
  ghost predicate LeadsFurther<W>(g: map<W, W>, named: set<W>, c: W) {
    c in g && LeadsToOne(g, named, g[c])
  }

  lemma LeadsFrom<W>(g: map<W, W>, named: set<W>, c: W)
    ensures LeadsToOne(g, named, c) <==> c in named || LeadsFurther(g, named, c)
    ensures c !in g ==> !LeadsFurther(g, named, c)
  {
    assert Walk(g, c, 0) == Some(c);
    if n: nat, a :| a in named && Walk(g, c, n) == Some(a) {
      if n > 0 {
        assert Walk(g, g[c], n - 1) == Some(a);
      }
    }
    if LeadsFurther(g, named, c) {
      var n: nat, a :| a in named && Walk(g, g[c], n) == Some(a);
      assert Walk(g, c, n + 1) == Some(a);
    }
  }

  lemma LeadsNowhere<W>(g: map<W, W>, named: set<W>, c: W)
    requires forall k: nat :: k > 0 && Walk(g, c, k).Some? ==> Walk(g, c, k).value !in named
    ensures !LeadsFurther(g, named, c)
  {
    if c in g {
      forall n: nat, a | a in named
        ensures Walk(g, g[c], n) != Some(a)
      {
        assert Walk(g, c, n + 1) == Walk(g, g[c], n);
      }
    }
  }

  lemma LeadsSomewhere<W>(g: map<W, W>, named: set<W>, c: W, k: nat)
    requires k > 0 && Walk(g, c, k).Some? && Walk(g, c, k).value in named
    ensures LeadsFurther(g, named, c)
  {
    assert Walk(g, g[c], k - 1) == Walk(g, c, k);
  }

  lemma ExtendedReaches<W>(g: map<W, W>, h: map<W, W>, named: set<W>, fw: W, c: W)
    requires Extends(g, h, named, fw) && !Cyclic(g)
    ensures !Cyclic(h)
    ensures Reaches(h, c, fw) <==> Reaches(g, c, fw) || LeadsToOne(g, named, c)
  {
    forall x, n: nat | x in h && n > 0
      ensures Walk(h, x, n) != Some(x)
    {
      if Walk(h, x, n) == Some(x) {
        WalkExtended(g, h, named, fw, x, n);
      }
    }
    if n: nat :| Walk(h, c, n) == Some(fw) {
      WalkExtended(g, h, named, fw, c, n);
    }
    if n: nat :| Walk(g, c, n) == Some(fw) {
      WalkGrows(g, h, c, n);
    }
    if n: nat, a :| a in named && Walk(g, c, n) == Some(a) {
      WalkGrows(g, h, c, n);
      WalkSplits(h, c, n, 1);
      assert Walk(h, c, n + 1) == Some(fw);
    }
  }
}

module Transients {
  import opened CStrings
  import opened HintGraph

  /** An X window id; 0 is None. */
  type Window = nat

  class FvwmWindow {
    const w: Window
    var transientFor: Window
    var isTransient: bool

    constructor (w: Window, root: Window)
      ensures this.w == w && transientFor == root && !isTransient
    {
      this.w := w;
      transientFor := root;
      isTransient := false;
    }
  }

  class Screen {
    const root: Window
    /** The window that plays the desktop, if there is one. */
    var ewmhDesktop: FvwmWindow?
    var windows: set<FvwmWindow>
    /** The ids of every managed window: client, frame, title, buttons. */
    var context: map<Window, FvwmWindow>

    constructor (root: Window)
      requires root != 0
      ensures Valid() && windows == {} && context == map[] && this.root == root && ewmhDesktop == null
    {
      this.root := root;
      ewmhDesktop := null;
      windows := {};
      context := map[];
    }

    /** The client id of each window is registered, and only windows with the
        transient flag have a hint. */
    ghost predicate Registered()
      reads this, windows
    {
      && root != 0 && 0 !in context && root !in context
      && (forall w :: w in context ==> context[w] in windows)
      && (forall fw :: fw in windows ==> fw.w in context && context[fw.w] == fw)
      && (forall fw :: fw in windows && !fw.isTransient ==> fw.transientFor == root)
      && (ewmhDesktop != null ==> ewmhDesktop in windows)
    }

    static ghost function Edges(ws: set<FvwmWindow>, context: map<Window, FvwmWindow>): map<FvwmWindow, FvwmWindow>
      reads ws
    {
      map fw | fw in ws && fw.transientFor in context :: context[fw.transientFor]
    }

    static ghost function NamedBy(ws: set<FvwmWindow>, ids: set<Window>): set<FvwmWindow>
      reads ws
    {
      set a | a in ws && a.transientFor in ids
    }

    /** Each window and the managed window that its hint names. */
    ghost function Graph(): map<FvwmWindow, FvwmWindow>
      requires Registered()
      reads this, windows
    {
      Edges(windows, context)
    }

    ghost predicate Valid()
      reads this, windows
    {
      Registered() && !Cyclic<FvwmWindow>(Graph())
    }

    /** The windows whose hints name one of these ids. */
    ghost function Naming(ids: set<Window>): set<FvwmWindow>
      reads this, windows
    {
      NamedBy(windows, ids)
    }

    /** A new window is registered with its ids.  Its own hint closes a cycle exactly
        if it leads to a window whose hint names the new window. */
    method Register(fw: FvwmWindow, ids: set<Window>)
      requires Valid() && fw !in windows && (!fw.isTransient ==> fw.transientFor == root)
      requires fw.w in ids && 0 !in ids && root !in ids && ids !! context.Keys
      modifies this
      ensures Registered() && windows == old(windows) + {fw}
      ensures context == old(context) + AllTo<Window, FvwmWindow>(ids, fw) && ewmhDesktop == old(ewmhDesktop)
      ensures Extends<FvwmWindow>(old(Graph()), Graph() - {fw}, old(Naming(ids)), fw)
      ensures Valid() <==> !(fw.transientFor in context &&
                             (context[fw.transientFor] == fw ||
                              LeadsToOne<FvwmWindow>(old(Graph()), old(Naming(ids)), context[fw.transientFor])))
    {
      ghost var g, named := Graph(), Naming(ids);
      Enter(fw, ids);
      hide Cyclic, Reaches, LeadsToOne, Registered, Graph, Naming, Extends;
      ClosesCycleIff(g, Graph() - {fw}, Graph(), named, fw,
                     if fw.transientFor in context then Some(context[fw.transientFor]) else None);
    }

    method Enter(fw: FvwmWindow, ids: set<Window>)
      requires Registered() && fw !in windows && (!fw.isTransient ==> fw.transientFor == root)
      requires fw.w in ids && 0 !in ids && root !in ids && ids !! context.Keys
      modifies this
      ensures Registered() && windows == old(windows) + {fw}
      ensures context == old(context) + AllTo<Window, FvwmWindow>(ids, fw) && ewmhDesktop == old(ewmhDesktop)
      ensures Extends<FvwmWindow>(old(Graph()), Graph() - {fw}, old(Naming(ids)), fw) && fw !in old(Graph()).Values
      ensures Graph() == if fw.transientFor in context then (Graph() - {fw})[fw := context[fw.transientFor]]
                         else Graph() - {fw}
    {
      BeforeEntering(fw, ids);
      ghost var ws, was := windows, context;
      EnterIds(fw, ids);
      hide Registered, Extends, Edges, NamedBy, AllTo;
      EnteredGraph(fw, ids, ws, was);
    }

    method EnterIds(fw: FvwmWindow, ids: set<Window>)
      requires Registered() && fw !in windows && (!fw.isTransient ==> fw.transientFor == root)
      requires fw.w in ids && 0 !in ids && root !in ids && ids !! context.Keys
      modifies this
      ensures Registered() && windows == old(windows) + {fw} && ewmhDesktop == old(ewmhDesktop)
      ensures context == old(context) + AllTo<Window, FvwmWindow>(ids, fw)
    {
      context := context + AllTo<Window, FvwmWindow>(ids, fw);
      windows := windows + {fw};
    }

    /** The graph with a new window, from the one before. */
    static lemma EnteredGraph(fw: FvwmWindow, ids: set<Window>, ws: set<FvwmWindow>, was: map<Window, FvwmWindow>)
      requires fw !in ws && ids !! was.Keys && fw !in NamedBy(ws, ids) && NamedBy(ws, ids) !! Edges(ws, was).Keys
      ensures var now := was + AllTo<Window, FvwmWindow>(ids, fw);
              var all := Edges(ws + {fw}, now);
              && Extends<FvwmWindow>(Edges(ws, was), all - {fw}, NamedBy(ws, ids), fw)
              && all == if fw.transientFor in now then (all - {fw})[fw := now[fw.transientFor]] else all - {fw}
    {
      EdgesExtended(fw, ids, ws, was);
      var now := was + AllTo<Window, FvwmWindow>(ids, fw);
      hide AllTo, Extends, NamedBy, Edges;
      OneMoreEdge(fw, ws, now);
    }

    static lemma OneMoreEdge(fw: FvwmWindow, ws: set<FvwmWindow>, context: map<Window, FvwmWindow>)
      requires fw !in ws
      ensures var g, all := Edges(ws, context), Edges(ws + {fw}, context);
              && all - {fw} == g
              && all == if fw.transientFor in context then g[fw := context[fw.transientFor]] else g
    {
      var g, all := Edges(ws, context), Edges(ws + {fw}, context);
      assert forall a :: a != fw ==> (a in g <==> a in all);
      if fw.transientFor !in context {
        assert all == g;
      }
    }

    static lemma EdgesExtended(fw: FvwmWindow, ids: set<Window>, ws: set<FvwmWindow>, was: map<Window, FvwmWindow>)
      requires fw !in ws && ids !! was.Keys && fw !in NamedBy(ws, ids) && NamedBy(ws, ids) !! Edges(ws, was).Keys
      ensures Extends<FvwmWindow>(Edges(ws, was), Edges(ws, was + AllTo<Window, FvwmWindow>(ids, fw)),
                                  NamedBy(ws, ids), fw)
    {
      var g, named := Edges(ws, was), NamedBy(ws, ids);
      var h := Edges(ws, was + AllTo<Window, FvwmWindow>(ids, fw));
      assert h.Keys == g.Keys + named;
      assert h == g + AllTo(named, fw);
    }

    lemma BeforeEntering(fw: FvwmWindow, ids: set<Window>)
      requires Registered() && fw !in windows && ids !! context.Keys
      ensures fw !in Graph() && fw !in Graph().Values && fw !in Naming(ids) && Naming(ids) !! Graph().Keys
    {
    }

    lemma ClosesCycleIff(g: map<FvwmWindow, FvwmWindow>, h: map<FvwmWindow, FvwmWindow>,
                         all: map<FvwmWindow, FvwmWindow>, named: set<FvwmWindow>,
                         fw: FvwmWindow, c: Option<FvwmWindow>)
      requires Extends<FvwmWindow>(g, h, named, fw) && fw !in g.Values && !Cyclic<FvwmWindow>(g)
      requires all == if c.Some? then h[fw := c.value] else h
      ensures Cyclic<FvwmWindow>(all) <==> c.Some? && (c.value == fw || LeadsToOne<FvwmWindow>(g, named, c.value))
    {
      var end: FvwmWindow := if c.Some? then c.value else fw;
      assert fw !in h;
      ExtendedReaches<FvwmWindow>(g, h, named, fw, end);
      hide Extends;
      if c.Some? {
        EdgeClosesCycle<FvwmWindow>(h, fw, end);
        NotReached(g, end, fw);
      }
    }

    /** A window that no edge leads to is reached from itself only. */
    lemma NotReached(g: map<FvwmWindow, FvwmWindow>, c: FvwmWindow, fw: FvwmWindow)
      requires fw !in g.Values
      ensures Reaches<FvwmWindow>(g, c, fw) <==> c == fw
    {
      assert Walk(g, c, 0) == Some(c);
      if n: nat :| Walk(g, c, n) == Some(fw) {
        LastEdge(g, c, n, fw);
      }
    }

    lemma {:induction false} LastEdge(g: map<FvwmWindow, FvwmWindow>, c: FvwmWindow, n: nat, fw: FvwmWindow)
      requires fw !in g.Values && Walk(g, c, n) == Some(fw)
      ensures n == 0 && c == fw
    {
      if n > 0 {
        assert g[c] in g.Values;
        LastEdge(g, g[c], n - 1, fw);
      }
    }

    /** IS_EWMH_DESKTOP(w) is a truth value, and the code compares it to the id. */
    function IsEwmhDesktop(w: Window): Window
      reads this
    {
      if ewmhDesktop != null && ewmhDesktop.w == w then 1 else 0
    }

    /** The hint of `fw` is kept if it names `w`: the desktop is turned down only if its
        id is 1.  A new window is not registered yet:
        of a loop that it closes, the check sees only a window further on than the one
        it names. */
    ghost predicate KeepsHint(fw: FvwmWindow, w: Window, viewable: Window -> bool)
      requires Registered()
      reads this, windows
    {
      && w != 0 && w != fw.w && !(w == 1 && ewmhDesktop != null && ewmhDesktop.w == w)
      && if w !in context then viewable(w)
         else if fw in windows then !Reaches<FvwmWindow>(Graph() - {fw}, context[w], fw)
         else !LeadsFurther<FvwmWindow>(Graph() - {fw}, Naming({fw.w}), context[w])
    }

    /** A hint to the EWMH desktop, which is meant to be dropped, is kept exactly if
        the id of the desktop is not 1 and the desktop is treated like any other
        window: no chain of hints leads from it back to the window. */
    lemma KeepsDesktopHintIff(fw: FvwmWindow, viewable: Window -> bool)
      requires Registered() && ewmhDesktop != null && fw != ewmhDesktop && fw.w != ewmhDesktop.w
      ensures KeepsHint(fw, ewmhDesktop.w, viewable) <==>
              ewmhDesktop.w != 1 &&
              if fw in windows then !Reaches<FvwmWindow>(Graph() - {fw}, ewmhDesktop, fw)
              else !LeadsFurther<FvwmWindow>(Graph() - {fw}, Naming({fw.w}), ewmhDesktop)
    {
    }

    /** A chain of hints ends at a window without a managed one. */
    lemma EndsAtOnce(fw: FvwmWindow, c: FvwmWindow, named: set<FvwmWindow>)
      requires Registered() && c.transientFor !in context
      ensures !LeadsFurther<FvwmWindow>(Graph() - {fw}, named, c)
    {
    }

    /** validate_transientfor(): drops the hint of `fw` if it names nothing
        usable or closes a loop.  `viewable` answers for the X server. */
    method ValidateTransientFor(fw: FvwmWindow, viewable: Window -> bool) returns (ok: bool)
      requires Registered() && !Cyclic<FvwmWindow>(Graph() - {fw})
      requires fw in windows || (fw.w !in context && fw.w != root)
      modifies fw`transientFor
      ensures Valid() && (fw !in windows ==> Graph() == old(Graph()))
      ensures fw.transientFor == if ok then old(fw.transientFor) else root
      ensures var w := old(fw.transientFor);
              ok <==> w != 0 && w != fw.w && !(w == 1 && ewmhDesktop != null && ewmhDesktop.w == w) &&
                      (if w !in context then viewable(w)
                       else if fw in windows then !Cyclic<FvwmWindow>(old(Graph()))
                       else !LeadsFurther<FvwmWindow>(old(Graph()), old(Naming({fw.w})), context[w]))
    {
      hide Extends;
      var w := fw.transientFor;
      ghost var others := Graph() - {fw};
      if w == 0 || w == fw.w || w == IsEwmhDesktop(w) {
        Drop(fw, others);
        return false;
      }
      if w in context {
        if fw in windows {
          assert others[fw := context[w]] == Graph();
          EdgeClosesCycle<FvwmWindow>(others, fw, context[w]);
        } else {
          assert Graph() == others;
        }
        hide Cyclic, Reaches, LeadsFurther;
        var loop := FindsLoop(fw, context[w], others);
        if loop {
          Drop(fw, others);
          return false;
        }
      } else if !viewable(w) {
        Drop(fw, others);
        return false;
      } else {
        assert Graph() == others;
      }
      return true;
    }

    /** Walks along the hints from the window that `fw` names. */
    method FindsLoop(fw: FvwmWindow, c: FvwmWindow, ghost others: map<FvwmWindow, FvwmWindow>) returns (loop: bool)
      requires Registered() && others == Graph() - {fw} && !Cyclic<FvwmWindow>(others) && c in windows
      requires if fw in windows then fw.isTransient else fw.w !in context && fw.w != root
      ensures loop <==> if fw in windows then Reaches<FvwmWindow>(others, c, fw)
                        else LeadsFurther<FvwmWindow>(others, Naming({fw.w}), c)
    {
      var cw := c;
      if cw == fw {
        assert Walk(others, c, 0) == Some(fw);
        return true;
      }
      ghost var n: nat := 0;
      ghost var end := WalkEnds(others, c);
      assert fw !in windows ==> others == Graph();
      while cw.transientFor in context
        invariant cw in windows && cw != fw
        invariant Walk(others, c, n) == Some(cw) && Ends(others, c, n, end)
        invariant forall k: nat :: k <= n ==> Walk(others, c, k) != Some(fw)
        invariant forall k: nat :: 0 < k <= n && Walk(others, c, k).Some? ==>
                    Walk(others, c, k).value.transientFor != fw.w
        decreases end - n
      {
        assert cw in others;
        WalkSplits(others, c, n, 1);
        cw := context[cw.transientFor];
        n := n + 1;
        assert Walk(others, c, n) == Some(cw);
        StillRuns(others, c, n, end);
        if !cw.isTransient {
          break;
        }
        if cw.transientFor == fw.w || cw == fw {
          if fw !in windows {
            LeadsSomewhere<FvwmWindow>(others, Naming({fw.w}), c, n);
          } else if cw != fw {
            WalkSplits(others, c, n, 1);
            assert Walk(others, c, n + 1) == Some(fw);
          }
          return true;
        }
      }
      assert cw !in others;
      NeverReaches(others, c, n, cw, fw);
      NamedNowhere(others, c, n, cw);
      if fw !in windows {
        LeadsNowhere<FvwmWindow>(others, Naming({fw.w}), c);
      }
      return false;
    }

    ghost predicate Ends(g: map<FvwmWindow, FvwmWindow>, c: FvwmWindow, n: nat, end: nat) {
      n < end && Walk(g, c, end) == None
    }

    lemma StillRuns(g: map<FvwmWindow, FvwmWindow>, c: FvwmWindow, n: nat, end: nat)
      requires n > 0 && Ends(g, c, n - 1, end) && Walk(g, c, n).Some?
      ensures Ends(g, c, n, end)
    {
    }

    lemma NeverReaches(g: map<FvwmWindow, FvwmWindow>, c: FvwmWindow, n: nat, last: FvwmWindow, fw: FvwmWindow)
      requires Walk(g, c, n) == Some(last) && last !in g
      requires forall k: nat :: k <= n ==> Walk(g, c, k) != Some(fw)
      ensures !Reaches<FvwmWindow>(g, c, fw)
    {
      forall k: nat
        ensures Walk(g, c, k) != Some(fw)
      {
        if k > n {
          WalkSplits(g, c, n, k - n);
        }
      }
    }

    lemma NamedNowhere(g: map<FvwmWindow, FvwmWindow>, c: FvwmWindow, n: nat, last: FvwmWindow)
      requires Walk(g, c, n) == Some(last) && last !in g
      ensures forall k: nat :: k > n ==> Walk(g, c, k) == None
    {
      forall k: nat | k > n
        ensures Walk(g, c, k) == None
      {
        WalkSplits(g, c, n, k - n);
      }
    }

    method Drop(fw: FvwmWindow, ghost others: map<FvwmWindow, FvwmWindow>)
      requires Registered() && Graph() - {fw} == others && !Cyclic<FvwmWindow>(others)
      modifies fw`transientFor
      ensures fw.transientFor == root && Valid() && Graph() == others
    {
      fw.transientFor := root;
      assert Graph() == others;
    }

    /** setup_transientfor(), when the hint of a registered window has changed or a
        new window is about to be registered. */
    method SetupTransientFor(fw: FvwmWindow, hint: Option<Window>, viewable: Window -> bool) returns (rc: bool)
      requires Valid() && (fw in windows || (fw.w !in context && fw.w != root))
      modifies fw
      ensures Valid() && (fw !in windows ==> Graph() == old(Graph()) && Naming({fw.w}) == old(Naming({fw.w})))
      ensures rc == fw.isTransient == hint.Some?
      ensures fw.transientFor == if hint.Some? && old(KeepsHint(fw, hint.value, viewable)) then hint.value else root
    {
      ghost var others := Graph() - {fw};
      SubgraphAcyclic(Graph(), fw);
      hide Cyclic, Reaches, LeadsFurther;
      rc := SetHint(fw, hint);
      if fw in windows && hint.Some? && hint.value in context {
        EdgeClosesCycle<FvwmWindow>(others, fw, context[hint.value]);
      }
      var ok := ValidateTransientFor(fw, viewable);
    }

    /** The hint as the client has set it. */
    method SetHint(fw: FvwmWindow, hint: Option<Window>) returns (rc: bool)
      requires Registered() && (fw in windows || fw.w !in context)
      modifies fw
      ensures Registered() && rc == fw.isTransient == hint.Some?
      ensures fw.transientFor == if hint.Some? then hint.value else root
      ensures Graph() - {fw} == old(Graph()) - {fw}
      ensures fw in windows && hint.Some? && hint.value in context ==>
                Graph() == (old(Graph()) - {fw})[fw := context[hint.value]]
      ensures fw !in windows ==> Graph() == old(Graph()) == Graph() - {fw} && Naming({fw.w}) == old(Naming({fw.w}))
    {
      hide HintGraph.Walk;
      ghost var g := Graph();
      if hint.Some? {
        fw.transientFor := hint.value;
      }
      fw.isTransient := hint.Some?;
      if hint.None? {
        fw.transientFor := root;
      }
      rc := hint.Some?;
      assert Registered();
      GraphOf(fw, g);
      if fw !in windows {
        assert Naming({fw.w}) == old(Naming({fw.w}));
      }
    }

    /** The graph, from one that differs in the edge of `fw` at most. */
    lemma GraphOf(fw: FvwmWindow, g: map<FvwmWindow, FvwmWindow>)
      requires Registered()
      requires forall a :: a != fw ==> (a in g <==> a in Graph()) && (a in g ==> g[a] == Graph()[a])
      requires fw !in windows ==> fw !in g
      ensures Graph() - {fw} == g - {fw}
      ensures fw in windows && fw.transientFor in context ==> Graph() == (g - {fw})[fw := context[fw.transientFor]]
      ensures fw !in windows ==> Graph() == g == Graph() - {fw}
    {
      hide Registered;
    }

    /** AddWindow() validates the hint of a new window, before it registers the ids of
        the window.  This closes a cycle exactly if the hint that is kept names one of
        these ids, or leads to a window whose hint does. */
    method AddWindow(fw: FvwmWindow, hint: Option<Window>, viewable: Window -> bool, ids: set<Window>, isDesktop: bool)
      requires Valid() && fw !in windows && fw.w in ids && 0 !in ids && root !in ids && ids !! context.Keys
      modifies this, fw
      ensures Registered() && windows == old(windows) + {fw}
      ensures context == old(context) + AllTo<Window, FvwmWindow>(ids, fw)
      ensures fw.transientFor == if hint.Some? && old(KeepsHint(fw, hint.value, viewable)) then hint.value else root
      ensures ewmhDesktop == if isDesktop then fw else old(ewmhDesktop)
      ensures Valid() <==> !(hint.Some? && old(KeepsHint(fw, hint.value, viewable)) && old(LeadsBack(hint.value, ids)))
    {
      hide Cyclic, Reaches, LeadsToOne, LeadsFurther, Extends, Walk, KeepsHint;
      ghost var was, g, named := context, Graph(), Naming(ids);
      var rc := SetupTransientFor(fw, hint, viewable);
      assert Naming(ids) == named;
      Register(fw, ids);
      assert fw.transientFor in context <==> fw.transientFor in was || fw.transientFor in ids;
      assert fw.transientFor in context && fw.transientFor !in ids ==>
          context[fw.transientFor] == was[fw.transientFor] && was[fw.transientFor] != fw;
      SetDesktop(fw, isDesktop);
    }

    /** ewmh_HandleDesktop() */
    method SetDesktop(fw: FvwmWindow, isDesktop: bool)
      requires Registered() && fw in windows
      modifies this`ewmhDesktop
      ensures Registered() && Graph() == old(Graph())
      ensures ewmhDesktop == if isDesktop then fw else old(ewmhDesktop)
    {
      ghost var g := Graph();
      if isDesktop {
        ewmhDesktop := fw;
      }
      assert Graph() == g;
    }

    /** A hint to `w` leads to a new window with these ids. */
    ghost predicate LeadsBack(w: Window, ids: set<Window>)
      requires Registered()
      reads this, windows
    {
      w in ids || (w in context && LeadsToOne<FvwmWindow>(Graph(), Naming(ids), context[w]))
    }

    /** If nothing refers to a new window but hints to its client id, then a kept hint
        leads back to it exactly if the window that it names has such a hint itself. */
    lemma LeadsBackIff(fw: FvwmWindow, w: Window, viewable: Window -> bool, ids: set<Window>)
      requires Registered() && fw !in windows && fw.w in ids && ids !! context.Keys
      requires forall a :: a in windows && a.transientFor in ids ==> a.transientFor == fw.w
      requires w in ids ==> w == fw.w
      ensures KeepsHint(fw, w, viewable) && LeadsBack(w, ids) <==>
              && w in context && context[w].transientFor == fw.w
              && w != 0 && !(w == 1 && ewmhDesktop != null && ewmhDesktop.w == w)
    {
      NewWindowFacts(fw, ids);
      if w in context {
        LeadsFrom<FvwmWindow>(Graph(), Naming({fw.w}), context[w]);
      }
      hide LeadsToOne, LeadsFurther, Graph, Naming;
    }

    /** Hints lead to a new window only by its client id. */
    lemma NewWindowFacts(fw: FvwmWindow, ids: set<Window>)
      requires Registered() && fw !in windows && fw.w in ids && ids !! context.Keys
      requires forall a :: a in windows && a.transientFor in ids ==> a.transientFor == fw.w
      ensures Graph() - {fw} == Graph() && Naming(ids) == Naming({fw.w})
      ensures forall c :: c in windows ==> (c in Naming({fw.w}) <==> c.transientFor == fw.w)
      ensures forall c :: c in Naming({fw.w}) ==> c !in Graph()
    {
    }

    lemma SubgraphAcyclic(g: map<FvwmWindow, FvwmWindow>, fw: FvwmWindow)
      requires !Cyclic<FvwmWindow>(g)
      ensures !Cyclic<FvwmWindow>(g - {fw})
    {
      var h := g - {fw};
      forall x, k: nat | x in h && k > 0
        ensures Walk(h, x, k) != Some(x)
      {
        if Walk(h, x, k) == Some(x) {
          WalkGrows(h, g, x, k);
        }
      }
    }
  }
}

/** Hints that validate_transientfor() does not catch. */
module TransientCases {
  import opened CStrings
  import opened HintGraph
  import opened Transients

  /** Two windows that name each other: the first one was added while the second was
      still unmanaged. */
  method MutualHints() returns (s: Screen)
    ensures fresh(s) && s.Registered() && Cyclic<FvwmWindow>(s.Graph())
  {
    hide Cyclic, Walk, Reaches, LeadsToOne, LeadsFurther;
    s := new Screen(1);
    var a := new FvwmWindow(2, 1);
    s.AddWindow(a, Some(3), _ => true, {2}, false);
    assert s.Valid() && a.transientFor == 3;
    var b := new FvwmWindow(3, 1);
    s.LeadsBackIff(b, 2, _ => true, {3});
    s.AddWindow(b, Some(2), _ => true, {3}, false);
  }

  /** A window with a hint to the EWMH desktop keeps it. */
  method DesktopHint() returns (s: Screen, fw: FvwmWindow)
    ensures fresh(s) && s.Valid() && fw in s.windows
    ensures s.ewmhDesktop != null && s.ewmhDesktop != fw && fw.transientFor == s.ewmhDesktop.w
  {
    hide Cyclic, Walk, Reaches, LeadsToOne, LeadsFurther;
    s := new Screen(1);
    var desktop := new FvwmWindow(7, 1);
    s.AddWindow(desktop, None, _ => true, {7}, true);
    fw := new FvwmWindow(2, 1);
    s.EndsAtOnce(fw, desktop, s.Naming({2}));
    assert s.KeepsHint(fw, 7, _ => true);
    s.LeadsBackIff(fw, 7, _ => true, {2});
    s.AddWindow(fw, Some(7), _ => true, {2}, false);
  }
}
