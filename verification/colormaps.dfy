/** Pushing the root and the fvwm colormap over that of the current window
    (fvwm/colormaps.c; section 4.1.8 of the ICCCM). */
module ColormapSpec {
  import opened CStrings

  type Colormap = nat
  type Window = nat

  /** A window: its id, its WM_COLORMAP_WINDOWS list and its own colormap. */
  datatype Win = Win(id: Window, cmapWindows: seq<Window>, colormap: Colormap)

  /** What does not change during a run: the two forced maps, the root window, and
      what the X server tells about the listed windows. */
  datatype World = World(defaultMap: Colormap, pcmap: Colormap, root: Win, attributes: map<Window, Colormap>)

  datatype State = State(
    lastCmap: Colormap, installed: Colormap, rootPushes: nat, fvwmPushes: nat, pushedWindow: Option<Win>)

  /** XInstallColormap, unless the map is the last one. */
  function Install(s: State, c: Colormap): State {
    if s.lastCmap != c then s.(lastCmap := c, installed := c) else s
  }

  /** Installs the maps of the listed windows, the last window first. */
  function InstallListed(x: World, s: State, ws: seq<Window>): State
    decreases |ws|
  {
    if ws == [] then s
    else
      var n := |ws| - 1;
      var t := if ws[n] in x.attributes then Install(s, x.attributes[ws[n]]) else s;
      InstallListed(x, t, ws[..n])
  }

  function Requested(x: World, w: Option<Win>): Win { if w.Some? then w.value else x.root }

  function InstallMaps(x: World, s: State, w: Win): State {
    var t := InstallListed(x, s, w.cmapWindows);
    if w.id in w.cmapWindows then t else Install(t, w.colormap)
  }

  /** InstallWindowColormaps(), when clients do not control the maps. */
  function InstallWindow(x: World, s: State, w: Option<Win>): State {
    var fw := Requested(x, w);
    var t := s.(pushedWindow := Some(fw));
    if s.rootPushes > 0 || s.fvwmPushes > 0 then t else InstallMaps(x, t, fw)
  }

  datatype Op =
    | Request(w: Option<Win>)
    | PushRoot | PopRoot
    | PushFvwm | PopFvwm

  function Step(x: World, s: State, op: Op): State {
    match op
    case Request(w) => InstallWindow(x, s, w)
    case PushRoot =>
      var t := Install(s, x.defaultMap);
      t.(rootPushes := t.rootPushes + 1)
    case PushFvwm =>
      var t := Install(s, x.pcmap);
      t.(fvwmPushes := t.fvwmPushes + 1)
    case PopRoot =>
      var t := if s.rootPushes > 0 then s.(rootPushes := s.rootPushes - 1) else s;
      if t.rootPushes > 0 then t
      else if t.fvwmPushes == 0 then InstallWindow(x, t, t.pushedWindow)
      else Install(t, x.pcmap)
    case PopFvwm =>
      var t := if s.fvwmPushes > 0 then s.(fvwmPushes := s.fvwmPushes - 1) else s;
      if t.fvwmPushes > 0 then t
      else if t.rootPushes == 0 then InstallWindow(x, t, t.pushedWindow)
      else Install(t, x.defaultMap)
  }

  function Run(x: World, s: State, ops: seq<Op>): State {
    if ops == [] then s
    else
      var n := |ops| - 1;
      Step(x, Run(x, s, ops[..n]), ops[n])
  }

  // ----- what the map should be

  /** The map that a window ends up with: that of the first listed window the
      server knows, if the window is in its own list; else its own. */
  function FirstKnown(x: World, ws: seq<Window>): Option<Colormap> {
    if ws == [] then None
    else if ws[0] in x.attributes then Some(x.attributes[ws[0]])
    else FirstKnown(x, ws[1..])
  }

  function WindowMap(x: World, w: Win): Option<Colormap> {
    if w.id in w.cmapWindows then FirstKnown(x, w.cmapWindows) else Some(w.colormap)
  }

  lemma {:induction false} ListedEndsWithFirst(x: World, s: State, ws: seq<Window>)
    ensures var t := InstallListed(x, s, ws);
            && t == s.(lastCmap := t.lastCmap, installed := t.installed)
            && t.lastCmap == (match FirstKnown(x, ws) case Some(c) => c case None => s.lastCmap)
            && (s.lastCmap == s.installed ==> t.lastCmap == t.installed)
    decreases |ws|
  {
    if ws != [] {
      var n := |ws| - 1;
      var t := if ws[n] in x.attributes then Install(s, x.attributes[ws[n]]) else s;
      ListedEndsWithFirst(x, t, ws[..n]);
      FirstKnownOfPrefix(x, ws);
    }
  }

  lemma {:induction false} FirstKnownOfPrefix(x: World, ws: seq<Window>)
    requires ws != []
    ensures var n := |ws| - 1;
            FirstKnown(x, ws) ==
            match FirstKnown(x, ws[..n])
            case Some(c) => Some(c)
            case None => if ws[n] in x.attributes then Some(x.attributes[ws[n]]) else None
  {
    if |ws| > 1 {
      FirstKnownOfPrefix(x, ws[1..]);
      assert ws[1..][..|ws| - 2] == ws[..|ws| - 1][1..];
    }
  }

  /** The window that was asked for last, or the root window once the code fell
      back to it. */
  function LastRequest(x: World, s: State, ops: seq<Op>): Option<Win> {
    if ops == [] then s.pushedWindow
    else
      var n := |ops| - 1;
      if ops[n].Request? then Some(Requested(x, ops[n].w))
      else
        var before := LastRequest(x, s, ops[..n]);
        if before.None? && InstallsAgain(Run(x, s, ops[..n]), ops[n]) then Some(x.root) else before
  }

  /** The pop that takes the last push away. */
  predicate InstallsAgain(s: State, op: Op) {
    (op.PopRoot? && s.rootPushes <= 1 && s.fvwmPushes == 0) ||
    (op.PopFvwm? && s.fvwmPushes <= 1 && s.rootPushes == 0)
  }

  predicate Ok(x: World, s: State) {
    && s.lastCmap == s.installed
    && (s.rootPushes > 0 && s.fvwmPushes == 0 ==> s.lastCmap == x.defaultMap)
    && (s.rootPushes == 0 && s.fvwmPushes > 0 ==> s.lastCmap == x.pcmap)
    && (s.rootPushes > 0 && s.fvwmPushes > 0 ==> s.lastCmap == x.defaultMap || s.lastCmap == x.pcmap)
    && (s.rootPushes == 0 && s.fvwmPushes == 0 && s.pushedWindow.Some? ==>
          WindowMap(x, s.pushedWindow.value) in {None, Some(s.lastCmap)})
  }

  const START := State(0, 0, 0, 0, None)

  lemma InstallWindowIs(x: World, s: State, w: Option<Win>)
    ensures var t := InstallWindow(x, s, w);
            && t == s.(lastCmap := t.lastCmap, installed := t.installed, pushedWindow := Some(Requested(x, w)))
            && (s.lastCmap == s.installed ==> t.lastCmap == t.installed)
            && (s.rootPushes > 0 || s.fvwmPushes > 0 ==> t.lastCmap == s.lastCmap)
            && (s.rootPushes == 0 && s.fvwmPushes == 0 ==>
                  WindowMap(x, Requested(x, w)) in {None, Some(t.lastCmap)})
  {
    ListedEndsWithFirst(x, s.(pushedWindow := Some(Requested(x, w))), Requested(x, w).cmapWindows);
  }

  lemma StepKeepsOk(x: World, s: State, op: Op)
    requires Ok(x, s)
    ensures Ok(x, Step(x, s, op))
  {
    match op
    case Request(w) => InstallWindowIs(x, s, w);
    case PopRoot =>
      InstallWindowIs(x, s.(rootPushes := if s.rootPushes > 0 then s.rootPushes - 1 else 0), s.pushedWindow);
    case PopFvwm =>
      InstallWindowIs(x, s.(fvwmPushes := if s.fvwmPushes > 0 then s.fvwmPushes - 1 else 0), s.pushedWindow);
    case _ =>
  }

  function Pushes(ops: seq<Op>, root: bool): nat {
    if ops == [] then 0
    else
      var n := |ops| - 1;
      var p := Pushes(ops[..n], root);
      match ops[n]
      case PushRoot => if root then p + 1 else p
      case PushFvwm => if root then p else p + 1
      case PopRoot => if root && p > 0 then p - 1 else p
      case PopFvwm => if !root && p > 0 then p - 1 else p
      case Request(_) => p
  }

  /** After any run from the start, `lastCmap` is the map of the latest
      XInstallColormap call; with only root pushes left it is the default map, with
      only fvwm pushes left Pcmap, with both one of these, and with none the map of
      the window that was asked for last, even if that was while maps were pushed.
      (A window in its own list whose listed windows are all unknown changes
      nothing.) */
  lemma {:induction false} RunKeepsMap(x: World, ops: seq<Op>)
    ensures var s := Run(x, START, ops);
            && Ok(x, s) && s.lastCmap == s.installed
            && (s.rootPushes > 0 && s.fvwmPushes == 0 ==> s.installed == x.defaultMap)
            && (s.rootPushes == 0 && s.fvwmPushes > 0 ==> s.installed == x.pcmap)
            && (s.rootPushes > 0 && s.fvwmPushes > 0 ==> s.installed == x.defaultMap || s.installed == x.pcmap)
            && s.rootPushes == Pushes(ops, true) && s.fvwmPushes == Pushes(ops, false)
            && s.pushedWindow == LastRequest(x, START, ops)
  {
    if ops != [] {
      var n := |ops| - 1;
      RunKeepsMap(x, ops[..n]);
      StepKeepsOk(x, Run(x, START, ops[..n]), ops[n]);
      StepTracks(x, Run(x, START, ops[..n]), ops[n]);
    }
  }

  lemma {:induction false} LastRequestOf(x: World, before: seq<Op>, w: Option<Win>, after: seq<Op>)
    requires forall k :: 0 <= k < |after| ==> !after[k].Request?
    ensures LastRequest(x, START, before + [Request(w)] + after) == Some(Requested(x, w))
    decreases |after|
  {
    var ops, n := before + [Request(w)] + after, |before| + |after|;
    if after == [] {
      assert ops == before + [Request(w)];
    } else {
      assert ops[..n] == before + [Request(w)] + after[..|after| - 1];
      LastRequestOf(x, before, w, after[..|after| - 1]);
    }
  }

  /** No request is lost: whatever is pushed and popped after it, once nothing is
      pushed the map is that of the window. */
  lemma RequestSurvives(x: World, before: seq<Op>, w: Option<Win>, after: seq<Op>)
    requires forall k :: 0 <= k < |after| ==> !after[k].Request?
    ensures var s, fw := Run(x, START, before + [Request(w)] + after), if w.Some? then w.value else x.root;
            var ws := fw.cmapWindows;
            s.rootPushes == 0 && s.fvwmPushes == 0 ==>
              && (fw.id !in ws ==> s.installed == fw.colormap)
              && (forall k | 0 <= k < |ws| && fw.id in ws && ws[k] in x.attributes &&
                    (forall j | 0 <= j < k :: ws[j] !in x.attributes) :: s.installed == x.attributes[ws[k]])
  {
    LastRequestOf(x, before, w, after);
    RunKeepsMap(x, before + [Request(w)] + after);
    var fw := if w.Some? then w.value else x.root;
    var ws := fw.cmapWindows;
    hide Run, LastRequest, Pushes, FirstKnown;
    forall k | 0 <= k < |ws| && ws[k] in x.attributes && forall j | 0 <= j < k :: ws[j] !in x.attributes
      ensures FirstKnown(x, ws) == Some(x.attributes[ws[k]])
    {
      FirstKnownIs(x, ws, k);
    }
  }

  /** Without pushes, the map of a window is installed: its own if it is not in its
      list, else that of the first window of the list that the server knows, if any. */
  lemma InstallsMapOf(x: World, s: State, w: Option<Win>)
    requires s.rootPushes == 0 && s.fvwmPushes == 0
    ensures var fw, t := if w.Some? then w.value else x.root, InstallWindow(x, s, w);
            var ws := fw.cmapWindows;
            && (fw.id !in ws ==> t.lastCmap == fw.colormap)
            && (forall k | 0 <= k < |ws| && fw.id in ws && ws[k] in x.attributes &&
                  (forall j | 0 <= j < k :: ws[j] !in x.attributes) :: t.lastCmap == x.attributes[ws[k]])
            && (fw.id in ws && (forall j | 0 <= j < |ws| :: ws[j] !in x.attributes) ==> t.lastCmap == s.lastCmap)
  {
    var fw := if w.Some? then w.value else x.root;
    var ws := fw.cmapWindows;
    ListedEndsWithFirst(x, s.(pushedWindow := Some(fw)), ws);
    forall k | 0 <= k < |ws| && ws[k] in x.attributes && forall j | 0 <= j < k :: ws[j] !in x.attributes
      ensures FirstKnown(x, ws) == Some(x.attributes[ws[k]])
    {
      FirstKnownIs(x, ws, k);
    }
    if forall j | 0 <= j < |ws| :: ws[j] !in x.attributes {
      FirstKnownIs(x, ws, |ws|);
    }
    hide FirstKnown;
  }

  lemma {:induction false} FirstKnownIs(x: World, ws: seq<Window>, k: nat)
    requires k <= |ws| && (k < |ws| ==> ws[k] in x.attributes)
    requires forall j | 0 <= j < k :: ws[j] !in x.attributes
    ensures FirstKnown(x, ws) == if k == |ws| then None else Some(x.attributes[ws[k]])
  {
    if k > 0 {
      FirstKnownIs(x, ws[1..], k - 1);
    }
  }

  /** While both are pushed, the map is the one that was pushed last, whatever is
      requested and popped in between. */
  lemma {:induction false} LastPushCounts(x: World, before: seq<Op>, op: Op, after: seq<Op>)
    requires op.PushRoot? || op.PushFvwm?
    requires forall k | 0 <= k < |after| :: !after[k].PushRoot? && !after[k].PushFvwm?
    ensures var s := Run(x, START, before + [op] + after);
            s.rootPushes > 0 && s.fvwmPushes > 0 ==>
              s.lastCmap == s.installed == if op.PushRoot? then x.defaultMap else x.pcmap
    decreases |after|
  {
    var ops, n := before + [op] + after, |before| + |after|;
    RunKeepsMap(x, ops[..n]);
    var s := Run(x, START, ops[..n]);
    StepTracks(x, s, ops[n]);
    StepKeepsOk(x, s, ops[n]);
    if after == [] {
      assert ops[..n] == before && ops[n] == op;
    } else {
      assert ops[..n] == before + [op] + after[..|after| - 1];
      LastPushCounts(x, before, op, after[..|after| - 1]);
      if ops[n].Request? {
        InstallWindowIs(x, s, ops[n].w);
      }
    }
  }

  lemma StepTracks(x: World, s: State, op: Op)
    ensures var t := Step(x, s, op);
            && t.rootPushes == (match op case PushRoot => s.rootPushes + 1
                                         case PopRoot => if s.rootPushes > 0 then s.rootPushes - 1 else 0
                                         case _ => s.rootPushes)
            && t.fvwmPushes == (match op case PushFvwm => s.fvwmPushes + 1
                                         case PopFvwm => if s.fvwmPushes > 0 then s.fvwmPushes - 1 else 0
                                         case _ => s.fvwmPushes)
            && t.pushedWindow == (if op.Request? then Some(Requested(x, op.w))
                                  else if InstallsAgain(s, op) then Some(Requested(x, s.pushedWindow))
                                  else s.pushedWindow)
  {
    match op
    case Request(w) => InstallWindowIs(x, s, w);
    case PopRoot =>
      InstallWindowIs(x, s.(rootPushes := if s.rootPushes > 0 then s.rootPushes - 1 else 0), s.pushedWindow);
    case PopFvwm =>
      InstallWindowIs(x, s.(fvwmPushes := if s.fvwmPushes > 0 then s.fvwmPushes - 1 else 0), s.pushedWindow);
    case _ =>
  }
}

module Colormaps {
  import opened CStrings
  import opened ColormapSpec

  class Screen {
    const world: World
    var lastCmap: Colormap
    var rootPushes: nat
    var fvwmPushes: nat
    var pushedWindow: Option<Win>
    /** The argument of the latest XInstallColormap call. */
    ghost var installed: Colormap

    ghost function State(): State
      reads this
    {
      ColormapSpec.State.State(lastCmap, installed, rootPushes, fvwmPushes, pushedWindow)
    }

    constructor (world: World)
      ensures this.world == world && State() == START && Ok(world, State())
    {
      this.world := world;
      lastCmap, installed, rootPushes, fvwmPushes, pushedWindow := 0, 0, 0, 0, None;
    }

    method InstallMap(c: Colormap)
      modifies this
      ensures State() == Install(old(State()), c)
    {
      if lastCmap != c {
        lastCmap := c;
        installed := c;
      }
    }

    method InstallWindowColormaps(w: Option<Win>)
      modifies this
      ensures State() == InstallWindow(world, old(State()), w)
      ensures var fw := if w.Some? then w.value else world.root;
              var ws := fw.cmapWindows;
              && pushedWindow == Some(fw) && rootPushes == old(rootPushes) && fvwmPushes == old(fvwmPushes)
              && (old(lastCmap == installed) ==> lastCmap == installed)
              && if rootPushes > 0 || fvwmPushes > 0 then lastCmap == old(lastCmap)
                 else
                   && (fw.id !in ws ==> lastCmap == fw.colormap)
                   && (forall k | 0 <= k < |ws| && fw.id in ws && ws[k] in world.attributes &&
                         (forall j | 0 <= j < k :: ws[j] !in world.attributes) :: lastCmap == world.attributes[ws[k]])
                   && (fw.id in ws && (forall j | 0 <= j < |ws| :: ws[j] !in world.attributes) ==>
                         lastCmap == old(lastCmap))
    {
      InstallWindowIs(world, State(), w);
      if rootPushes == 0 && fvwmPushes == 0 {
        InstallsMapOf(world, State(), w);
      }
      hide InstallMaps, WindowMap, InstallListed, FirstKnown;

      var fw := if w.Some? then w.value else world.root;
      pushedWindow := Some(fw);
      if rootPushes > 0 || fvwmPushes > 0 {
        return;
      }
      InstallMapsOf(fw);
    }

    /** Installs the maps of the listed windows from the back, and the window's own map
        if it is not in its list. */
    method InstallMapsOf(fw: Win)
      modifies this
      ensures State() == InstallMaps(world, old(State()), fw)
    {
      ghost var t := State();
      var thisWinInstalled := false;
      var i := |fw.cmapWindows|;
      assert fw.cmapWindows[..i] == fw.cmapWindows;
      while i > 0
        invariant 0 <= i <= |fw.cmapWindows|
        invariant InstallListed(world, State(), fw.cmapWindows[..i]) == InstallListed(world, t, fw.cmapWindows)
        invariant thisWinInstalled == (fw.id in fw.cmapWindows[i..])
      {
        i := i - 1;
        ghost var listed := fw.cmapWindows[..i + 1];
        assert listed[..i] == fw.cmapWindows[..i];
        assert fw.cmapWindows[i..] == [fw.cmapWindows[i]] + fw.cmapWindows[i + 1..];
        if fw.cmapWindows[i] == fw.id {
          thisWinInstalled := true;
        }
        if fw.cmapWindows[i] in world.attributes {
          InstallMap(world.attributes[fw.cmapWindows[i]]);
        }
      }
      if !thisWinInstalled {
        InstallMap(fw.colormap);
      }
    }

    method InstallRootColormap()
      modifies this
      ensures State() == Step(world, old(State()), PushRoot)
      ensures lastCmap == world.defaultMap && pushedWindow == old(pushedWindow)
      ensures rootPushes == old(rootPushes) + 1 && fvwmPushes == old(fvwmPushes)
    {
      InstallMap(world.defaultMap);
      rootPushes := rootPushes + 1;
    }

    method UninstallRootColormap()
      modifies this
      ensures State() == Step(world, old(State()), PopRoot)
      ensures rootPushes == (if old(rootPushes) > 0 then old(rootPushes) - 1 else 0) && fvwmPushes == old(fvwmPushes)
      ensures rootPushes > 0 ==> lastCmap == old(lastCmap) && pushedWindow == old(pushedWindow)
      ensures rootPushes == 0 && fvwmPushes > 0 ==> lastCmap == world.pcmap && pushedWindow == old(pushedWindow)
      ensures rootPushes == 0 && fvwmPushes == 0 ==>
                pushedWindow == Some(if old(pushedWindow).Some? then old(pushedWindow).value else world.root)
    {
      if rootPushes > 0 {
        rootPushes := rootPushes - 1;
      }
      if rootPushes == 0 {
        if fvwmPushes == 0 {
          InstallWindowColormaps(pushedWindow);
        } else {
          InstallMap(world.pcmap);
        }
      }
    }

    method InstallFvwmColormap()
      modifies this
      ensures State() == Step(world, old(State()), PushFvwm)
      ensures lastCmap == world.pcmap && pushedWindow == old(pushedWindow)
      ensures rootPushes == old(rootPushes) && fvwmPushes == old(fvwmPushes) + 1
    {
      InstallMap(world.pcmap);
      fvwmPushes := fvwmPushes + 1;
    }

    method UninstallFvwmColormap()
      modifies this
      ensures State() == Step(world, old(State()), PopFvwm)
      ensures fvwmPushes == (if old(fvwmPushes) > 0 then old(fvwmPushes) - 1 else 0) && rootPushes == old(rootPushes)
      ensures fvwmPushes > 0 ==> lastCmap == old(lastCmap) && pushedWindow == old(pushedWindow)
      ensures fvwmPushes == 0 && rootPushes > 0 ==> lastCmap == world.defaultMap && pushedWindow == old(pushedWindow)
      ensures rootPushes == 0 && fvwmPushes == 0 ==>
                pushedWindow == Some(if old(pushedWindow).Some? then old(pushedWindow).value else world.root)
    {
      if fvwmPushes > 0 {
        fvwmPushes := fvwmPushes - 1;
      }
      if fvwmPushes == 0 {
        if rootPushes == 0 {
          InstallWindowColormaps(pushedWindow);
        } else {
          InstallMap(world.defaultMap);
        }
      }
    }
  }
}
