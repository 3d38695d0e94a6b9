/** The numbers that tell windows with equal titles apart (fvwm/add_window.c). */
module TitleSpec {
  import opened CStrings

  /** The title and the icon title of a window, each with its number. */
  datatype Labels = Labels(name: Option<string>, nameCount: nat, iconName: Option<string>, iconCount: nat)
  {
    predicate Uses(s: string, c: nat) {
      (name == Some(s) && nameCount == c) || (iconName == Some(s) && iconCount == c)
    }

    function Title(isIcon: bool): Option<string> { if isIcon then iconName else name }

    function Count(isIcon: bool): nat { if isIcon then iconCount else nameCount }

    function WithCount(isIcon: bool, c: nat): Labels {
      if isIcon then this.(iconCount := c) else this.(nameCount := c)
    }

    function WithTitle(isIcon: bool, t: Option<string>): Labels {
      if isIcon then this.(iconName := t) else this.(name := t)
    }

    /** The search starts at the present number when both titles are equal. */
    function Start(isIcon: bool): nat {
      if name.Some? && name == iconName then Count(isIcon) else 0
    }
  }

  /** Another window already has this title with this number. */
  predicate Taken(ws: seq<Labels>, i: nat, s: string, c: nat) {
    exists j :: 0 <= j < |ws| && j != i && ws[j].Uses(s, c)
  }

  /** All numbers in use are below this one. */
  function Bound(ws: seq<Labels>): (b: nat)
    ensures forall j :: 0 <= j < |ws| ==> ws[j].nameCount < b && ws[j].iconCount < b
  {
    if ws == [] then 0
    else
      var n := |ws| - 1;
      var b, l := Bound(ws[..n]), ws[n];
      var m := if l.nameCount < l.iconCount then l.iconCount else l.nameCount;
      assert forall j :: 0 <= j < n ==> ws[j] == ws[..n][j];
      if m < b then b else m + 1
  }

  ghost predicate IsLeastFree(ws: seq<Labels>, i: nat, s: string, start: nat, c: nat) {
    && start <= c && !Taken(ws, i, s, c)
    && (forall k: nat :: start <= k < c ==> Taken(ws, i, s, k))
  }

  function LeastFree(ws: seq<Labels>, i: nat, s: string, start: nat): (c: nat)
    ensures IsLeastFree(ws, i, s, start, c)
    decreases Bound(ws) - start
  {
    if Taken(ws, i, s, start) then LeastFree(ws, i, s, start + 1) else start
  }

  lemma LeastFreeIsUnique(ws: seq<Labels>, i: nat, s: string, start: nat, c: nat, d: nat)
    requires IsLeastFree(ws, i, s, start, c) && IsLeastFree(ws, i, s, start, d)
    ensures c == d
  {
    assert start <= c < d ==> Taken(ws, i, s, c);
    assert start <= d < c ==> Taken(ws, i, s, d);
  }

  /** The windows after window `i` got its number. */
  function Numbered(ws: seq<Labels>, i: nat, isIcon: bool): seq<Labels>
    requires i < |ws|
  {
    var l := ws[i];
    var c := if l.Title(isIcon).None? then 0
             else LeastFree(ws, i, l.Title(isIcon).value, l.Start(isIcon));
    ws[i := l.WithCount(isIcon, c)]
  }

  /** Window `i` takes a new title and then a number for it. */
  datatype Rename = Rename(i: nat, isIcon: bool, title: Option<string>)

  function Renamed(ws: seq<Labels>, r: Rename): (out: seq<Labels>)
    ensures |out| == |ws|
  {
    if r.i < |ws| then Numbered(ws[r.i := ws[r.i].WithTitle(r.isIcon, r.title)], r.i, r.isIcon) else ws
  }

  function Run(ws: seq<Labels>, rs: seq<Rename>): seq<Labels>
    decreases |rs|
  {
    if rs == [] then ws else Run(Renamed(ws, rs[0]), rs[1..])
  }

  /** No two windows share a title with the same number. */
  ghost predicate Distinct(ws: seq<Labels>) {
    forall i, j, s, c: nat :: 0 <= i < |ws| && 0 <= j < |ws| && i != j ==>
      !(ws[i].Uses(s, c) && ws[j].Uses(s, c))
  }

  lemma RenameKeepsDistinct(ws: seq<Labels>, r: Rename)
    requires Distinct(ws)
    ensures Distinct(Renamed(ws, r))
  {
    if r.i < |ws| {
      var mid := ws[r.i := ws[r.i].WithTitle(r.isIcon, r.title)];
      var out := Renamed(ws, r);
      forall j, s, c: nat | 0 <= j < |ws| && j != r.i && out[r.i].Uses(s, c)
        ensures !out[j].Uses(s, c)
      {
        assert mid[j] == ws[j] == out[j];
        if !ws[r.i].Uses(s, c) {
          assert r.title == Some(s) && !Taken(mid, r.i, s, c);
        }
      }
    }
  }

  /** Over any run of renamings, the labels of different windows differ. */
  lemma {:induction false} LabelsStayDistinct(ws: seq<Labels>, rs: seq<Rename>)
    requires Distinct(ws)
    ensures Distinct(Run(ws, rs))
    decreases |rs|
  {
    if rs != [] {
      RenameKeepsDistinct(ws, rs[0]);
      LabelsStayDistinct(Renamed(ws, rs[0]), rs[1..]);
    }
  }
}

module Titles {
  import opened CStrings
  import opened TitleSpec

  class FvwmWindow {
    var name: Option<string>
    var nameCount: nat
    var iconName: Option<string>
    var iconNameCount: nat

    function Labels(): Labels
      reads this
    {
      TitleSpec.Labels.Labels(name, nameCount, iconName, iconNameCount)
    }

    constructor ()
      ensures Labels() == TitleSpec.Labels.Labels(None, 0, None, 0)
    {
      name, nameCount, iconName, iconNameCount := None, 0, None, 0;
    }
  }

  class Screen {
    /** The window list, from Scr.FvwmRoot.next on. */
    var list: seq<FvwmWindow>

    constructor ()
      ensures Valid() && list == []
    {
      list := [];
    }

    ghost predicate Valid()
      reads this
    {
      forall i, j :: 0 <= i < j < |list| ==> list[i] != list[j]
    }

    ghost function State(): (s: seq<Labels>)
      reads this, list
      ensures |s| == |list| && forall i :: 0 <= i < |s| ==> s[i] == list[i].Labels()
    {
      seq(|list|, i requires 0 <= i < |list| reads this, list => list[i].Labels())
    }

    /** Another window shows the title with this number, as its title or its icon title. */
    ghost predicate InUse(fw: FvwmWindow, s: string, c: nat)
      reads this, list
    {
      exists t :: t in list && t != fw &&
                  ((t.name == Some(s) && t.nameCount == c) || (t.iconName == Some(s) && t.iconNameCount == c))
    }

    /** No two windows show the same title with the same number. */
    ghost predicate AllDiffer()
      reads this, list
    {
      forall t, u | t in list && u in list && t != u ::
        && (t.name.Some? ==> !(t.name == u.name && t.nameCount == u.nameCount))
        && (t.name.Some? ==> !(t.name == u.iconName && t.nameCount == u.iconNameCount))
        && (t.iconName.Some? ==> !(t.iconName == u.iconName && t.iconNameCount == u.iconNameCount))
    }

    lemma TakenIsInUse(fw: FvwmWindow, at: nat, s: string, c: nat)
      requires Valid() && at < |list| && list[at] == fw
      ensures Taken(State(), at, s, c) <==> InUse(fw, s, c)
    {
      if Taken(State(), at, s, c) {
        var j :| 0 <= j < |list| && j != at && State()[j].Uses(s, c);
        assert list[j] in list;
      }
    }

    lemma DistinctIsDifferent()
      requires Valid()
      ensures Distinct(State()) <==> AllDiffer()
    {
      var ws := State();
      if AllDiffer() {
        forall i, j, s, c: nat | 0 <= i < |ws| && 0 <= j < |ws| && i != j
          ensures !(ws[i].Uses(s, c) && ws[j].Uses(s, c))
        {
          assert list[i] in list && list[j] in list && list[i] != list[j];
        }
      }
      if Distinct(ws) {
        forall t, u | t in list && u in list && t != u
          ensures t.name.Some? ==> !(t.name == u.name && t.nameCount == u.nameCount)
          ensures t.name.Some? ==> !(t.name == u.iconName && t.nameCount == u.iconNameCount)
          ensures t.iconName.Some? ==> !(t.iconName == u.iconName && t.iconNameCount == u.iconNameCount)
        {
          var i, j :| 0 <= i < |list| && 0 <= j < |list| && list[i] == t && list[j] == u;
          assert t.name.Some? ==> ws[i].Uses(t.name.value, t.nameCount);
          assert t.iconName.Some? ==> ws[i].Uses(t.iconName.value, t.iconNameCount);
        }
      }
    }

    /** One pass over the other windows: each that has the title with the present
        number makes the number go up. */
    method Pass(fw: FvwmWindow, title: string, isIcon: bool, start: nat, before: nat, ghost at: nat)
      returns (count: nat)
      requires Valid() && at < |list| && list[at] == fw && start <= before
      requires forall k: nat :: start <= k < before ==> Taken(State(), at, title, k)
      ensures before <= count && forall k: nat :: start <= k < count ==> Taken(State(), at, title, k)
      ensures if count == before then !Taken(State(), at, title, count) else count <= Bound(State())
    {
      ghost var ws := State();
      hide Taken, Bound, Distinct;
      count := before;
      for i := 0 to |list|
        invariant before <= count && State() == ws
        invariant forall k: nat :: start <= k < count ==> Taken(ws, at, title, k)
        invariant if count == before then forall j :: 0 <= j < i && j != at ==> !ws[j].Uses(title, count)
                  else count <= Bound(ws)
      {
        var t := list[i];
        if t != fw {
          var winCount := if isIcon then t.iconNameCount else t.nameCount;
          var winCounterpart := if isIcon then t.nameCount else t.iconNameCount;
          var tTitle := if isIcon then t.iconName else t.name;
          var tCounterpart := if isIcon then t.name else t.iconName;
          if (tTitle.Some? && title == tTitle.value && winCount == count)
             || (tCounterpart.Some? && tCounterpart.value == title && winCounterpart == count)
          {
            assert ws[i].Uses(title, count);
            IsTaken(ws, at, i, title, count);
            count := count + 1;
          }
        }
      }
      if count == before {
        NotTaken(ws, at, title, count);
      }
    }

    lemma IsTaken(ws: seq<Labels>, at: nat, i: nat, s: string, c: nat)
      requires i < |ws| && i != at && ws[i].Uses(s, c)
      ensures Taken(ws, at, s, c) && c < Bound(ws)
    {
    }

    lemma NotTaken(ws: seq<Labels>, at: nat, s: string, c: nat)
      requires forall j :: 0 <= j < |ws| && j != at ==> !ws[j].Uses(s, c)
      ensures !Taken(ws, at, s, c)
    {
    }

    /** setup_name_count(): numbers the title or icon title of the window at
        place `at` of the list. */
    method SetupNameCount(fw: FvwmWindow, isIcon: bool, ghost at: nat)
      requires Valid() && at < |list| && list[at] == fw
      modifies fw
      ensures Valid() && State() == Numbered(old(State()), at, isIcon)
      ensures fw.Labels() == old(fw.Labels()).WithCount(isIcon, fw.Labels().Count(isIcon))
      ensures var was := old(fw.Labels());
              if was.Title(isIcon).None? then fw.Labels().Count(isIcon) == 0
              else IsLeastFree(old(State()), at, was.Title(isIcon).value, was.Start(isIcon), fw.Labels().Count(isIcon))
      // said of the fields: the least number that no other window shows the title with, from
      // the present one on if the title and the icon title are equal
      ensures fw.name == old(fw.name) && fw.iconName == old(fw.iconName)
      ensures if isIcon then fw.nameCount == old(fw.nameCount) else fw.iconNameCount == old(fw.iconNameCount)
      ensures var title := if isIcon then fw.iconName else fw.name;
              var count := if isIcon then fw.iconNameCount else fw.nameCount;
              var start := if fw.name != fw.iconName then 0
                           else if isIcon then old(fw.iconNameCount) else old(fw.nameCount);
              if title.None? then count == 0
              else start <= count && !InUse(fw, title.value, count) &&
                   forall k: nat | start <= k < count :: InUse(fw, title.value, k)
    {
      ghost var ws := State();
      var title := if isIcon then fw.iconName else fw.name;
      var counterpart := if isIcon then fw.name else fw.iconName;
      var count: nat := 0;
      if title.Some? {
        if counterpart.Some? && title.value == counterpart.value {
          count := if isIcon then fw.iconNameCount else fw.nameCount;
        }
        ghost var start := count;
        count := FreeCount(fw, title.value, isIcon, count, at);
        LeastFreeIsUnique(ws, at, title.value, start, count, LeastFree(ws, at, title.value, start));
      }
      if isIcon {
        fw.iconNameCount := count;
      } else {
        fw.nameCount := count;
      }
      assert State() == Numbered(ws, at, isIcon);
      if title.Some? {
        forall k: nat
          ensures InUse(fw, title.value, k) <==> Taken(ws, at, title.value, k)
        {
          TakenIsInUse(fw, at, title.value, k);
          OwnCount(ws, at, fw.Labels(), title.value, k);
        }
      }
    }

    /** The number of the window itself does not count. */
    lemma OwnCount(ws: seq<Labels>, at: nat, l: Labels, s: string, k: nat)
      requires at < |ws|
      ensures Taken(ws[at := l], at, s, k) <==> Taken(ws, at, s, k)
    {
      var us := ws[at := l];
      assert forall j :: 0 <= j < |ws| && j != at ==> us[j] == ws[j];
      if j :| 0 <= j < |ws| && j != at && ws[j].Uses(s, k) {
        assert us[j].Uses(s, k);
      }
    }

    /** Repeats the pass until no window makes the number go up. */
    method FreeCount(fw: FvwmWindow, title: string, isIcon: bool, start: nat, ghost at: nat) returns (count: nat)
      requires Valid() && at < |list| && list[at] == fw
      ensures IsLeastFree(State(), at, title, start, count)
    {
      hide Taken, Bound;
      count := start;
      var done := false;
      while !done
        invariant start <= count && forall k: nat :: start <= k < count ==> Taken(State(), at, title, k)
        invariant done ==> !Taken(State(), at, title, count)
        decreases if done then 0 else 1, Bound(State()) - count
      {
        var before := count;
        count := Pass(fw, title, isIcon, start, before, at);
        done := count == before;
      }
    }

    /** A client renames its window, which is then numbered. */
    method ChangeTitle(fw: FvwmWindow, isIcon: bool, title: Option<string>, ghost at: nat)
      requires Valid() && at < |list| && list[at] == fw
      modifies fw
      ensures Valid() && State() == Renamed(old(State()), Rename(at, isIcon, title))
      ensures old(Distinct(State())) ==> Distinct(State())
      ensures fw.name == (if isIcon then old(fw.name) else title)
      ensures fw.iconName == (if isIcon then title else old(fw.iconName))
      ensures old(AllDiffer()) ==> AllDiffer()
    {
      DistinctIsDifferent();
      if Distinct(State()) {
        RenameKeepsDistinct(State(), Rename(at, isIcon, title));
      }
      ghost var ws := State();
      if isIcon {
        fw.iconName := title;
      } else {
        fw.name := title;
      }
      assert State() == ws[at := ws[at].WithTitle(isIcon, title)];
      SetupNameCount(fw, isIcon, at);
      DistinctIsDifferent();
      hide *;
    }
  }
}
