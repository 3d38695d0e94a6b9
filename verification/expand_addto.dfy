/** When the room that is reserved for a line is enough for every environment,
    although its groups are skipped in one pass and scanned in the other
    (fvwm/expand.c). */
module ExpandAddto {
  import opened CStrings
  import opened ExpandArgs
  import opened ExpandSpec
  import opened ExpandTheorems

  /** How much longer the text gets. */
  function Growth(s: string, env: Env): int { |Meaning(s, env, true)| - |s| }

  /** How much a form with this letter grows by, and what is reserved for that. */
  function Grows(c: char, env: Env): int {
    if c == '$' then -1
    else if c == '*' || IsDigit(c) then
      var t := PosArg(c, env);
      if t.Some? then |t.value| - 2 else 0
    else if c == '.' then if env.readDir.Some? then QuotedRoom(env.readDir) else 0
    else if c == 'w' then if env.win.Some? then |Hex(env.win.value.id)| else 0
    else if c == 'd' then |Dec(env.desk)| - 2
    else if c == 'x' then |Dec(env.vx)| - 2
    else if c == 'y' then |Dec(env.vy)| - 2
    else if c == 'c' || c == 'r' || c == 'n' then QuotedRoom(WinText(c, env))
    else if c == 'v' then |OrEmpty(env.version)| - 2
    else 0
  }

  function Reserves(c: char, env: Env): int {
    if c == '*' || IsDigit(c) then
      var t := PosArg(c, env);
      if t.Some? then |t.value| - 2 else 0
    else if c == '.' then QuotedRoom(env.readDir)
    else if c == 'w' || c == 'd' || c == 'x' || c == 'y' then 16
    else if c == 'c' || c == 'r' || c == 'n' then QuotedRoom(WinText(c, env))
    else if c == 'v' then
      (if env.win.Some? then QuotedRoom(env.win.value.visibleName) else 0)
      + (if env.version.Some? then |env.version.value| + 2 else 0)
    else 0
  }

  /** A form of two characters. */
  predicate IsPair(s: string, env: Env) { IsForm(s, env) && |s| >= 2 }

  lemma HeadIs(s: string, env: Env)
    requires s != ""
    ensures var h := Head(s, env, true);
            && (!IsPair(s, env) ==> |h.text| == h.used == 1)
            && (IsPair(s, env) ==> (h.used == 2 && |h.text| == 2 + Grows(s[1], env)) ||
                                   (h.used == |h.text| == 1 && Grows(s[1], env) == 0 && s[1] != '$'))
  {
    if IsPair(s, env) {
      QuotedLengths(s[1], env);
    }
    hide Quoted, QuotedRoom, Dec, Numeral;
  }

  lemma MeaningStep(s: string, env: Env)
    requires s != ""
    ensures var h := Head(s, env, true);
            |Meaning(s, env, true)| == |h.text| + |Meaning(s[h.used..], env, true)|
  {
    hide Head;
  }

  lemma GrowthStep(s: string, env: Env)
    requires s != ""
    ensures !IsPair(s, env) ==> Growth(s, env) == Growth(s[1..], env)
    ensures IsPair(s, env) ==> Growth(s, env) == Grows(s[1], env) + Growth(s[2..], env)
  {
    HeadIs(s, env);
    MeaningStep(s, env);
    if IsPair(s, env) && s[1] != '$' {
      TextStep(s[1..], env, true);
      assert s[1..][1..] == s[2..];
    }
    hide Head, Meaning, Grows, IsForm;
  }

  lemma QuotedLengths(c: char, env: Env)
    ensures env.readDir.Some? ==> |Quoted(env.readDir.value)| == 2 + QuotedRoom(env.readDir)
    ensures WinText(c, env).Some? ==> |Quoted(WinText(c, env).value)| == 2 + QuotedRoom(WinText(c, env))
  {
    if env.readDir.Some? {
      QuotesFit(env.readDir.value);
    }
    if WinText(c, env).Some? {
      QuotesFit(WinText(c, env).value);
    }
  }

  lemma ReserveIs(s: string, env: Env)
    requires s != "" && !ClosedGroup(s, env)
    ensures var r := Reserve(s, env, true);
            && (!IsPair(s, env) ==> r == Room(0, 1))
            && (IsPair(s, env) ==> r.extra == Reserves(s[1], env) && (r.used == 2 || (r.used == 1 && s[1] != '$')))
  {
    hide QuotedRoom, Group;
  }

  lemma RoomStep(s: string, env: Env)
    requires s != ""
    ensures var r := Reserve(s, env, true);
            Extra(s, env, true) == r.extra + Extra(s[r.used..], env, true)
  {
    hide Reserve;
  }

  lemma ExtraStep(s: string, env: Env)
    requires s != ""
    ensures ClosedGroup(s, env) ==> Extra(s, env, true) == Extra(s[Group(s).value + 1..], env, true)
    ensures !ClosedGroup(s, env) && !IsPair(s, env) ==> Extra(s, env, true) == Extra(s[1..], env, true)
    ensures !ClosedGroup(s, env) && IsPair(s, env) ==>
              Extra(s, env, true) == Reserves(s[1], env) + Extra(s[2..], env, true)
  {
    RoomStep(s, env);
    if ClosedGroup(s, env) {
      assert Reserve(s, env, true) == Room(0, Group(s).value + 1);
    } else {
      ReserveIs(s, env);
      if IsPair(s, env) && s[1] != '$' {
        SkipText(s, env, true);
      }
    }
    hide Reserve, Extra, Reserves, IsForm, Group;
  }

  /** How far the text exceeds the reserved room. */
  function Excess(s: string, env: Env): int { Growth(s, env) - Extra(s, env, true) }

  lemma ExcessStep(s: string, env: Env)
    requires s != ""
    ensures ClosedGroup(s, env) ==>
              var t := s[Group(s).value + 1..];
              Excess(s, env) == (Growth(s, env) - Growth(t, env)) + Excess(t, env)
    ensures !ClosedGroup(s, env) && !IsPair(s, env) ==> Excess(s, env) == Excess(s[1..], env)
    ensures !ClosedGroup(s, env) && IsPair(s, env) ==>
              Excess(s, env) == Grows(s[1], env) - Reserves(s[1], env) + Excess(s[2..], env)
  {
    GrowthStep(s, env);
    ExtraStep(s, env);
    hide Growth, Extra, Grows, Reserves, Group, IsForm;
  }

  lemma NoExcess(env: Env)
    ensures Excess("", env) == 0
  {
  }

  // ----- forms whose text has no bound

  predicate IsOpen(c: char) {
    c == '*' || IsDigit(c) || c == '.' || c == 'c' || c == 'r' || c == 'n' || c == 'v'
  }

  /** Such a form is among the first `n` characters. */
  predicate OpenIn(s: string, n: nat, env: Env)
    requires n <= |s|
  {
    if n == 0 then false
    else if !IsPair(s, env) then OpenIn(s[1..], n - 1, env)
    else n > 1 && (IsOpen(s[1]) || OpenIn(s[2..], n - 2, env))
  }

  /** Such a form is in a closed group, which the first pass skips. */
  predicate HasOpen(s: string, env: Env) {
    if s == "" then false
    else if ClosedGroup(s, env) then
      OpenIn(s, Group(s).value + 1, env) || HasOpen(s[Group(s).value + 1..], env)
    else HasOpen(s[if IsPair(s, env) then 2 else 1..], env)
  }

  // ----- the worst environment for the other forms

  function Worst(ismod: bool): (env: Env)
    ensures env.ismod == ismod && env.plusAdds
  {
    Env(ismod, true, None, None, [], None, Some(Win(0xffff_ffff, None, None, None, None)), None,
        -0x8000_0000, -0x8000_0000, -0x8000_0000, _ => Unknown)
  }

  lemma LongNumbers()
    ensures |Hex(0xffff_ffff)| == 8 && |Dec(-0x8000_0000)| == 11
  {
    assert |Numeral(0xffff, 16)| == 4;
    assert |Numeral(0xfff_ffff, 16)| == 7;
    assert |Numeral(214748, 10)| == 6;
    assert |Numeral(2147483648, 10)| == 10;
  }

  lemma NoFormIsWorse(c: char, env: Env)
    ensures var worst := Worst(env.ismod);
            && Grows(c, env) - Reserves(c, env) <= Grows(c, worst) - Reserves(c, worst)
            && (!IsOpen(c) ==> Grows(c, env) <= Grows(c, worst))
  {
    LongNumbers();
    NumbersFit(env.desk, if env.win.Some? then env.win.value.id else 0);
    NumbersFit(env.vx, 0);
    NumbersFit(env.vy, 0);
    hide Numeral, CountQuotes;
  }

  lemma {:induction false} GroupBelowWorst(s: string, n: nat, env: Env)
    requires n <= |s| && (n > 0 ==> s[n - 1] == ']') && !OpenIn(s, n, env)
    ensures var worst := Worst(env.ismod);
            Growth(s, env) - Growth(s[n..], env) <= Growth(s, worst) - Growth(s[n..], worst)
    decreases n
  {
    var worst := Worst(env.ismod);
    hide Growth, Grows, IsOpen, Worst;
    if n == 0 {
      assert s[0..] == s;
    } else {
      GrowthStep(s, env);
      GrowthStep(s, worst);
      var k := if IsPair(s, env) then 2 else 1;
      assert s[k..][n - k..] == s[n..];
      NoFormIsWorse(s[if k == 2 then 1 else 0], env);
      GroupBelowWorst(s[k..], n - k, env);
    }
  }

  lemma {:induction false} LineBelowWorst(s: string, env: Env)
    requires !HasOpen(s, env)
    ensures Excess(s, env) <= Excess(s, Worst(env.ismod))
  {
    var worst := Worst(env.ismod);
    hide Growth, Grows, Reserves, Group, OpenIn, Worst;
    if s != "" {
      ExcessStep(s, env);
      ExcessStep(s, worst);
      hide Excess;
      if ClosedGroup(s, env) {
        var n := Group(s).value + 1;
        GroupBelowWorst(s, n, env);
        LineBelowWorst(s[n..], env);
      } else if IsPair(s, env) {
        NoFormIsWorse(s[1], env);
        LineBelowWorst(s[2..], env);
      } else {
        LineBelowWorst(s[1..], env);
      }
    } else {
      NoExcess(env);
      NoExcess(worst);
    }
  }

  // ----- an environment with long texts

  function Long(ismod: bool, n: nat): (env: Env)
    ensures env.ismod == ismod && env.plusAdds
  {
    var t: CStr := Letters(n);
    Env(ismod, true, Some(t), None, seq(10, _ => Some(t)), Some(t), Some(Win(0, Some(t), Some(t), Some(t), None)),
        Some(t), 0, 0, 0, _ => Unknown)
  }

  function Letters(n: nat): (t: CStr)
    ensures |t| == n
  {
    seq(n, _ => 'a')
  }

  lemma LongForms(c: char, ismod: bool, n: nat)
    requires n > 0
    ensures var env := Long(ismod, n);
            && Grows(c, env) >= (if IsOpen(c) then n - 2 else -1)
            && Grows(c, env) - Reserves(c, env) >= -17
  {
  }

  lemma {:induction false} LongGroup(s: string, n: nat, ismod: bool, length: nat)
    requires length > 0 && n <= |s| && (n > 0 ==> s[n - 1] == ']')
    ensures var env := Long(ismod, length);
            Growth(s, env) - Growth(s[n..], env) >= (if OpenIn(s, n, env) then length else 0) - 17 * n
    decreases n
  {
    var env := Long(ismod, length);
    hide Growth, Grows, IsOpen, Long;
    if n == 0 {
      assert s[0..] == s;
    } else {
      GrowthStep(s, env);
      var k := if IsPair(s, env) then 2 else 1;
      assert s[k..][n - k..] == s[n..];
      LongForms(s[if k == 2 then 1 else 0], ismod, length);
      LongGroup(s[k..], n - k, ismod, length);
    }
  }

  lemma {:induction false} LongLine(s: string, ismod: bool, length: nat)
    requires length > 0
    ensures var env := Long(ismod, length);
            Excess(s, env) >= (if HasOpen(s, env) then length else 0) - 17 * |s|
  {
    var env := Long(ismod, length);
    hide Growth, Grows, Reserves, Group, OpenIn, Long;
    if s != "" {
      ExcessStep(s, env);
      hide Excess;
      if ClosedGroup(s, env) {
        var n := Group(s).value + 1;
        LongGroup(s, n, ismod, length);
        LongLine(s[n..], ismod, length);
      } else if IsPair(s, env) {
        LongForms(s[1], ismod, length);
        LongLine(s[2..], ismod, length);
      } else {
        LongLine(s[1..], ismod, length);
      }
    } else {
      NoExcess(env);
    }
  }

  lemma {:induction false} SameOpenIn(s: string, n: nat, env: Env, env': Env)
    requires env.ismod == env'.ismod && n <= |s|
    ensures OpenIn(s, n, env) == OpenIn(s, n, env')
    decreases n
  {
    hide IsOpen;
    if n > 0 {
      assert IsPair(s, env) == IsPair(s, env');
      if !IsPair(s, env) {
        SameOpenIn(s[1..], n - 1, env, env');
      } else if n > 1 {
        SameOpenIn(s[2..], n - 2, env, env');
      }
    }
  }

  lemma {:induction false} SameForms(s: string, env: Env, env': Env)
    requires env.ismod == env'.ismod
    ensures HasOpen(s, env) == HasOpen(s, env')
  {
    hide OpenIn, Group;
    if s != "" {
      assert IsPair(s, env) == IsPair(s, env') && ClosedGroup(s, env) == ClosedGroup(s, env');
      if ClosedGroup(s, env) {
        SameOpenIn(s, Group(s).value + 1, env, env');
        SameForms(s[Group(s).value + 1..], env, env');
      } else {
        SameForms(s[if IsPair(s, env) then 2 else 1..], env, env');
      }
    }
  }

  /** No closed group has a form without bound, and the buffer is long enough in the
      environment with the longest numbers and nothing else. */
  predicate AlwaysEnough(s: string, ismod: bool) { !HasOpen(s, Worst(ismod)) && IsEnough(s, Worst(ismod)) }

  /** With addto on, the buffer for a line is long enough in every environment exactly
      under that condition; the environments in which a `+` adds are enough. */
  lemma EnoughForAllIff(s: string, ismod: bool)
    ensures (forall env: Env :: env.ismod == ismod ==> IsEnough(s, env)) <==> AlwaysEnough(s, ismod)
    ensures (forall env: Env :: env.ismod == ismod && env.plusAdds ==> IsEnough(s, env)) <==> AlwaysEnough(s, ismod)
  {
    if forall env: Env :: env.ismod == ismod && env.plusAdds ==> IsEnough(s, env) {
      var env := Long(ismod, 17 * |s| + 1);
      LongLine(s, ismod, 17 * |s| + 1);
      SameForms(s, Worst(ismod), env);
      assert IsEnough(s, env);
    }
    if AlwaysEnough(s, ismod) {
      forall env: Env | env.ismod == ismod
        ensures IsEnough(s, env)
      {
        SameForms(s, Worst(ismod), env);
        LineBelowWorst(s, env);
      }
    }
  }

  // ----- the same for lines with addto off

  /** No name in a group that starts with `+` has a buffer that can be too short. */
  predicate AlwaysSafe(s: string, ismod: bool)
    decreases |s|, 1
  {
    if s != "" && s[0] == '+' then AlwaysEnough(s, ismod) else AlwaysSafeGroups(s, ismod)
  }

  predicate AlwaysSafeGroups(s: string, ismod: bool)
    decreases |s|, 0
  {
    var env := Worst(ismod);
    if s == "" then true
    else if ClosedGroup(s, env) then
      var m := Group(s).value;
      ('$' in s[2..m] ==> AlwaysSafe(s[2..m], ismod)) && AlwaysSafeGroups(s[m + 1..], ismod)
    else AlwaysSafeGroups(s[if IsPair(s, env) then 2 else 1..], ismod)
  }

  lemma SafeGroupsStep(s: string, env: Env)
    requires s != ""
    ensures ClosedGroup(s, env) ==>
              var m := Group(s).value;
              (SafeGroups(s, env) <==>
                 ('$' in s[2..m] ==> Safe(s[2..m], env, false)) && SafeGroups(s[m + 1..], env))
    ensures !ClosedGroup(s, env) ==>
              SafeGroups(s, env) == SafeGroups(s[if IsPair(s, env) then 2 else 1..], env)
  {
    var r := Reserve(s, env, false);
    if ClosedGroup(s, env) {
      assert r.used == Group(s).value + 1;
    } else {
      assert r.used == Reserve(s, env, true).used;
      ReserveIs(s, env);
      if IsPair(s, env) && r.used == 1 {
        SkipText(s, env, false);
      }
    }
    hide Reserve, Group, Safe, IsForm;
  }

  lemma SameKinds(s: string, env: Env, w: Env)
    requires env.ismod == w.ismod
    ensures IsPair(s, env) == IsPair(s, w) && ClosedGroup(s, env) == ClosedGroup(s, w)
  {
    hide Group;
  }

  ghost predicate SafeForAll(s: string, ismod: bool) {
    forall env: Env :: env.ismod == ismod ==> Safe(s, env, false)
  }

  ghost predicate GroupsSafeForAll(s: string, ismod: bool) {
    forall env: Env :: env.ismod == ismod ==> SafeGroups(s, env)
  }

  /** With addto off, no buffer overflows in any environment exactly if none can for a
      name that starts with `+`, at any nesting depth. */
  lemma {:induction false} SafeForAllIff(s: string, ismod: bool)
    ensures SafeForAll(s, ismod) <==> AlwaysSafe(s, ismod)
    decreases |s|, 1
  {
    if s != "" && s[0] == '+' {
      EnoughForAllIff(s, ismod);
      PlusIsEnough(s, ismod);
    } else {
      GroupsSafeForAllIff(s, ismod);
      assert forall env: Env :: Safe(s, env, false) == SafeGroups(s, env);
    }
  }

  lemma PlusIsEnough(s: string, ismod: bool)
    requires s != "" && s[0] == '+'
    ensures SafeForAll(s, ismod) <==> forall env: Env :: env.ismod == ismod && env.plusAdds ==> IsEnough(s, env)
  {
    forall env: Env
      ensures Safe(s, env, false) <==> (env.plusAdds ==> IsEnough(s, env))
    {
      if !env.plusAdds {
        SafeWithoutPlus(s, env);
      }
    }
    hide IsEnough, Safe;
  }

  lemma {:induction false} GroupsSafeForAllIff(s: string, ismod: bool)
    ensures GroupsSafeForAll(s, ismod) <==> AlwaysSafeGroups(s, ismod)
    decreases |s|, 0
  {
    if s != "" {
      var w := Worst(ismod);
      var k := if ClosedGroup(s, w) then Group(s).value + 1 else if IsPair(s, w) then 2 else 1;
      GroupsSafeForAllIff(s[k..], ismod);
      if ClosedGroup(s, w) {
        SafeForAllIff(s[2..k - 1], ismod);
      }
      var inGroup := ClosedGroup(s, w) && '$' in s[2..k - 1];
      var body := if inGroup then s[2..k - 1] else "";
      hide Safe, SafeGroups, Worst, Group, IsForm;
      forall env: Env | env.ismod == ismod
        ensures SafeGroups(s, env) <==> (inGroup ==> Safe(body, env, false)) && SafeGroups(s[k..], env)
      {
        SafeGroupsStep(s, env);
        SameKinds(s, env, w);
      }
      ForAllOfBoth(s, s[k..], body, inGroup, ismod);
    }
  }

  lemma ForAllOfBoth(s: string, rest: string, body: string, inGroup: bool, ismod: bool)
    requires forall env: Env :: env.ismod == ismod ==>
               (SafeGroups(s, env) <==> (inGroup ==> Safe(body, env, false)) && SafeGroups(rest, env))
    ensures GroupsSafeForAll(s, ismod) <==> (inGroup ==> SafeForAll(body, ismod)) && GroupsSafeForAll(rest, ismod)
  {
    hide Safe, SafeGroups;
  }

  /** A line with a single form in a group: what the form grows by is missing. */
  lemma OneForm(c: char, env: Env)
    requires !env.ismod && c !in "[]"
    ensures Excess("$[$" + [c] + "]", env) == Grows(c, env)
  {
    var s, t := "$[$" + [c] + "]", "$" + [c] + "]";
    assert Close(s, 4, 1) == Some(4);
    assert Close(s, 3, 1) == Some(4);
    assert ClosedGroup(s, env) && Group(s) == Some(4);
    assert s[2..] == t && t[2..] == "]" && s[5..] == "]"[1..] == "";
    assert Grows('[', env) == 0;
    hide Growth, Extra, Group, Grows;
    ExcessStep(s, env);
    NoExcess(env);
    GrowthStep(s, env);
    GrowthStep(t, env);
    GrowthStep("]", env);
  }

  lemma FormIsEnoughIff(c: char, env: Env)
    requires !env.ismod && c !in "[]"
    ensures IsEnough("$[$" + [c] + "]", env) <==> Grows(c, env) <= 0
  {
    OneForm(c, env);
    IsEnoughIs("$[$" + [c] + "]", env);
  }

  lemma NameGrows(env: Env)
    ensures WinText('n', env) == Some("xxxxxxxxxx") ==> Grows('n', env) >= 10
    ensures Grows('x', env) == |Dec(env.vx)| - 2
  {
    hide CountQuotes, Numeral;
  }

  /** A window with a name of ten letters overflows the buffer of the first line; the
      second line fits if the viewport is at 0, and not at 1000. */
  lemma GroupsCanOverflow(env: Env)
    requires !env.ismod
    ensures WinText('n', env) == Some("xxxxxxxxxx") ==> !IsEnough("$[$n]", env)
    ensures env.vx == 0 ==> IsEnough("$[$x]", env)
    ensures env.vx == 1000 ==> !IsEnough("$[$x]", env)
  {
    NameGrows(env);
    ShortNumbers();
    hide *;
    FormIsEnoughIff('n', env);
    FormIsEnoughIff('x', env);
    assert "$[$" + ['n'] + "]" == "$[$n]" && "$[$" + ['x'] + "]" == "$[$x]";
  }

  lemma ShortNumbers()
    ensures |Dec(0)| == 1 && |Dec(1000)| == 4
  {
    assert |Numeral(100, 10)| == 3;
  }

  lemma IsEnoughIs(s: string, env: Env)
    ensures IsEnough(s, env) <==> Excess(s, env) <= 0
  {
  }
}
