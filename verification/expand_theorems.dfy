/** What the variable expander promises for every line (fvwm/expand.c). */
module ExpandTheorems {
  import opened CStrings
  import opened ExpandArgs
  import opened ExpandSpec

  // ----- the reserved room is enough

  lemma {:induction false} QuotesFit(t: string)
    ensures |EscapeQuotes(t)| == |t| + CountQuotes(t)
  {
    if t != "" {
      QuotesFit(t[1..]);
    }
  }

  lemma TextStep(s: string, env: Env, addto: bool)
    requires s != "" && s[0] != '$'
    ensures Meaning(s, env, addto) == s[..1] + Meaning(s[1..], env, addto)
    ensures Extra(s, env, addto) == Extra(s[1..], env, addto)
  {
    assert Head(s, env, addto) == Step([s[0]], 1);
    assert Reserve(s, env, addto) == Room(0, 1);
  }

  lemma Glue(s: string, k: nat, n: nat, middle: string, rest: string)
    requires k <= n <= |s| && middle == s[k..][..n - k] + rest
    ensures s[..k] + middle == s[..n] + rest
  {
    assert s[..n] == s[..k] + s[k..][..n - k];
  }

  /** Text without `$` stands for itself and needs no extra room. */
  lemma {:induction false} PlainText(s: string, n: nat, env: Env, addto: bool)
    requires n <= |s| && '$' !in s[..n]
    ensures Meaning(s, env, addto) == s[..n] + Meaning(s[n..], env, addto)
    ensures Extra(s, env, addto) == Extra(s[n..], env, addto)
  {
    hide Meaning, Extra;
    if n == 0 {
      assert s[0..] == s;
    } else {
      assert s[0] == s[..n][0];
      var t := s[1..];
      var rest := Meaning(s[n..], env, addto);
      TextStep(s, env, addto);
      PlainText(t, n - 1, env, addto);
      assert t[n - 1..] == s[n..];
      Glue(s, 1, n, Meaning(t, env, addto), rest);
    }
  }

  /** Where the passes read different amounts, the first reads only the `$` of a
      two-character form. */
  lemma StepSizes(s: string, env: Env, addto: bool)
    requires s != "" && !(addto && ClosedGroup(s, env))
    ensures var h, r := Head(s, env, addto).used, Reserve(s, env, addto).used;
            r == h || (r == 1 && h == 2 && |s| >= 2 && s[1] != '$')
  {
  }

  lemma SkipText(s: string, env: Env, addto: bool)
    requires |s| >= 2 && s[1] != '$'
    ensures Extra(s[1..], env, addto) == Extra(s[2..], env, addto)
    ensures Plain(s[1..], env) == Plain(s[2..], env)
    ensures SafeGroups(s[1..], env) == SafeGroups(s[2..], env)
  {
    TextStep(s[1..], env, addto);
    assert s[1..][1..] == s[2..];
  }

  /** The two passes stay in step: they read the same number of characters, or
      the next character is plain text to the first pass. */
  lemma StepsResynchronise(s: string, env: Env, addto: bool)
    requires s != "" && !(addto && ClosedGroup(s, env))
    ensures var h, r := Head(s, env, addto).used, Reserve(s, env, addto).used;
            && r <= h
            && Extra(s[r..], env, addto) == Extra(s[h..], env, addto)
            && Plain(s[r..], env) == Plain(s[h..], env)
            && SafeGroups(s[r..], env) == SafeGroups(s[h..], env)
  {
    StepSizes(s, env, addto);
    if Reserve(s, env, addto).used != Head(s, env, addto).used {
      SkipText(s, env, addto);
    }
  }

  /** One step never writes more than what it reads plus what it reserved. */
  lemma StepFits(s: string, env: Env)
    requires s != ""
    ensures var h, r := Head(s, env, false), Reserve(s, env, false);
            |h.text| <= h.used + r.extra
  {
    NumbersFit(env.desk, if env.win.Some? then env.win.value.id else 0);
    NumbersFit(env.vx, 0);
    NumbersFit(env.vy, 0);
    if env.readDir.Some? {
      QuotesFit(env.readDir.value);
    }
    if |s| > 1 && WinText(s[1], env).Some? {
      QuotesFit(WinText(s[1], env).value);
    }
  }

  /** With addto off, the length from the first pass is at least what the
      second pass writes. */
  lemma {:induction false} EstimateIsEnough(s: string, env: Env)
    ensures |Meaning(s, env, false)| <= Estimate(s, env, false)
  {
    if s != "" {
      var h := Head(s, env, false);
      StepFits(s, env);
      StepsResynchronise(s, env, false);
      EstimateIsEnough(s[h.used..], env);
    }
  }

  /** A closed group without `$` is copied when addto is on. */
  lemma GroupIsCopied(s: string, m: nat, env: Env)
    requires ClosedGroup(s, env) && Group(s) == Some(m) && '$' !in s[2..m]
    ensures Meaning(s, env, true) == s[..m + 1] + Meaning(s[m + 1..], env, true)
  {
    var t := s[1..];
    assert t[..m] == [s[1]] + s[2..m] + [s[m]];
    PlainText(t, m, env, true);
    assert t[m..] == s[m + 1..];
    assert Head(s, env, true) == Step(s[..1], 1);
    Glue(s, 1, m + 1, Meaning(t, env, true), Meaning(s[m + 1..], env, true));
  }

  /** The same step bound with addto on, outside closed groups. */
  lemma StepFitsAddto(s: string, env: Env)
    requires s != "" && !ClosedGroup(s, env)
    ensures var h, r := Head(s, env, true), Reserve(s, env, true);
            |h.text| <= h.used + r.extra
  {
    StepFits(s, env);
  }

  lemma PlainStep(s: string, env: Env, addto: bool)
    requires s != "" && Plain(s, env) && !(addto && ClosedGroup(s, env))
    ensures Plain(s[Head(s, env, addto).used..], env)
  {
    StepsResynchronise(s, env, addto);
    assert Reserve(s, env, addto).used == Reserve(s, env, false).used;
  }

  /** With addto on, it is enough for lines whose closed groups hold no `$`. */
  lemma {:induction false} EstimateIsEnoughWhenPlain(s: string, env: Env)
    requires Plain(s, env)
    ensures |Meaning(s, env, true)| <= Estimate(s, env, true)
  {
    if s == "" {
    } else if ClosedGroup(s, env) {
      var m := Group(s).value;
      GroupIsCopied(s, m, env);
      EstimateIsEnoughWhenPlain(s[m + 1..], env);
    } else {
      StepFitsAddto(s, env);
      StepsResynchronise(s, env, true);
      PlainStep(s, env, true);
      EstimateIsEnoughWhenPlain(s[Head(s, env, true).used..], env);
    }
  }

  /** A line whose closed groups hold no `$` is safe, whatever the flags. */
  lemma {:induction false} PlainHasSafeGroups(s: string, env: Env)
    requires Plain(s, env)
    ensures SafeGroups(s, env)
  {
    if s != "" {
      PlainHasSafeGroups(s[Reserve(s, env, false).used..], env);
    }
  }

  lemma PlainIsSafe(s: string, env: Env, addto: bool)
    requires Plain(s, env)
    ensures Safe(s, env, addto)
  {
    PlainHasSafeGroups(s, env);
    EstimateIsEnoughWhenPlain(s, env);
    hide Plain, SafeGroups;
  }

  /** With addto off, and the last item added no function, every line is safe. */
  lemma {:induction false} SafeWithoutPlus(s: string, env: Env)
    requires !env.plusAdds
    ensures SafeGroups(s, env) && Safe(s, env, false)
    decreases |s|
  {
    hide Group, Reserve;
    if s != "" {
      if ClosedGroup(s, env) && '$' in s[2..Group(s).value] {
        SafeWithoutPlus(s[2..Group(s).value], env);
      }
      SafeWithoutPlus(s[Reserve(s, env, false).used..], env);
    }
  }

  /** Every buffer that `expand_vars` allocates for a safe line is long enough. */
  lemma RoomIsEnough(s: string, env: Env, addto: bool)
    requires Safe(s, env, addto)
    ensures |Expansion(s, env, addto)| <= Estimate(s, env, AddsTo(s, env, addto))
  {
    if !AddsTo(s, env, addto) {
      EstimateIsEnough(s, env);
    }
  }

  // ----- groups

  /** Every closing bracket of the text closes one of its own. */
  ghost predicate NeverClosesMore(t: string) {
    forall k :: 0 <= k <= |t| ==> Balance(t[..k]) >= 0
  }

  lemma OwnBracket(t: string, k: nat)
    requires NeverClosesMore(t) && k < |t| && t[k] == ']'
    ensures Balance(t[..k]) > 0
  {
    assert t[..k + 1][..k] == t[..k];
    assert Balance(t[..k + 1]) == Balance(t[..k]) - 1;
  }

  /** The place where `Close` stops in `s`, which holds `t` from 2 on, is not
      inside `t`. */
  lemma CloseIsPast(s: string, t: string)
    requires NeverClosesMore(t) && |s| >= 2 + |t| && s[2..2 + |t|] == t
    ensures Group(s).Some? ==> Group(s).value >= 2 + |t|
  {
    CloseIsMatchingBracket(s, 2, 1);
    var r := Close(s, 2, 1);
    hide *;
    if r.Some? && r.value < 2 + |t| {
      var k := r.value - 2;
      assert s[2..r.value] == t[..k] && t[k] == s[2..2 + |t|][k];
      OwnBracket(t, k);
      assert false;
    }
  }

  lemma GroupOfBalanced(body: string, rest: string)
    requires NeverClosesMore(body) && Balance(body) == 0
    ensures Group("$[" + body + "]" + rest) == Some(|body| + 2)
  {
    hide NeverClosesMore, Balance, Close;
    var s, n := "$[" + body + "]" + rest, |body| + 2;
    assert s[n] == ']' && s[2..n] == body;
    CloseIsPast(s, body);
    CloseIsMatchingBracket(s, 2, 1);
  }

  lemma NoGroupInOpen(t: string)
    requires NeverClosesMore(t)
    ensures Group("$[" + t).None?
  {
    assert ("$[" + t)[2..2 + |t|] == t;
    CloseIsPast("$[" + t, t);
  }

  /** With addto off, a group around any balanced text stands for the value of
      the expanded text, or for itself when that has no value; what follows it
      keeps its meaning. */
  lemma GroupMeaning(body: string, rest: string, env: Env)
    requires NeverClosesMore(body) && Balance(body) == 0
    ensures var v := Resolve(Name(body, env, false), env);
            var text := if v.Some? then v.value else "$[" + body + "]";
            Meaning("$[" + body + "]" + rest, env, false) == text + Meaning(rest, env, false)
  {
    var s, m := "$[" + body + "]" + rest, |body| + 2;
    GroupOfBalanced(body, rest);
    hide Name, Resolve, Group;
    assert s[2..m] == body && s[..m + 1] == "$[" + body + "]" && s[m + 1..] == rest;
    assert Head(s, env, false).used == m + 1;
  }

  /** A group that is never closed is text. */
  lemma UnclosedGroupMeaning(t: string, env: Env, addto: bool)
    requires NeverClosesMore(t)
    ensures Meaning("$[" + t, env, addto) == "$[" + Meaning(t, env, addto)
  {
    var s := "$[" + t;
    NoGroupInOpen(t);
    OpenGroupStep(s, env, addto);
    hide *;
    TextStep(s[1..], env, addto);
    assert s[1..][1..] == t && s[1..][..1] == "[";
    DollarBracket(Meaning(t, env, addto));
  }

  lemma DollarBracket(m: string)
    ensures "$" + ("[" + m) == "$[" + m
  {
  }

  lemma OpenGroupStep(s: string, env: Env, addto: bool)
    requires |s| >= 2 && s[0] == '$' && s[1] == '[' && Group(s).None?
    ensures Meaning(s, env, addto) == "$" + Meaning(s[1..], env, addto)
  {
    hide Name, Resolve, Group;
    assert Head(s, env, addto) == Step("$", 1);
  }

  // ----- escaping

  /** The line with each `$` doubled. */
  function Escape(s: string): string {
    if s == "" then "" else (if s[0] == '$' then "$$" else [s[0]]) + Escape(s[1..])
  }

  lemma EscapedCharacter(c: char, tail: string, env: Env, addto: bool)
    ensures Meaning((if c == '$' then "$$" else [c]) + tail, env, addto) == [c] + Meaning(tail, env, addto)
  {
    hide Name, Resolve, Group;
    var t := (if c == '$' then "$$" else [c]) + tail;
    if c == '$' {
      assert Head(t, env, addto) == Step("$", 2);
      assert t[2..] == tail;
    } else {
      TextStep(t, env, addto);
      assert t[1..] == tail;
    }
  }

  /** An escaped text in front of any line stands for itself and leaves the
      meaning of the rest alone. */
  lemma {:induction false} EscapedPrefix(s: string, rest: string, env: Env, addto: bool)
    ensures Meaning(Escape(s) + rest, env, addto) == s + Meaning(rest, env, addto)
  {
    hide Meaning, Head;
    if s == "" {
      assert Escape(s) + rest == rest;
    } else {
      var tail := Escape(s[1..]) + rest;
      EscapedFirst(s, rest, Meaning(rest, env, addto));
      hide Escape;
      EscapedCharacter(s[0], tail, env, addto);
      EscapedPrefix(s[1..], rest, env, addto);
    }
  }

  lemma EscapedFirst(s: string, rest: string, m: string)
    requires s != ""
    ensures Escape(s) + rest == (if s[0] == '$' then "$$" else [s[0]]) + (Escape(s[1..]) + rest)
    ensures [s[0]] + (s[1..] + m) == s + m
  {
    assert s == [s[0]] + s[1..];
    var first := if s[0] == '$' then "$$" else [s[0]];
    assert Escape(s) == first + Escape(s[1..]);
    hide Escape;
    Joined(first, Escape(s[1..]), rest);
    Joined([s[0]], s[1..], m);
  }

  lemma Joined(a: string, b: string, c: string)
    ensures (a + b) + c == a + (b + c)
  {
  }

  lemma {:induction false} EscapedIsPlain(s: string, env: Env)
    ensures Plain(Escape(s), env)
  {
    if s != "" {
      var t := Escape(s);
      var used := if s[0] == '$' then 2 else 1;
      assert t[used..] == Escape(s[1..]);
      EscapedIsPlain(s[1..], env);
    }
  }

  /** Doubling every `$` and expanding gives back the text, whatever the flags. */
  lemma EscapeRoundTrip(s: string, env: Env, addto: bool)
    ensures Safe(Escape(s), env, addto)
    ensures Expansion(Escape(s), env, addto) == s
  {
    EscapedIsPlain(s, env);
    PlainIsSafe(Escape(s), env, addto);
    EscapedPrefix(s, "", env, AddsTo(Escape(s), env, addto));
    assert Escape(s) + "" == Escape(s) && s + "" == s;
  }
}
