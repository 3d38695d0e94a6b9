/** Expansions of C strings are C strings: no NUL ever enters the output
    (fvwm/expand.c). */
module ExpandText {
  import opened CStrings
  import opened ExpandArgs
  import opened ExpandSpec

  lemma {:induction false} NumeralText(n: nat, base: nat)
    requires 2 <= base <= 16
    ensures NUL !in Numeral(n, base)
  {
    if n >= base {
      DivShrinks(n, base);
      NumeralText(n / base, base);
    }
  }

  lemma {:induction false} JoinText(tokens: seq<CStr>)
    ensures NUL !in Join(tokens)
  {
    if |tokens| > 1 {
      JoinText(tokens[..|tokens| - 1]);
    }
  }

  lemma {:induction false} QuotesText(t: string)
    requires NUL !in t
    ensures NUL !in EscapeQuotes(t)
  {
    if t != "" {
      QuotesText(t[1..]);
    }
  }

  lemma ResolveText(name: string, env: Env)
    requires NUL !in name
    ensures Resolve(name, env).Some? ==> NUL !in Resolve(name, env).value
  {
    if ParseRange(name).Some? && env.args.Some? {
      var r := ParseRange(name).value;
      JoinText(Slice(env.args.value, r.0, r.1));
    }
  }

  lemma FormText(t: Option<CStr>)
    ensures NUL !in FormStep(t).text
  {
    if t.Some? {
      QuotesText(t.value);
    }
  }

  lemma {:induction false} HeadText(s: string, env: Env, addto: bool)
    requires s != "" && NUL !in s
    ensures NUL !in Head(s, env, addto).text
    decreases |s|, 0
  {
    if IsForm(s, env) && |s| > 1 {
      var c := s[1];
      if c == '[' && !addto && Group(s).Some? {
        var body := s[2..Group(s).value];
        assert NUL !in body by {
          assert forall k :: 0 <= k < |body| ==> body[k] == s[2 + k];
        }
        if '$' in body {
          MeaningText(body, env, AddsTo(body, env, addto));
        }
        assert Name(body, env, addto) ==
               if '$' in body then Meaning(body, env, AddsTo(body, env, addto)) else body;
        ResolveText(Name(body, env, addto), env);
      } else if c == '.' {
        FormText(env.readDir);
      } else if c == 'c' || c == 'r' || c == 'n' {
        FormText(WinText(c, env));
      } else if c == 'w' && env.win.Some? {
        NumeralText(env.win.value.id, 16);
      } else if c == 'd' || c == 'x' || c == 'y' {
        var n: int := if c == 'd' then env.desk else if c == 'x' then env.vx else env.vy;
        NumeralText(if n < 0 then -n else n, 10);
      }
    }
  }

  lemma {:induction false} MeaningText(s: string, env: Env, addto: bool)
    requires NUL !in s
    ensures NUL !in Meaning(s, env, addto)
    decreases |s|, 1
  {
    if s != "" {
      HeadText(s, env, addto);
      MeaningText(s[Head(s, env, addto).used..], env, addto);
    }
  }
}
