/** What each `$` form stands for, said of the fields of the environment alone
    (fvwm/expand.c, libs/Strings.c). */
module ExpandForms {
  import opened CStrings
  import opened ExpandArgs
  import opened ExpandSpec
  import opened ExpandTheorems

  // ----- one form in front of any text

  lemma ReadsTwo(c: char, rest: string, env: Env, addto: bool, text: string)
    requires Head("$" + [c] + rest, env, addto) == Step(text, 2)
    ensures Meaning("$" + [c] + rest, env, addto) == text + Meaning(rest, env, addto)
  {
    assert ("$" + [c] + rest)[2..] == rest;
    hide Head;
  }

  lemma ReadsOne(c: char, rest: string, env: Env, addto: bool)
    requires c != '$' && Head("$" + [c] + rest, env, addto) == Step("$", 1)
    ensures Meaning("$" + [c] + rest, env, addto) == "$" + [c] + Meaning(rest, env, addto)
  {
    var s := "$" + [c] + rest;
    assert s[1..] == [c] + rest;
    assert Meaning(s, env, addto) == "$" + Meaning([c] + rest, env, addto);
    hide *;
    TextStep([c] + rest, env, addto);
    assert ([c] + rest)[1..] == rest && ([c] + rest)[..1] == [c];
    Joined("$", [c], Meaning(rest, env, addto));
  }

  lemma Begins(c: char, rest: string)
    ensures var s := "$" + [c] + rest; |s| >= 2 && s[0] == '$' && s[1] == c
  {
  }

  /** `$0` to `$9`: the positional argument with that number; without one, nothing, or
      the form itself while lines are added to a function. */
  lemma DigitMeaning(n: nat, rest: string, env: Env, addto: bool)
    requires n < 10
    ensures var d := ('0' as int + n) as char;
            Meaning("$" + [d] + rest, env, addto) ==
            if n < |env.posArgs| && env.posArgs[n].Some? then env.posArgs[n].value + Meaning(rest, env, addto)
            else if addto then "$" + [d] + Meaning(rest, env, addto)
            else Meaning(rest, env, addto)
  {
    var d := ('0' as int + n) as char;
    Begins(d, rest);
    hide Meaning, Group, Name, Resolve;
    if n < |env.posArgs| && env.posArgs[n].Some? {
      ReadsTwo(d, rest, env, addto, env.posArgs[n].value);
    } else if addto {
      ReadsOne(d, rest, env, addto);
    } else {
      ReadsTwo(d, rest, env, addto, "");
      assert "" + Meaning(rest, env, addto) == Meaning(rest, env, addto);
    }
  }

  /** `$*`: the argument string, in the same way. */
  lemma StarMeaning(rest: string, env: Env, addto: bool)
    ensures Meaning("$*" + rest, env, addto) ==
            if env.argString.Some? then env.argString.value + Meaning(rest, env, addto)
            else if addto then "$*" + Meaning(rest, env, addto)
            else Meaning(rest, env, addto)
  {
    Begins('*', rest);
    assert "$*" == "$" + ['*'];
    hide Meaning, Group, Name, Resolve;
    if env.argString.Some? {
      ReadsTwo('*', rest, env, addto, env.argString.value);
    } else if addto {
      ReadsOne('*', rest, env, addto);
    } else {
      ReadsTwo('*', rest, env, addto, "");
      assert "" + Meaning(rest, env, addto) == Meaning(rest, env, addto);
    }
  }

  /** `$.`: the directory that is read from, quoted. */
  lemma DirectoryMeaning(rest: string, env: Env, addto: bool)
    ensures Meaning("$." + rest, env, addto) ==
            match env.readDir
            case Some(d) => "'" + EscapeQuotes(d) + "'" + Meaning(rest, env, addto)
            case None => "$." + Meaning(rest, env, addto)
  {
    Begins('.', rest);
    assert "$." == "$" + ['.'];
    hide Meaning, Group, Name, Resolve, EscapeQuotes;
    match env.readDir
    case Some(d) => ReadsTwo('.', rest, env, addto, "'" + EscapeQuotes(d) + "'");
    case None => ReadsOne('.', rest, env, addto);
  }

  /** `$d`, `$x`, `$y` and `$v`, but not in a module's line: the desk, the place of the
      viewport and the version. */
  lemma ScreenMeaning(rest: string, env: Env, addto: bool)
    requires !env.ismod
    ensures Meaning("$d" + rest, env, addto) == Dec(env.desk) + Meaning(rest, env, addto)
    ensures Meaning("$x" + rest, env, addto) == Dec(env.vx) + Meaning(rest, env, addto)
    ensures Meaning("$y" + rest, env, addto) == Dec(env.vy) + Meaning(rest, env, addto)
    ensures Meaning("$v" + rest, env, addto) ==
            (if env.version.Some? then env.version.value else "") + Meaning(rest, env, addto)
  {
    Begins('d', rest);
    Begins('x', rest);
    Begins('y', rest);
    Begins('v', rest);
    assert "$d" == "$" + ['d'] && "$x" == "$" + ['x'] && "$y" == "$" + ['y'] && "$v" == "$" + ['v'];
    hide Meaning, Group, Name, Resolve, Dec;
    ReadsTwo('d', rest, env, addto, Dec(env.desk));
    ReadsTwo('x', rest, env, addto, Dec(env.vx));
    ReadsTwo('y', rest, env, addto, Dec(env.vy));
    ReadsTwo('v', rest, env, addto, if env.version.Some? then env.version.value else "");
  }

  /** `$w`: the id of the window in context. */
  lemma IdMeaning(rest: string, env: Env, addto: bool)
    requires !env.ismod
    ensures Meaning("$w" + rest, env, addto) ==
            (if env.win.Some? then "0x" + Hex(env.win.value.id) else "$w") + Meaning(rest, env, addto)
  {
    Begins('w', rest);
    assert "$w" == "$" + ['w'];
    hide Meaning, Group, Name, Resolve, Hex;
    ReadsTwo('w', rest, env, addto, if env.win.Some? then "0x" + Hex(env.win.value.id) else "$w");
  }

  lemma WindowText(c: char, t: Option<CStr>, rest: string, env: Env, addto: bool)
    requires !env.ismod && c in {'c', 'r', 'n'}
    requires t == if env.win.None? then None
                  else if c == 'c' then env.win.value.resClass
                  else if c == 'r' then env.win.value.resName
                  else env.win.value.name
    ensures Meaning("$" + [c] + rest, env, addto) ==
            if t.Some? && t.value != "" then "'" + EscapeQuotes(t.value) + "'" + Meaning(rest, env, addto)
            else "$" + [c] + Meaning(rest, env, addto)
  {
    Begins(c, rest);
    hide Meaning, Group, Name, Resolve, EscapeQuotes;
    if t.Some? && t.value != "" {
      ReadsTwo(c, rest, env, addto, "'" + EscapeQuotes(t.value) + "'");
    } else {
      ReadsOne(c, rest, env, addto);
    }
  }

  /** `$c`, `$r` and `$n`: class, resource and name of the window in context, quoted;
      without a window, or with an empty string, the form itself. */
  lemma WindowMeaning(rest: string, env: Env, addto: bool)
    requires !env.ismod
    ensures Meaning("$c" + rest, env, addto) ==
            (if env.win.Some? && env.win.value.resClass.Some? && env.win.value.resClass.value != ""
             then "'" + EscapeQuotes(env.win.value.resClass.value) + "'" else "$c") + Meaning(rest, env, addto)
    ensures Meaning("$r" + rest, env, addto) ==
            (if env.win.Some? && env.win.value.resName.Some? && env.win.value.resName.value != ""
             then "'" + EscapeQuotes(env.win.value.resName.value) + "'" else "$r") + Meaning(rest, env, addto)
    ensures Meaning("$n" + rest, env, addto) ==
            (if env.win.Some? && env.win.value.name.Some? && env.win.value.name.value != ""
             then "'" + EscapeQuotes(env.win.value.name.value) + "'" else "$n") + Meaning(rest, env, addto)
  {
    hide *;
    assert "$c" == "$" + ['c'] && "$r" == "$" + ['r'] && "$n" == "$" + ['n'];
    WindowText('c', if env.win.None? then None else env.win.value.resClass, rest, env, addto);
    WindowText('r', if env.win.None? then None else env.win.value.resName, rest, env, addto);
    WindowText('n', if env.win.None? then None else env.win.value.name, rest, env, addto);
  }

  /** Any other character, and any letter in a module's line, leaves the `$` as it is. */
  lemma OtherMeaning(c: char, rest: string, env: Env, addto: bool)
    requires if env.ismod then 'a' <= c <= 'z' || 'A' <= c <= 'Z' || c !in "$[*.0123456789"
             else c !in "$[*.0123456789wdxycrnv"
    ensures Meaning("$" + [c] + rest, env, addto) == "$" + [c] + Meaning(rest, env, addto)
  {
    Begins(c, rest);
    if '0' <= c <= '9' {
      DigitsAreListed(c);
    }
    hide Meaning, Group, Name, Resolve;
    ReadsOne(c, rest, env, addto);
  }

  lemma DigitsAreListed(c: char)
    requires '0' <= c <= '9'
    ensures c in "0123456789" && c in "$[*.0123456789" && c in "$[*.0123456789wdxycrnv"
  {
  }

  /** While lines are added to a function, the name of a group is text. */
  lemma GroupIsText(t: string, env: Env)
    ensures Meaning("$[" + t, env, true) == "$[" + Meaning(t, env, true)
  {
    Begins('[', t);
    assert "$[" == "$" + ['['];
    hide Meaning, Group, Name, Resolve;
    ReadsOne('[', t, env, true);
  }

  // ----- numbers and quotes

  /** A decimal number is the usual one: digits, the last of them the remainder by ten,
      and a minus in front of a negative number. */
  lemma DecimalDigits(n: nat)
    ensures n < 10 ==> Dec(n) == [('0' as int + n) as char]
    ensures n >= 10 ==> Dec(n) == Dec(n / 10) + Dec(n % 10)
    ensures n > 0 ==> Dec(0 - n) == "-" + Dec(n)
  {
    if n >= 10 {
      DivShrinks(n, 10);
    }
  }

  /** A hexadecimal number has lower-case digits. */
  lemma HexDigits(n: nat)
    ensures n < 10 ==> Hex(n) == [('0' as int + n) as char]
    ensures 10 <= n < 16 ==> Hex(n) == [('a' as int + (n - 10)) as char]
    ensures n >= 16 ==> Hex(n) == Hex(n / 16) + Hex(n % 16)
  {
    if n >= 16 {
      DivShrinks(n, 16);
    }
  }

  /** The value of hexadecimal digits. */
  function HexValue(s: string): int {
    if s == "" then 0
    else
      var c := s[|s| - 1];
      16 * HexValue(s[..|s| - 1]) + if '0' <= c <= '9' then c as int - '0' as int else c as int - 'a' as int + 10
  }

  /** The id of a window can be read back from its digits, and has no zero in front. */
  lemma {:induction false} HexReadsBack(n: nat)
    ensures HexValue(Hex(n)) == n && (n > 0 ==> Hex(n)[0] != '0')
    ensures forall k :: 0 <= k < |Hex(n)| ==> '0' <= Hex(n)[k] <= '9' || 'a' <= Hex(n)[k] <= 'f'
  {
    var s := Hex(n);
    if n < 16 {
      assert s[..|s| - 1] == "";
    } else {
      DivShrinks(n, 16);
      HexReadsBack(n / 16);
      assert s[..|s| - 1] == Hex(n / 16);
    }
  }

  /** So can any number that an int holds. */
  lemma DecReadsBack(n: Int32)
    ensures ScanInt(Dec(n)) == Some((n, ""))
  {
    var i: int := n;
    var m: nat := if i < 0 then -i else i;
    NumeralScans(m, "");
    NumeralDigits(m);
    var s := Numeral(m, 10);
    assert s + "" == s;
    hide Numeral, Stored, ScanInt;
    if n < 0 {
      NegativeScans(s);
    }
    StoredSmall(n);
  }

  lemma StoredSmall(n: Int32)
    ensures Stored(n) == n
  {
  }

  lemma NegativeScans(s: string)
    requires s != "" && forall k :: 0 <= k < |s| ==> IsDigit(s[k])
    ensures ScanInt("-" + s) == Some((Stored(0 - ValueOf(s)), ""))
  {
    DigitRunAppend(s, "");
    assert s + "" == s;
    var t := "-" + s;
    assert t[0] == '-' && t[1..] == s && SkipSpaces(t) == t;
    hide SkipSpaces, DigitRun, ValueOf, Stored, IsDigit;
    assert s[..|s|] == s && s[|s|..] == "";
  }

  /** Each quote gets a backslash, and nothing else does. */
  lemma {:induction false} QuotesEach(s: string, t: string)
    ensures EscapeQuotes(s + t) == EscapeQuotes(s) + EscapeQuotes(t)
    ensures forall c :: EscapeQuotes([c]) == if c == '\'' then "\\'" else [c]
  {
    forall c
      ensures EscapeQuotes([c]) == if c == '\'' then "\\'" else [c]
    {
      assert [c][1..] == "" && EscapeQuotes("") == "";
    }
    if s == "" {
      assert s + t == t && EscapeQuotes("") == "";
      assert "" + EscapeQuotes(t) == EscapeQuotes(t);
    } else {
      assert (s + t)[1..] == s[1..] + t && (s + t)[0] == s[0];
      QuotesEach(s[1..], t);
      Joined(if s[0] == '\'' then "\\'" else [s[0]], EscapeQuotes(s[1..]), EscapeQuotes(t));
    }
  }

  /** Reads a backslash in front of a quote as the quote. */
  function Unescape(s: string): string {
    if |s| >= 2 && s[0] == '\\' && s[1] == '\'' then "'" + Unescape(s[2..])
    else if s == "" then "" else [s[0]] + Unescape(s[1..])
  }

  /** The quoted text can be read back. */
  lemma {:induction false} QuotesReadBack(t: string)
    ensures Unescape(EscapeQuotes(t)) == t
    ensures EscapeQuotes(t) == "" || EscapeQuotes(t)[0] != '\''
  {
    if t != "" {
      QuotesReadBack(t[1..]);
      var e := EscapeQuotes(t);
      if t[0] == '\'' {
        assert e[2..] == EscapeQuotes(t[1..]);
      } else {
        assert e[1..] == EscapeQuotes(t[1..]);
      }
    }
  }

  // ----- groups

  predicate NoBrackets(t: string) { '[' !in t && ']' !in t }

  lemma {:induction false} NoBracketsBalance(t: string)
    requires NoBrackets(t)
    ensures Balance(t) == 0
  {
    if t != "" {
      NoBracketsBalance(t[..|t| - 1]);
    }
  }

  lemma NoBracketsClose(t: string)
    requires NoBrackets(t)
    ensures NeverClosesMore(t) && Balance(t) == 0
  {
    forall k | 0 <= k <= |t|
      ensures Balance(t[..k]) >= 0
    {
      NoBracketsBalance(t[..k]);
    }
    NoBracketsBalance(t);
  }

  /** What a name without `$` stands for. */
  lemma PlainGroup(name: string, rest: string, env: Env, text: string)
    requires NoBrackets(name) && '$' !in name && Resolve(name, env) == Some(text)
    ensures Meaning("$[" + name + "]" + rest, env, false) == text + Meaning(rest, env, false)
  {
    NoBracketsClose(name);
    GroupMeaning(name, rest, env);
    hide Resolve, Meaning;
  }

  lemma NumberName(a: nat)
    ensures NoBrackets(Dec(a)) && '$' !in Dec(a) && Dec(a) != ""
  {
    NumeralDigits(a);
    assert forall c :: c in Dec(a) ==> IsDigit(c);
  }

  lemma SliceIs(ts: seq<CStr>, a: nat, b: nat)
    requires a <= b
    ensures Slice(ts, a, b) == if a >= |ts| then [] else if b < |ts| then ts[a..b + 1] else ts[a..]
  {
  }

  /** `$[a]`: the argument with that number, if there is one. */
  lemma ArgumentMeaning(a: nat, rest: string, env: Env)
    requires a <= 0x7fff_ffff
    ensures Meaning("$[" + Dec(a) + "]" + rest, env, false) ==
            (if env.args.Some? && a < |env.args.value| then env.args.value[a] else "") + Meaning(rest, env, false)
  {
    NumberName(a);
    SinglesReadBack(a);
    if env.args.Some? {
      SliceIs(env.args.value, a, a);
      assert a < |env.args.value| ==> env.args.value[a..a + 1] == [env.args.value[a]];
    }
    hide Meaning, Dec, Slice, Stored, ParseRange, NoBrackets;
    PlainGroup(Dec(a), rest, env, if env.args.Some? && a < |env.args.value| then env.args.value[a] else "");
  }

  /** `$[a-b]`: the arguments from a to b, as far as there are any. */
  lemma RangeMeaning(a: nat, b: nat, rest: string, env: Env)
    requires a <= b <= 0x7fff_ffff
    ensures Meaning("$[" + (Dec(a) + "-" + Dec(b)) + "]" + rest, env, false) ==
            (if env.args.None? || a >= |env.args.value| then ""
             else if b < |env.args.value| then Join(env.args.value[a..b + 1])
             else Join(env.args.value[a..])) + Meaning(rest, env, false)
  {
    NumberName(a);
    NumberName(b);
    RangesReadBack(a, b);
    if env.args.Some? {
      SliceIs(env.args.value, a, b);
    }
    hide Meaning, Dec, Slice, ParseRange;
    PlainGroup(Dec(a) + "-" + Dec(b), rest, env,
               if env.args.None? || a >= |env.args.value| then ""
               else if b < |env.args.value| then Join(env.args.value[a..b + 1])
               else Join(env.args.value[a..]));
  }

  /** The tokens from `a` on, as far as an int counts. */
  lemma TailIs(ts: seq<CStr>, a: nat)
    requires a <= 0x7fff_ffff
    ensures Slice(ts, a, INT_MAX) ==
            if a >= |ts| then [] else if |ts| <= 0x8000_0000 then ts[a..] else ts[a..0x8000_0000]
  {
    SliceIs(ts, a, INT_MAX);
    if |ts| == 0x8000_0000 {
      assert ts[a..0x8000_0000] == ts[a..];
    }
  }

  /** `$[a-]`: the arguments from a on. */
  lemma TailMeaning(a: nat, rest: string, env: Env)
    requires a <= 0x7fff_ffff
    ensures Meaning("$[" + (Dec(a) + "-") + "]" + rest, env, false) ==
            (if env.args.None? || a >= |env.args.value| then ""
             else if |env.args.value| <= 0x8000_0000 then Join(env.args.value[a..])
             else Join(env.args.value[a..0x8000_0000])) + Meaning(rest, env, false)
  {
    NumberName(a);
    SinglesReadBack(a);
    if env.args.Some? {
      TailIs(env.args.value, a);
    }
    hide Meaning, Dec, Slice, ParseRange;
    PlainGroup(Dec(a) + "-", rest, env,
               if env.args.None? || a >= |env.args.value| then ""
               else if |env.args.value| <= 0x8000_0000 then Join(env.args.value[a..])
               else Join(env.args.value[a..0x8000_0000]));
  }

  /** `$[*]`: all arguments. */
  lemma AllMeaning(rest: string, env: Env)
    ensures Meaning("$[*]" + rest, env, false) ==
            (if env.args.None? then ""
             else if |env.args.value| <= 0x8000_0000 then Join(env.args.value)
             else Join(env.args.value[..0x8000_0000])) + Meaning(rest, env, false)
  {
    var ts := if env.args.Some? then env.args.value else [];
    TailIs(ts, 0);
    assert Slice(ts, 0, INT_MAX) == if |ts| <= 0x8000_0000 then ts else ts[..0x8000_0000];
    assert ParseRange("*") == Some((0, INT_MAX));
    assert "$[*]" == "$[" + "*" + "]" && Join([]) == "";
    hide Meaning, Slice, ParseRange, Join;
    PlainGroup("*", rest, env,
               if env.args.None? then ""
               else if |env.args.value| <= 0x8000_0000 then Join(env.args.value)
               else Join(env.args.value[..0x8000_0000]));
  }

  /** The tokens with a blank between each two. */
  lemma {:induction false} JoinEach(ts: seq<CStr>, us: seq<CStr>)
    ensures Join([]) == "" && forall t :: Join([t]) == t
    ensures Join(ts + us) == if ts == [] then Join(us) else if us == [] then Join(ts) else Join(ts) + " " + Join(us)
    decreases |us|
  {
    if us == [] {
      assert ts + us == ts;
    } else if ts == [] {
      assert ts + us == us;
    } else {
      var n := |us| - 1;
      JoinEach(ts, us[..n]);
      JoinLast(ts + us[..n], us[n]);
      JoinLast(us[..n], us[n]);
      hide *;
      assert us == us[..n] + [us[n]];
      assert ts + us == ts + us[..n] + [us[n]];
      if n == 0 {
        assert ts + us[..0] == ts;
      } else {
        Joined(Join(ts) + " ", Join(us[..n]), " " + us[n]);
      }
    }
  }

  lemma JoinLast(ts: seq<CStr>, t: CStr)
    ensures Join(ts + [t]) == if ts == [] then t else Join(ts) + (" " + t)
  {
    assert (ts + [t])[..|ts|] == ts;
    if ts != [] {
      assert Join(ts + [t]) == Join(ts) + " " + t;
    }
  }

  /** `$[name]`: the value of a variable; a name that is not known stands for itself, and
      so does the group when the lookup fails.  The name of the variable is what the text
      in the brackets stands for, which can hold forms and groups itself. */
  lemma VariableMeaning(body: string, name: string, rest: string, env: Env)
    requires NeverClosesMore(body) && Balance(body) == 0
    requires name == if '$' in body then Meaning(body, env, env.plusAdds && body[0] == '+') else body
    requires name == "" || (name[0] != '*' && !('0' <= name[0] <= '9'))
    ensures Meaning("$[" + body + "]" + rest, env, false) ==
            (match env.variables(name)
             case Value(t) => t
             case Unknown => "$[" + name + "]"
             case Failed => "$[" + body + "]") + Meaning(rest, env, false)
  {
    GroupMeaning(body, rest, env);
    assert Name(body, env, false) == name by {
      hide Meaning;
    }
    assert ArgRange(name, env.args) == None;
    hide Meaning, Name, ArgRange;
  }

  /** A backwards range is the name of a variable, too. */
  lemma BackwardsMeaning(a: nat, b: nat, rest: string, env: Env)
    requires b < a <= 0x7fff_ffff
    ensures var name := Dec(a) + "-" + Dec(b);
            Meaning("$[" + name + "]" + rest, env, false) ==
            (match env.variables(name)
             case Value(t) => t
             case _ => "$[" + name + "]") + Meaning(rest, env, false)
  {
    var name := Dec(a) + "-" + Dec(b);
    NumberName(a);
    NumberName(b);
    RangesReadBack(a, b);
    hide Meaning, Dec, ParseRange;
    NoBracketsClose(name);
    GroupMeaning(name, rest, env);
    assert Name(name, env, false) == name;
  }
}
