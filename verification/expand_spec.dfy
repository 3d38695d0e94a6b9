/** What a command line means once its `$` forms are expanded, and how much
    room the expander reserves for the result (fvwm/expand.c). */
module ExpandSpec {
  import opened CStrings
  import opened ExpandArgs

  /** The strings of the window in context, unless it is the EWMH desktop. */
  datatype Win = Win(id: Bits32, resClass: Option<CStr>, resName: Option<CStr>,
                     name: Option<CStr>, visibleName: Option<CStr>)

  /** What the lookup of a bracketed variable name finds. */
  datatype Lookup = Value(text: CStr) | Unknown | Failed

  /** Everything an expansion reads besides the line.  `variables` stands for
      the table of extended variables and the environment, which do not change
      during one expansion.  `args` is None when there is no argument string. */
  datatype Env = Env(
    ismod: bool, plusAdds: bool,
    argString: Option<CStr>, args: Option<seq<CStr>>, posArgs: seq<Option<CStr>>,
    readDir: Option<CStr>, win: Option<Win>, version: Option<CStr>,
    desk: Int32, vx: Int32, vy: Int32,
    variables: string -> Lookup)

  predicate IsAlpha(c: char) { 'a' <= c <= 'z' || 'A' <= c <= 'Z' }

  /** A `$` starts a form, except before a letter in a module's line. */
  predicate IsForm(s: string, env: Env) {
    s != "" && s[0] == '$' && !(env.ismod && |s| > 1 && IsAlpha(s[1]))
  }

  /** The place of the bracket that closes `level` open ones, from `m` on. */
  function Close(s: string, m: nat, level: nat): (r: Option<nat>)
    requires m <= |s| && level > 0
    ensures r.Some? ==> m <= r.value < |s| && s[r.value] == ']'
    decreases |s| - m
  {
    if m == |s| then None
    else if s[m] == ']' then if level == 1 then Some(m) else Close(s, m + 1, level - 1)
    else if s[m] == '[' then Close(s, m + 1, level + 1)
    else Close(s, m + 1, level)
  }

  /** Open brackets minus closing ones. */
  function Balance(t: string): int {
    if t == "" then 0 else Balance(t[..|t| - 1]) + Weight(t[|t| - 1])
  }

  function Weight(c: char): int { if c == '[' then 1 else if c == ']' then -1 else 0 }

  /** `Close` finds the first closing bracket that has no partner after the
      opening ones: everything between is balanced. */
  lemma {:induction false} CloseIsMatchingBracket(s: string, m: nat, level: nat)
    requires m <= |s| && level > 0
    ensures var r := Close(s, m, level);
            var bound := if r.Some? then r.value else |s|;
            && (r.Some? ==> Balance(s[m..r.value]) == 1 - level)
            && (forall k :: m <= k < bound && s[k] == ']' ==> Balance(s[m..k]) > 1 - level)
    decreases |s| - m
  {
    hide Balance;
    assert Balance(s[m..m]) == 0 by {
      BalanceOfNothing(s, m);
    }
    if m < |s| && !(s[m] == ']' && level == 1) {
      CloseIsMatchingBracket(s, m + 1, level + Weight(s[m]));
      forall k | m + 1 <= k <= |s|
        ensures Balance(s[m..k]) == Weight(s[m]) + Balance(s[m + 1..k])
      {
        BalanceSplit(s, m, k);
      }
    }
  }

  lemma BalanceOfNothing(s: string, m: nat)
    requires m <= |s|
    ensures Balance(s[m..m]) == 0
  {
  }

  lemma {:induction false} BalanceSplit(s: string, m: nat, k: nat)
    requires m < k <= |s|
    ensures Balance(s[m..k]) == Weight(s[m]) + Balance(s[m + 1..k])
  {
    assert s[m..k][..k - m - 1] == s[m..k - 1];
    if k > m + 1 {
      BalanceSplit(s, m, k - 1);
      assert s[m + 1..k][..k - m - 2] == s[m + 1..k - 1];
    }
  }

  /** The group of a `$[` form: the text between the brackets, if they close. */
  function Group(s: string): (r: Option<nat>)
    requires |s| >= 2
    ensures r.Some? ==> 2 <= r.value < |s| && s[r.value] == ']'
  {
    Close(s, 2, 1)
  }

  predicate ClosedGroup(s: string, env: Env) {
    IsForm(s, env) && |s| >= 2 && s[1] == '[' && Group(s).Some?
  }

  // ----- the meaning of a line

  /** The value of a group whose name is already expanded: positional arguments
      first, then variables; an unknown variable is shown again. */
  function Resolve(name: string, env: Env): Option<string> {
    match ArgRange(name, env.args)
    case Some(t) => Some(t)
    case None =>
      match env.variables(name)
      case Value(t) => Some(t)
      case Unknown => Some("$[" + name + "]")
      case Failed => None
  }

  /** The argument behind `$0` to `$9` or `$*`. */
  function PosArg(c: char, env: Env): Option<string>
    requires c == '*' || IsDigit(c)
  {
    if c == '*' then env.argString
    else var n := c as int - '0' as int;
         if n < |env.posArgs| then env.posArgs[n] else None
  }

  /** The text behind `$c`, `$r` and `$n`: never an empty string. */
  function WinText(c: char, env: Env): Option<string> {
    if env.win.None? then None else
    var t := if c == 'c' then env.win.value.resClass
             else if c == 'r' then env.win.value.resName
             else env.win.value.name;
    if t.Some? && t.value == "" then None else t
  }

  function Quoted(t: string): string { "'" + EscapeQuotes(t) + "'" }

  function EscapeQuotes(t: string): string {
    if t == "" then ""
    else (if t[0] == '\'' then "\\'" else [t[0]]) + EscapeQuotes(t[1..])
  }

  function OrEmpty(t: Option<string>): string { if t.Some? then t.value else "" }

  /** What one step of the expander writes, and how many characters it reads. */
  datatype Step = Step(text: string, used: nat)

  function FormStep(t: Option<string>): Step {
    match t
    case Some(v) => Step(Quoted(v), 2)
    case None => Step("$", 1)
  }

  function Head(s: string, env: Env, addto: bool): (r: Step)
    requires s != ""
    ensures 1 <= r.used <= |s|
    decreases |s|, 0
  {
    if !IsForm(s, env) then Step([s[0]], 1)
    else if |s| == 1 then Step("$", 1)
    else
      var c := s[1];
      if c == '$' then Step("$", 2)
      else if c == '[' then
        if addto || Group(s).None? then Step("$", 1)
        else
          var m := Group(s).value;
          var t := Resolve(Name(s[2..m], env, addto), env);
          Step(if t.Some? then t.value else s[..m + 1], m + 1)
      else if c == '*' || IsDigit(c) then
        var t := PosArg(c, env);
        if t.Some? then Step(t.value, 2) else if addto then Step("$", 1) else Step("", 2)
      else if c == '.' then FormStep(env.readDir)
      else if c == 'w' then Step(if env.win.Some? then "0x" + Hex(env.win.value.id) else "$w", 2)
      else if c == 'd' then Step(Dec(env.desk), 2)
      else if c == 'x' then Step(Dec(env.vx), 2)
      else if c == 'y' then Step(Dec(env.vy), 2)
      else if c == 'c' || c == 'r' || c == 'n' then FormStep(WinText(c, env))
      else if c == 'v' then Step(OrEmpty(env.version), 2)
      else Step("$", 1)
  }

  /** A name is itself expanded when it holds a `$`. */
  function Name(body: string, env: Env, addto: bool): string
    decreases |body|, 3
  {
    if '$' in body then Expansion(body, env, addto) else body
  }

  function Meaning(s: string, env: Env, addto: bool): string
    decreases |s|, 1
  {
    if s == "" then ""
    else
      var h := Head(s, env, addto);
      h.text + Meaning(s[h.used..], env, addto)
  }

  /** A line that starts with `+` continues the last function that was added. */
  function AddsTo(s: string, env: Env, addto: bool): bool {
    addto || (env.plusAdds && s != "" && s[0] == '+')
  }

  function Expansion(s: string, env: Env, addto: bool): string
    decreases |s|, 2
  {
    Meaning(s, env, AddsTo(s, env, addto))
  }

  // ----- the room reserved for it

  function CountQuotes(t: string): nat {
    if t == "" then 0 else (if t[0] == '\'' then 1 else 0) + CountQuotes(t[1..])
  }

  function QuotedRoom(t: Option<string>): nat {
    if t.Some? then |t.value| + CountQuotes(t.value) else 0
  }

  /** What one step of the first pass adds to the length, and reads. */
  datatype Room = Room(extra: int, used: nat)

  function Reserve(s: string, env: Env, addto: bool): (r: Room)
    requires s != ""
    ensures 1 <= r.used <= |s|
  {
    if !IsForm(s, env) || |s| == 1 then Room(0, 1)
    else
      var c := s[1];
      if c == '$' then Room(0, 2)
      else if c == '[' then
        if Group(s).None? then Room(0, 1)
        else
          var m := Group(s).value;
          if addto then Room(0, m + 1)
          else
            var t := Resolve(Name(s[2..m], env, addto), env);
            Room(if t.Some? then |t.value| - m else 0, m + 1)
      else if c == '*' || IsDigit(c) then
        var t := PosArg(c, env);
        if t.Some? then Room(|t.value| - 2, 2) else Room(0, 1)
      else if c == '.' then Room(QuotedRoom(env.readDir), 1)
      else if c == 'w' || c == 'd' || c == 'x' || c == 'y' then Room(16, 2)
      else if c == 'c' || c == 'r' || c == 'n' then Room(QuotedRoom(WinText(c, env)), 1)
      else if c == 'v' then
        Room((if env.win.Some? then QuotedRoom(env.win.value.visibleName) else 0)
             + (if env.version.Some? then |env.version.value| + 2 else 0), 1)
      else Room(0, 1)
  }

  function Extra(s: string, env: Env, addto: bool): int {
    if s == "" then 0
    else
      var r := Reserve(s, env, addto);
      r.extra + Extra(s[r.used..], env, addto)
  }

  /** The length the first pass arrives at. */
  function Estimate(s: string, env: Env, addto: bool): int { |s| + Extra(s, env, addto) }

  /** No closed group of the line has a `$` in it. */
  predicate Plain(s: string, env: Env) {
    if s == "" then true
    else
      && (ClosedGroup(s, env) ==> '$' !in s[2..Group(s).value])
      && Plain(s[Reserve(s, env, false).used..], env)
  }

  /** With addto on, the buffer is long enough. */
  predicate IsEnough(s: string, env: Env) { |Meaning(s, env, true)| <= Estimate(s, env, true) }

  /** No buffer overflows: neither that of the line, nor those of the names in its
      groups, which are lines of their own. */
  predicate Safe(s: string, env: Env, addto: bool)
    decreases |s|, 1
  {
    if AddsTo(s, env, addto) then IsEnough(s, env) else SafeGroups(s, env)
  }

  predicate SafeGroups(s: string, env: Env)
    decreases |s|, 0
  {
    if s == "" then true
    else
      && (ClosedGroup(s, env) && '$' in s[2..Group(s).value] ==> Safe(s[2..Group(s).value], env, false))
      && SafeGroups(s[Reserve(s, env, false).used..], env)
  }
}
