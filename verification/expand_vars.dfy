/** The two passes of the variable expander over a character buffer
    (fvwm/expand.c): the first computes a length, the second writes into a buffer
    of that length, and both cut the line with NULs while they look up names. */
module ExpandVars {
  import opened CStrings
  import opened ExpandArgs
  import opened ExpandSpec
  import opened ExpandTheorems
  import opened ExpandText

  /** The line `s` is stored at offset `p`. */
  ghost predicate Line(input: array<char>, p: nat, s: string)
    reads input
  {
    && p + |s| < input.Length && input[p + |s|] == NUL && NUL !in s
    && forall k :: 0 <= k < |s| ==> input[p + k] == s[k]
  }

  /** Finds the end of a `$[` group at `i`, and whether it holds a `$`. */
  method ScanGroup(input: array<char>, p: nat, l: nat, i: nat, ghost s: string) returns (m: nat, hasDollar: bool)
    requires Line(input, p, s) && l == |s| && i + 1 < l
    ensures i + 2 <= m <= l
    ensures var t := s[i..];
            if Group(t).Some?
            then m == i + Group(t).value && input[p + m] == ']' && hasDollar == ('$' in t[2..m - i])
            else input[p + m] != ']'
  {
    ghost var t := s[i..];
    m := i + 2;
    var level := 1;
    hasDollar := false;
    while m < l && level > 0 && input[p + m] != NUL
      invariant i + 2 <= m <= l && 0 <= level
      invariant if level == 0 then m < l && Group(t) == Some(m - i) else Group(t) == Close(t, m - i, level)
      invariant hasDollar == ('$' in t[2..m - i])
      decreases l - m, level
    {
      assert t[m - i] == s[m] == input[p + m];
      assert t[2..m - i + 1] == t[2..m - i] + [input[p + m]];
      if input[p + m] == ']' {
        level := level - 1;
      } else if input[p + m] == '[' {
        level := level + 1;
      } else if input[p + m] == '$' {
        hasDollar := true;
      }
      if level > 0 {
        m := m + 1;
      }
    }
    assert m < l ==> input[p + m] == s[m];
  }

  lemma {:induction false} JoinGrows(tokens: seq<CStr>, k: nat)
    requires k <= |tokens|
    ensures |Join(tokens[..k])| <= |Join(tokens)|
    decreases |tokens|
  {
    if k < |tokens| {
      var most := tokens[..|tokens| - 1];
      JoinGrows(most, k);
      assert most[..k] == tokens[..k];
    } else {
      assert tokens[..k] == tokens;
    }
  }

  /** Appends to the `len` characters written from offset `j` on, if there is a
      buffer. */
  method Append(out: array?<char>, j: nat, len: nat, text: string) returns (newLen: nat)
    requires out != null ==> j + len + |text| <= out.Length
    modifies out
    ensures newLen == len + |text|
    ensures out != null ==> out[..j] == old(out[..j]) && out[j..j + newLen] == old(out[j..j + len]) + text
  {
    newLen := len + |text|;
    if out != null {
      PutText(out, j + len, text);
      assert out[..j] == out[..j + len][..j] && out[j..j + len] == out[..j + len][j..];
      assert out[j..j + newLen] == out[j..j + len] + out[j + len..j + newLen];
    }
  }

  /** expand_args_extended(): with no buffer it only computes the length. */
  method ArgsExtended(name: string, args: Option<seq<CStr>>, out: array?<char>, j: nat)
    returns (len: int)
    requires out != null ==> j < out.Length
    requires out != null && ArgRange(name, args).Some? ==> j + |ArgRange(name, args).value| < out.Length
    modifies out
    ensures len == match ArgRange(name, args) case None => -1 case Some(t) => |t|
    ensures out != null ==> out[..j] == old(out[..j])
    ensures out != null && len >= 0 ==> out[j..j + len] == ArgRange(name, args).value
  {
    var range := ParseRange(name);
    if range.None? {
      return -1;
    }
    if args.None? {
      return 0;
    }
    len := CopyRange(range.value.0, range.value.1, args.value, out, j);
  }

  /** The loop of expand_args_extended(), behind the arguments that are skipped. */
  method CopyRange(lower: int, upper: int, tokens: seq<CStr>, out: array?<char>, j: nat)
    returns (len: nat)
    requires out != null ==> j + |Join(Slice(tokens, lower, upper))| < out.Length
    modifies out
    ensures len == |Join(Slice(tokens, lower, upper))|
    ensures out != null ==> out[..j] == old(out[..j])
    ensures out != null ==> out[j..j + len] == Join(Slice(tokens, lower, upper))
  {
    hide *;
    SliceFacts(tokens, lower, upper);
    ghost var chosen := Slice(tokens, lower, upper);
    var i, next: nat := lower, if lower > 0 then lower else 0;
    len := 0;
    while i <= upper && next < |tokens|
      invariant lower <= i <= lower + |chosen| && next == i - lower + if lower > 0 then lower else 0
      invariant len == |Join(chosen[..i - lower])|
      invariant out != null ==> j + len < out.Length
      invariant out != null ==> out[..j] == old(out[..j]) && out[j..j + len] == Join(chosen[..i - lower])
      decreases |tokens| - next
    {
      JoinStep(chosen, i - lower);
      JoinGrows(chosen, i - lower + 1);
      if i > lower {
        len := Append(out, j, len, " ");
      }
      len := Append(out, j, len, tokens[next]);
      i, next := i + 1, next + 1;
    }
    assert chosen[..i - lower] == chosen;
  }

  lemma SliceFacts(tokens: seq<CStr>, lower: int, upper: int)
    ensures var chosen := Slice(tokens, lower, upper);
            var first := if lower > 0 then lower else 0;
            && |chosen| == (if first >= |tokens| || upper < lower then 0
                            else if first + upper - lower < |tokens| then upper + 1 - lower else |tokens| - first)
            && (forall k :: 0 <= k < |chosen| ==> chosen[k] == tokens[first + k])
            && Join(chosen[..0]) == ""
  {
  }

  lemma JoinStep(tokens: seq<CStr>, k: nat)
    requires k < |tokens|
    ensures Join(tokens[..k + 1]) == Join(tokens[..k]) + (if k > 0 then " " else "") + tokens[k]
  {
    assert tokens[..k + 1][..k] == tokens[..k];
    if k == 0 {
      assert Join(tokens[..1]) == tokens[0];
    }
  }

  /** The end of expand_vars_extended(): the value of a variable, or its name in
      brackets when there is no such variable. */
  method VarsExtended(name: string, env: Env, out: array?<char>, j: nat) returns (len: int)
    requires ArgRange(name, env.args).None?
    requires out != null ==> j < out.Length
    requires out != null && Resolve(name, env).Some? ==> j + |Resolve(name, env).value| < out.Length
    modifies out
    ensures len == match Resolve(name, env) case None => -1 case Some(t) => |t|
    ensures out != null ==> out[..j] == old(out[..j])
    ensures out != null && len >= 0 ==> out[j..j + len] == Resolve(name, env).value
  {
    match env.variables(name)
    case Failed =>
      len := -1;
    case Value(text) =>
      len := |text|;
      if out != null {
        PutString(out, j, text);
      }
    case Unknown =>
      len := |name| + 3;
      if out != null {
        var n := Append(out, j, 0, "$[");
        n := Append(out, j, n, name);
        n := Append(out, j, n, "]");
        PutString(out, j + n, "");
        assert out[j..j + n] == out[..j + n][j..] && out[..j] == out[..j + n][..j];
      }
  }

  /** Looks up the name `body` between `i + 2` and `m`.  The line is cut at `m`
      meanwhile, and whole again afterwards. */
  method LookUp(input: array<char>, p: nat, i: nat, m: nat, hasDollar: bool, env: Env,
                out: array?<char>, j: nat, ghost body: string)
    returns (xlen: int)
    requires i + 2 <= m && p + m < input.Length && input[p + m] == ']'
    requires input[p + i + 2..p + m] == body && NUL !in body && hasDollar == ('$' in body)
    requires hasDollar ==> Safe(body, env, false)
    requires out != null ==> out != input && j < out.Length
    requires var t := Resolve(Name(body, env, false), env);
             out != null && t.Some? ==> j + |t.value| < out.Length
    modifies input, out
    ensures input[..] == old(input[..])
    ensures var t := Resolve(Name(body, env, false), env);
            && xlen == (match t case None => -1 case Some(v) => |v|)
            && (out != null ==> out[..j] == old(out[..j]))
            && (out != null && xlen >= 0 ==> out[j..j + xlen] == t.value)
    decreases |body|, 5
  {
    hide *;
    ghost var before := input[..];
    input[p + m] := NUL;
    assert input[p + i + 2..p + m] == body;
    var name := CutName(input, p, i, m, hasDollar, env, body);
    xlen := ResolveName(name, env, out, j);
    input[p + m] := ']';
    assert input[..] == before;
  }

  /** Arguments first, then variables. */
  method ResolveName(name: string, env: Env, out: array?<char>, j: nat) returns (xlen: int)
    requires out != null ==> j < out.Length
    requires out != null && Resolve(name, env).Some? ==> j + |Resolve(name, env).value| < out.Length
    modifies out
    ensures xlen == match Resolve(name, env) case None => -1 case Some(t) => |t|
    ensures out != null ==> out[..j] == old(out[..j])
    ensures out != null && xlen >= 0 ==> out[j..j + xlen] == Resolve(name, env).value
  {
    ArgumentsFirst(name, env);
    hide Resolve, ArgRange;
    xlen := ArgsExtended(name, env.args, out, j);
    if xlen < 0 {
      xlen := VarsExtended(name, env, out, j);
    }
  }

  lemma ArgumentsFirst(name: string, env: Env)
    ensures ArgRange(name, env.args).Some? ==> Resolve(name, env) == ArgRange(name, env.args)
  {
  }

  /** The name between the brackets, expanded if it holds a `$`, while the line
      is cut at `m`. */
  method CutName(input: array<char>, p: nat, i: nat, m: nat, hasDollar: bool, env: Env, ghost body: string)
    returns (name: string)
    requires i + 2 <= m && p + m < input.Length && input[p + m] == NUL
    requires input[p + i + 2..p + m] == body && NUL !in body && hasDollar == ('$' in body)
    requires hasDollar ==> Safe(body, env, false)
    modifies input
    ensures input[..] == old(input[..])
    ensures name == Name(body, env, false)
    decreases |body|, 4
  {
    hide *;
    NameOf(body, env);
    name := input[p + i + 2..p + m];
    if hasDollar {
      ghost var q := input[p + i + 2..];
      assert q[..m - i - 2] == body && q[m - i - 2] == NUL;
      CStringEndsAt(q, m - i - 2);
      var v := ExpandVars(input, p + i + 2, env, false);
      var k := StrLen(v, 0);
      name := v[..k];
      assert v[0..] == v[..];
    }
  }

  lemma NameOf(body: string, env: Env)
    ensures Name(body, env, false) == if '$' in body then Expansion(body, env, false) else body
  {
  }

  lemma LineIs(input: array<char>, p: nat, s: string)
    requires Line(input, p, s)
    ensures p + |s| < input.Length && NUL !in s && input[p + |s|] == NUL
    ensures forall k :: 0 <= k < |s| ==> input[..][p + k] == s[k]
  {
  }

  lemma BodyText(s: string, i: nat, m: nat)
    requires NUL !in s && i + 2 <= m <= |s|
    ensures NUL !in s[i..][2..m - i] && s[i..][2..m - i] == s[i + 2..m]
  {
    var body := s[i..][2..m - i];
    assert forall k :: 0 <= k < |body| ==> body[k] == s[i + 2 + k];
  }

  lemma GroupRoom(t: string, env: Env)
    requires IsForm(t, env) && |t| >= 2 && t[1] == '['
    ensures Group(t).None? ==> Reserve(t, env, false) == Reserve(t, env, true) == Room(0, 1)
    ensures Group(t).Some? ==> Reserve(t, env, true) == Room(0, Group(t).value + 1)
    ensures Group(t).Some? ==>
              var m := Group(t).value;
              var v := Resolve(Name(t[2..m], env, false), env);
              Reserve(t, env, false) == Room(if v.Some? then |v.value| - m else 0, m + 1)
    ensures Group(t).Some? && SafeGroups(t, env) && '$' in t[2..Group(t).value] ==>
              Safe(t[2..Group(t).value], env, false)
  {
  }

  /** The `$[` case of the first pass. */
  method MeasureGroup(input: array<char>, p: nat, l: nat, i: nat, l2: int, env: Env, addto: bool, ghost s: string)
    returns (i': nat, l2': int)
    requires Line(input, p, s) && l == |s| && i + 1 < l
    requires IsForm(s[i..], env) && s[i + 1] == '['
    requires !addto ==> SafeGroups(s[i..], env)
    modifies input
    ensures input[..] == old(input[..])
    ensures var r := Reserve(s[i..], env, addto);
            i' == i + r.used && l2' == l2 + r.extra
    decreases |s|, 0
  {
    hide *;
    GroupRoom(s[i..], env);
    LineIs(input, p, s);
    i', l2' := i, l2;
    var m, hasDollar := ScanGroup(input, p, l, i, s);
    if input[p + m] == ']' {
      if !addto {
        BodyText(s, i, m);
        LineParts(input[..], p, s, i, m);
        var extra := MeasureName(input, p, i, m, hasDollar, env, s[i..][2..m - i]);
        l2' := l2' + extra;
      }
      i' := m;
    }
    i' := i' + 1;
  }

  /** What the value of a closed group is longer than the group. */
  method MeasureName(input: array<char>, p: nat, i: nat, m: nat, hasDollar: bool, env: Env, ghost body: string)
    returns (extra: int)
    requires i + 2 <= m && p + m < input.Length && input[p + m] == ']'
    requires input[p + i + 2..p + m] == body && NUL !in body && hasDollar == ('$' in body)
    requires hasDollar ==> Safe(body, env, false)
    modifies input
    ensures input[..] == old(input[..])
    ensures var t := Resolve(Name(body, env, false), env);
            extra == if t.Some? then |t.value| - (m - i) else 0
    decreases |body|, 6
  {
    hide Resolve, Name, Safe;
    var k := m - i - 2;
    var xlen := LookUp(input, p, i, m, hasDollar, env, null, 0, body);
    extra := if xlen >= 0 then xlen - (k + 2) else 0;
  }

  /** One iteration of the first pass. */
  method MeasureStep(input: array<char>, p: nat, l: nat, i: nat, l2: int, env: Env, addto: bool,
                     ghost s: string, ghost r: Room)
    returns (i': nat, l2': int)
    requires Line(input, p, s) && l == |s| && i < l
    requires !addto ==> SafeGroups(s[i..], env)
    requires r == Reserve(s[i..], env, addto)
    modifies input
    ensures input[..] == old(input[..]) && Line(input, p, s)
    ensures i' == i + r.used && l2' == l2 + r.extra
    decreases |s|, 1
  {
    hide Name, Resolve, Group, SafeGroups, Safe;
    i', l2' := i, l2;
    var c, d := input[p + i], input[p + i + 1];
    assert c == s[i] && (i + 1 < l ==> d == s[i + 1]);
    if c == '$' && (!env.ismod || !IsAlpha(d)) {
      if d == '[' {
        i', l2' := MeasureGroup(input, p, l, i, l2, env, addto, s);
        return;
      } else if d == '$' {
        i' := i' + 1;
      } else if d == '*' || IsDigit(d) {
        var a := PosArg(d, env);
        if a.Some? {
          l2' := l2' + |a.value| - 2;
          i' := i' + 1;
        }
      } else if d == 'w' || d == 'd' || d == 'x' || d == 'y' {
        l2' := l2' + 16;
        i' := i' + 1;
      } else {
        var a: Option<CStr> := None;
        if d == '.' {
          a := env.readDir;
        } else if d == 'c' || d == 'r' || d == 'n' {
          a := WinText(d, env);
        } else if d == 'v' {
          if env.win.Some? {
            a := env.win.value.visibleName;
          }
          if env.version.Some? {
            l2' := l2' + |env.version.value| + 2;
          }
        }
        if a.Some? {
          var n := QuotedLength(a.value);
          l2' := l2' + n;
        }
      }
    }
    i' := i' + 1;
  }

  /** The room for a text whose single quotes each take a backslash. */
  method QuotedLength(s: CStr) returns (n: nat)
    ensures n == QuotedRoom(Some(s)) == |EscapeQuotes(s)|
  {
    var k := 0;
    n := 0;
    assert s[0..] == s;
    while k < |s|
      invariant k <= |s|
      invariant n + CountQuotes(s[k..]) == k + CountQuotes(s)
    {
      if s[k] == '\'' {
        n := n + 1;
      }
      assert s[k..][1..] == s[k + 1..];
      k, n := k + 1, n + 1;
    }
    QuotesFit(s);
  }

  lemma MeasureAdvance(s: string, i: nat, env: Env, addto: bool)
    requires i < |s|
    ensures var r := Reserve(s[i..], env, addto);
            && 1 <= r.used <= |s| - i
            && Extra(s[i..], env, addto) == r.extra + Extra(s[i + r.used..], env, addto)
            && (SafeGroups(s[i..], env) ==> SafeGroups(s[i + r.used..], env))
  {
    var t := s[i..];
    var r := Reserve(t, env, addto);
    assert r.used == Reserve(t, env, false).used;
    assert Extra(t, env, addto) == r.extra + Extra(t[r.used..], env, addto);
    hide Extra, Reserve, SafeGroups;
    assert t[r.used..] == s[i + r.used..];
    if SafeGroups(t, env) {
      SafeTail(t, env);
    }
  }

  lemma MeasureEnds(s: string, env: Env, addto: bool)
    ensures |s| + Extra(s[0..], env, addto) == Estimate(s, env, addto)
    ensures Extra(s[|s|..], env, addto) == 0
    ensures SafeGroups(s[0..], env) == SafeGroups(s, env)
  {
    assert s[0..] == s;
  }

  /** The first pass: the length of the buffer for the expanded line. */
  method Measure(input: array<char>, p: nat, l: nat, env: Env, addto: bool, ghost s: string) returns (l2: int)
    requires Line(input, p, s) && l == |s|
    requires !addto ==> SafeGroups(s, env)
    modifies input
    ensures input[..] == old(input[..])
    ensures l2 == Estimate(s, env, addto)
    decreases |s|, 2
  {
    hide *;
    MeasureEnds(s, env, addto);
    l2 := l;
    var i := 0;
    ghost var rest := Extra(s[0..], env, addto);
    while i < l
      invariant i <= l && input[..] == old(input[..]) && Line(input, p, s)
      invariant rest == Extra(s[i..], env, addto) && l2 + rest == Estimate(s, env, addto)
      invariant !addto ==> SafeGroups(s[i..], env)
    {
      MeasureAdvance(s, i, env, addto);
      ghost var r := Reserve(s[i..], env, addto);
      rest := Extra(s[i + r.used..], env, addto);
      i, l2 := MeasureStep(input, p, l, i, l2, env, addto, s, r);
    }
  }

  /** QuoteString(): writes the text in single quotes. */
  method QuoteString(out: array<char>, j: nat, s: CStr) returns (j': nat)
    requires j + |Quoted(s)| < out.Length
    modifies out
    ensures out[..j] == old(out[..j])
    ensures j' == j + |Quoted(s)| && out[j..j'] == Quoted(s)
  {
    hide *;
    QuoteEnds(s);
    var n: nat := Append(out, j, 0, "'");
    var k := 0;
    while k < |s|
      invariant k <= |s| && out[..j] == old(out[..j])
      invariant j + n + |EscapeQuotes(s[k..])| + 1 < out.Length
      invariant out[j..j + n] + EscapeQuotes(s[k..]) == "'" + EscapeQuotes(s)
    {
      ghost var done, rest := out[j..j + n], EscapeQuotes(s[k + 1..]);
      QuoteAdvance(s, k);
      Reassociate(done, if s[k] == '\'' then "\\'" else [s[k]], rest);
      n := QuoteOne(out, j, n, s[k]);
      k := k + 1;
    }
    n := Append(out, j, n, "'");
    PutString(out, j + n, "");
    assert out[j..j + n] == out[..j + n][j..] && out[..j] == out[..j + n][..j];
    j' := j + n;
  }

  method QuoteOne(out: array<char>, j: nat, n: nat, c: char) returns (n': nat)
    requires j + n + (if c == '\'' then 2 else 1) <= out.Length
    modifies out
    ensures n' == n + (if c == '\'' then 2 else 1) && out[..j] == old(out[..j])
    ensures out[j..j + n'] == old(out[j..j + n]) + (if c == '\'' then "\\'" else [c])
  {
    n' := n;
    if c == '\'' {
      n' := Append(out, j, n', "\\");
    }
    n' := Append(out, j, n', [c]);
  }

  lemma QuoteEnds(s: string)
    ensures EscapeQuotes(s[0..]) == EscapeQuotes(s) && EscapeQuotes(s[|s|..]) == ""
    ensures Quoted(s) == "'" + EscapeQuotes(s) + "'"
  {
    assert s[0..] == s;
  }

  lemma QuoteAdvance(s: string, k: nat)
    requires k < |s|
    ensures EscapeQuotes(s[k..]) == (if s[k] == '\'' then "\\'" else [s[k]]) + EscapeQuotes(s[k + 1..])
  {
    assert s[k..][1..] == s[k + 1..];
  }

  lemma Reassociate(a: string, b: string, c: string)
    ensures a + (b + c) == (a + b) + c
  {
  }

  method Put(out: array<char>, j: nat, s: string) returns (j': nat)
    requires j + |s| < out.Length
    modifies out
    ensures out[..j] == old(out[..j]) && j' == j + |s| && out[j..j'] == s
  {
    PutString(out, j, s);
    j' := j + |s|;
  }

  /** The name and the whole group, in the line. */
  lemma LineParts(q: seq<char>, p: nat, s: string, i: nat, m: nat)
    requires i + 2 <= m < |s| && p + |s| < |q| && forall k :: 0 <= k < |s| ==> q[p + k] == s[k]
    ensures q[p + i + 2..p + m] == s[i + 2..m]
    ensures q[p + i..p + m + 1] == s[i..][..m + 1 - i]
  {
  }

  lemma GroupHead(t: string, env: Env, addto: bool)
    requires IsForm(t, env) && |t| >= 2 && t[1] == '['
    ensures addto || Group(t).None? ==> Head(t, env, addto) == Step("$", 1)
    ensures !addto && Group(t).Some? ==>
              var m := Group(t).value;
              var v := Resolve(Name(t[2..m], env, false), env);
              Head(t, env, addto) == Step(if v.Some? then v.value else t[..m + 1], m + 1)
    ensures Group(t).Some? && SafeGroups(t, env) && '$' in t[2..Group(t).value] ==>
              Safe(t[2..Group(t).value], env, false)
  {
  }

  /** The `$[` case of the second pass. */
  method WriteGroup(input: array<char>, p: nat, l: nat, i: nat, out: array<char>, j: nat, env: Env, addto: bool,
                    ghost s: string, ghost h: Step)
    returns (i': nat, j': nat)
    requires Line(input, p, s) && l == |s| && i + 1 < l && out != input
    requires IsForm(s[i..], env) && s[i + 1] == '['
    requires !addto ==> SafeGroups(s[i..], env)
    requires h == Head(s[i..], env, addto) && j + |h.text| < out.Length
    modifies input, out
    ensures input[..] == old(input[..])
    ensures out[..j] == old(out[..j])
    ensures i' == i + h.used && j' == j + |h.text| && out[j..j'] == h.text
    decreases |s|, 0, 0
  {
    GroupHead(s[i..], env, addto);
    hide *;
    i', j' := i, j;
    if addto {
      j' := Put(out, j, "$");
    } else {
      var m, hasDollar := ScanGroup(input, p, l, i, s);
      if input[p + m] == ']' {
        j' := WriteClosed(input, p, i, m, hasDollar, env, out, j, s, s[i..][2..m - i], h);
        i' := m;
      } else {
        j' := Put(out, j, "$");
      }
    }
    i' := i' + 1;
  }

  /** A group that closes at `m`. */
  method WriteClosed(input: array<char>, p: nat, i: nat, m: nat, hasDollar: bool, env: Env, out: array<char>, j: nat,
                     ghost s: string, ghost body: string, ghost h: Step)
    returns (j': nat)
    requires Line(input, p, s) && out != input && i + 2 <= m < |s| && s[m] == ']' && body == s[i..][2..m - i]
    requires hasDollar == ('$' in body) && (hasDollar ==> Safe(body, env, false))
    requires var v := Resolve(Name(body, env, false), env);
             h.text == (if v.Some? then v.value else s[i..][..m + 1 - i]) && j + |h.text| < out.Length
    modifies input, out
    ensures input[..] == old(input[..]) && out[..j] == old(out[..j])
    ensures j' == j + |h.text| && out[j..j'] == h.text
    decreases |body|, 7
  {
    hide Resolve, Name, Safe;
    BodyText(s, i, m);
    LineParts(input[..], p, s, i, m);
    j' := WriteName(input, p, i, m, hasDollar, env, out, j, body);
  }

  /** The value of a closed group, or the group itself if it has none. */
  method WriteName(input: array<char>, p: nat, i: nat, m: nat, hasDollar: bool, env: Env,
                   out: array<char>, j: nat, ghost body: string)
    returns (j': nat)
    requires i + 2 <= m && p + m < input.Length && input[p + m] == ']' && out != input
    requires input[p + i + 2..p + m] == body && NUL !in body && hasDollar == ('$' in body)
    requires hasDollar ==> Safe(body, env, false)
    requires var t := Resolve(Name(body, env, false), env);
             j + (if t.Some? then |t.value| else m + 1 - i) < out.Length
    modifies input, out
    ensures input[..] == old(input[..]) && out[..j] == old(out[..j])
    ensures var t := Resolve(Name(body, env, false), env);
            j' == j + (if t.Some? then |t.value| else m + 1 - i) &&
            out[j..j'] == if t.Some? then t.value else old(input[p + i..p + m + 1])
    decreases |body|, 6
  {
    hide Resolve, Name, Safe;
    ghost var before := input[..];
    var xlen := LookUp(input, p, i, m, hasDollar, env, out, j, body);
    if xlen >= 0 {
      j' := j + xlen;
    } else {
      assert input[p + i..p + m + 1] == before[p + i..p + m + 1];
      j' := Put(out, j, input[p + i..p + m + 1]);
    }
  }

  /** The forms of one letter that are always replaced. */
  function ShortForm(d: char, env: Env): string {
    if d == 'w' then if env.win.Some? then "0x" + Hex(env.win.value.id) else "$w"
    else if d == 'd' then Dec(env.desk)
    else if d == 'x' then Dec(env.vx)
    else if d == 'y' then Dec(env.vy)
    else if d == 'v' then OrEmpty(env.version)
    else "$"
  }

  /** One iteration of the second pass. */
  method WriteStep(input: array<char>, p: nat, l: nat, i: nat, out: array<char>, j: nat, env: Env, addto: bool,
                   ghost s: string, ghost h: Step)
    returns (i': nat, j': nat)
    requires Line(input, p, s) && l == |s| && i < l && out != input
    requires !addto ==> SafeGroups(s[i..], env)
    requires h == Head(s[i..], env, addto) && j + |h.text| < out.Length
    modifies input, out
    ensures input[..] == old(input[..]) && Line(input, p, s)
    ensures out[..j] == old(out[..j])
    ensures i' == i + h.used && j' == j + |h.text| && out[j..j'] == h.text
    decreases |s|, 0, 1
  {
    hide Name, Resolve, Group, SafeGroups, Safe, Quoted, Dec, Hex;
    i', j' := i, j;
    var c, d := input[p + i], input[p + i + 1];
    assert c == s[i] && (i + 1 < l ==> d == s[i + 1]);
    if c == '$' && (!env.ismod || !IsAlpha(d)) {
      if d == '[' {
        i', j' := WriteGroup(input, p, l, i, out, j, env, addto, s, h);
        return;
      } else if d == '*' || IsDigit(d) {
        var a := PosArg(d, env);
        if a.Some? {
          j' := Put(out, j, a.value);
          i' := i' + 1;
        } else if addto {
          j' := Put(out, j, "$");
        } else {
          i' := i' + 1;
        }
      } else if d == '.' || d == 'c' || d == 'r' || d == 'n' {
        var a := if d == '.' then env.readDir else WinText(d, env);
        if a.Some? {
          j' := QuoteString(out, j, a.value);
          i' := i' + 1;
        } else {
          j' := Put(out, j, "$");
        }
      } else if d == 'w' || d == 'd' || d == 'x' || d == 'y' || d == 'v' || d == '$' {
        j' := Put(out, j, ShortForm(d, env));
        i' := i' + 1;
      } else {
        j' := Put(out, j, "$");
      }
    } else {
      j' := Put(out, j, [c]);
    }
    i' := i' + 1;
  }

  lemma WriteAdvance(s: string, i: nat, env: Env, addto: bool)
    requires i < |s|
    ensures var h := Head(s[i..], env, addto);
            && 1 <= h.used <= |s| - i
            && Meaning(s[i..], env, addto) == h.text + Meaning(s[i + h.used..], env, addto)
  {
    hide Head, Name, Resolve;
    var t := s[i..];
    assert t[Head(t, env, addto).used..] == s[i + Head(t, env, addto).used..];
  }

  lemma SafeTail(t: string, env: Env)
    requires t != "" && SafeGroups(t, env)
    ensures SafeGroups(t[Reserve(t, env, false).used..], env)
  {
    hide Reserve, Safe, Group, IsForm;
  }

  lemma SafeHead(t: string, env: Env)
    requires t != "" && SafeGroups(t, env)
    ensures SafeGroups(t[Head(t, env, false).used..], env)
  {
    hide *;
    SafeTail(t, env);
    StepsResynchronise(t, env, false);
  }

  lemma Slices(s: string, i: nat, u: nat)
    requires i + u <= |s|
    ensures s[i..][u..] == s[i + u..]
  {
  }

  lemma SafeAdvance(s: string, i: nat, env: Env)
    requires i < |s| && SafeGroups(s[i..], env)
    ensures SafeGroups(s[i + Head(s[i..], env, false).used..], env)
  {
    hide *;
    SafeHead(s[i..], env);
    Slices(s, i, Head(s[i..], env, false).used);
  }

  lemma WriteEnds(s: string, env: Env, addto: bool)
    ensures Meaning(s[0..], env, addto) == Meaning(s, env, addto)
    ensures Meaning(s[|s|..], env, addto) == ""
    ensures SafeGroups(s[0..], env) == SafeGroups(s, env)
  {
    assert s[0..] == s;
  }

  /** The second pass: writes the expanded line. */
  method Write(input: array<char>, p: nat, l: nat, out: array<char>, env: Env, addto: bool,
               ghost s: string, ghost whole: string)
    returns (j: nat)
    requires Line(input, p, s) && l == |s| && out != input
    requires !addto ==> SafeGroups(s, env)
    requires whole == Meaning(s, env, addto) && |whole| < out.Length
    modifies input, out
    ensures input[..] == old(input[..])
    ensures j < out.Length && out[..j] == whole
    decreases |s|, 1
  {
    hide *;
    WriteEnds(s, env, addto);
    var i := 0;
    j := 0;
    while i < l
      invariant i <= l && input[..] == old(input[..]) && Line(input, p, s)
      invariant j + |Meaning(s[i..], env, addto)| == |whole|
      invariant out[..j] + Meaning(s[i..], env, addto) == whole
      invariant !addto ==> SafeGroups(s[i..], env)
    {
      WriteAdvance(s, i, env, addto);
      if !addto {
        SafeAdvance(s, i, env);
      }
      ghost var h, rest := Head(s[i..], env, addto), Meaning(s[i + Head(s[i..], env, addto).used..], env, addto);
      ghost var j0, done := j, out[..j];
      i, j := WriteStep(input, p, l, i, out, j, env, addto, s, h);
      assert out[..j] == out[..j0] + out[j0..j];
      Reassociate(done, h.text, rest);
    }
  }

  /** A fresh buffer with the text of the line. */
  method WriteOut(input: array<char>, p: nat, l: nat, l2: int, env: Env, addto: bool,
                  ghost s: string, ghost whole: string)
    returns (out: array<char>)
    requires Line(input, p, s) && l == |s| && (!addto ==> SafeGroups(s, env))
    requires whole == Meaning(s, env, addto) && |whole| <= l2 && NUL !in whole
    modifies input
    ensures fresh(out) && input[..] == old(input[..])
    ensures NUL in out[..] && CString(out[..]) == whole
    decreases |s|, 2
  {
    hide *;
    out := new char[l2 + 1];
    var j := Write(input, p, l, out, env, addto, s, whole);
    out[j] := NUL;
    assert out[..][..j] == whole && out[..][j] == NUL;
    CStringEndsAt(out[..], j);
  }

  lemma BeginsSafely(s: string, env: Env, addto0: bool, addto: bool)
    requires Safe(s, env, addto0) && addto == (addto0 || (env.plusAdds && s != "" && s[0] == '+'))
    ensures Expansion(s, env, addto0) == Meaning(s, env, addto) && (!addto ==> SafeGroups(s, env))
    ensures |Meaning(s, env, addto)| <= Estimate(s, env, addto)
  {
    RoomIsEnough(s, env, addto0);
    hide Meaning, Estimate, SafeGroups;
  }

  /** expand_vars(): a fresh buffer with the expanded line.  The buffer of the
      line itself is left as it was. */
  method ExpandVars(input: array<char>, p: nat, env: Env, addto0: bool) returns (out: array<char>)
    requires p <= input.Length && NUL in input[p..]
    requires Safe(CString(input[p..]), env, addto0)
    modifies input
    ensures fresh(out) && input[..] == old(input[..])
    ensures NUL in out[..] && CString(out[..]) == Expansion(old(CString(input[p..])), env, addto0)
    ensures var line := old(CString(input[p..]));
            CString(out[..]) == Meaning(line, env, addto0 || (env.plusAdds && line != "" && line[0] == '+'))
    decreases |CString(input[p..])|, 3
  {
    ghost var s := CString(input[p..]);
    var l := StrLen(input, p);
    assert forall k :: 0 <= k < l ==> s[k] == input[p..p + l][k] == input[p + k];
    var addto := addto0 || (input[p] == '+' && env.plusAdds);
    assert l > 0 ==> s[0] == input[p];
    ghost var whole := Meaning(s, env, addto);
    BeginsSafely(s, env, addto0, addto);
    MeaningText(s, env, addto);
    hide *;
    var l2 := Measure(input, p, l, env, addto, s);
    out := WriteOut(input, p, l, l2, env, addto, s, whole);
  }
}
