/** Positional argument ranges such as `$[2-5]`, and the numbers that
    sprintf() writes and sscanf() reads (fvwm/expand.c). */
module ExpandArgs {
  import opened CStrings

  type Int32 = i: int | -0x8000_0000 <= i < 0x8000_0000
  type Bits32 = i: int | 0 <= i < 0x1_0000_0000

  predicate IsDigit(c: char) { '0' <= c <= '9' }

  predicate IsSpace(c: char) { c == ' ' || '\t' <= c <= '\r' }

  function Digit(d: nat): (c: char)
    requires d < 16
    ensures c != NUL && (d < 10 ==> IsDigit(c) && DigitValue(c) == d)
  {
    if d < 10 then ('0' as int + d) as char else ('a' as int + d - 10) as char
  }

  /** A number in base 10 or 16, without sign. */
  function Numeral(n: nat, base: nat): (s: string)
    requires 2 <= base <= 16
    ensures s != ""
    decreases n
  {
    if n < base then [Digit(n)]
    else
      DivShrinks(n, base);
      Numeral(n / base, base) + [Digit(n % base)]
  }

  lemma DivShrinks(n: nat, base: nat)
    requires 2 <= base <= n
    ensures 0 <= n / base < n && 0 <= n % base < base
  {
    var q := n / base;
    assert n == base * q + n % base;
    if q >= n {
      MulMonotone(base, n, q);
      MulMonotone(n, 2, base);
      assert false;
    }
  }

  function Dec(n: int): string { if n < 0 then "-" + Numeral(-n, 10) else Numeral(n, 10) }

  function Hex(n: nat): string { Numeral(n, 16) }

  function Pow(base: nat, k: nat): nat { if k == 0 then 1 else base * Pow(base, k - 1) }

  /** A number below base^k takes at most k digits. */
  lemma {:induction false} NumeralFits(n: nat, base: nat, k: nat)
    requires 2 <= base <= 16 && 1 <= k && n < Pow(base, k)
    ensures |Numeral(n, base)| <= k
    decreases k
  {
    assert Pow(base, k) == base * Pow(base, k - 1);
    if n >= base {
      DivBelow(n, base, Pow(base, k - 1));
      NumeralFits(n / base, base, k - 1);
    }
  }

  lemma DivBelow(n: nat, base: nat, p: nat)
    requires base > 0 && n < base * p
    ensures n / base < p
  {
    if n / base >= p {
      MulMonotone(base, p, n / base);
      assert false;
    }
  }

  lemma MulMonotone(k: nat, a: nat, b: nat)
    requires a <= b
    ensures k * a <= k * b
  {
  }

  /** What the C library prints for a 32-bit number fits the room of 18
      characters that each `$d`, `$x`, `$y` and `$w` gets. */
  lemma NumbersFit(n: Int32, b: Bits32)
    ensures |Dec(n)| <= 11 && |Hex(b)| <= 8
  {
    assert Pow(10, 10) == 10_000_000_000 by {
      assert Pow(10, 5) == 100_000;
      assert Pow(10, 8) == 100_000_000;
    }
    assert Pow(16, 8) == 0x1_0000_0000 by {
      assert Pow(16, 4) == 0x1_0000;
    }
    var m: int := n;
    NumeralFits(if m < 0 then -m else m, 10, 10);
    NumeralFits(b, 16, 8);
  }

  // ----- reading numbers

  function DigitValue(c: char): nat
    requires IsDigit(c)
  {
    c as int - '0' as int
  }

  /** Length of the run of digits at the start. */
  function DigitRun(s: string): (n: nat)
    ensures n <= |s| && forall k :: 0 <= k < n ==> IsDigit(s[k])
    ensures n < |s| ==> !IsDigit(s[n])
  {
    if s == "" || !IsDigit(s[0]) then 0 else 1 + DigitRun(s[1..])
  }

  function ValueOf(s: string): nat
    requires forall k :: 0 <= k < |s| ==> IsDigit(s[k])
  {
    if s == "" then 0 else 10 * ValueOf(s[..|s| - 1]) + DigitValue(s[|s| - 1])
  }

  function SkipSpaces(s: string): string {
    if s != "" && IsSpace(s[0]) then SkipSpaces(s[1..]) else s
  }

  const LONG_MAX := 0x7fff_ffff_ffff_ffff

  /** A number as the GNU C library stores it for "%d": it reads a long integer, at
      its limits if need be, and cuts it off to 32 bits. */
  function Stored(v: int): Int32 {
    var l := if v > LONG_MAX then LONG_MAX else if v < -LONG_MAX - 1 then -LONG_MAX - 1 else v;
    (l + 0x8000_0000) % 0x1_0000_0000 - 0x8000_0000
  }

  lemma StoredIs(n: nat)
    ensures Stored(n) == n <==> n <= INT_MAX
    ensures Stored(n) >= 0 <==> n <= LONG_MAX && n % 0x1_0000_0000 <= INT_MAX
  {
    if n > LONG_MAX {
      assert Stored(n) == -1;
    } else {
      CutIs(n);
    }
  }

  lemma CutIs(n: nat)
    ensures var c := (n + 0x8000_0000) % 0x1_0000_0000 - 0x8000_0000;
            (c == n <==> n <= INT_MAX) && (c >= 0 <==> n % 0x1_0000_0000 <= INT_MAX)
  {
    var q, r := n / 0x1_0000_0000, n % 0x1_0000_0000;
    assert n + 0x8000_0000 == q * 0x1_0000_0000 + (r + 0x8000_0000);
    CutParts(q, r);
  }

  lemma CutParts(q: nat, r: nat)
    requires r < 0x1_0000_0000
    ensures (q * 0x1_0000_0000 + (r + 0x8000_0000)) % 0x1_0000_0000 ==
            if r <= INT_MAX then r + 0x8000_0000 else r - 0x8000_0000
  {
  }

  /** sscanf("%d%n"): the number and what follows it. */
  function ScanInt(s: string): Option<(Int32, string)> {
    var t := SkipSpaces(s);
    var signed := t != "" && (t[0] == '-' || t[0] == '+');
    var u := if signed then t[1..] else t;
    var n := DigitRun(u);
    if n == 0 then None
    else
      var v: int := ValueOf(u[..n]);
      Some((Stored(if signed && t[0] == '-' then 0 - v else v), u[n..]))
  }

  const INT_MAX := 0x7fff_ffff

  /** _eae_parse_range(): the arguments that a bracketed name asks for. */
  function ParseRange(input: string): (r: Option<(Int32, Int32)>) {
    if input == "" then None
    else if input[0] == '*' then Some((0, INT_MAX))
    else if !IsDigit(input[0]) then None
    else
      var first := ScanInt(input);
      if first.None? then None
      else
        var (lower, rest) := first.value;
        var open := rest != "" && rest[0] == '-';
        var second := if open then ScanInt(rest[1..]) else None;
        var (upper, tail) :=
          if second.Some? then second.value
          else if open then (INT_MAX, rest[1..])
          else (lower, rest);
        if tail != "" || upper < lower then None else Some((lower, upper))
  }

  /** The tokens `lower` to `upper`, one space between each two. */
  function Join(tokens: seq<CStr>): string {
    if tokens == [] then ""
    else if |tokens| == 1 then tokens[0]
    else Join(tokens[..|tokens| - 1]) + " " + tokens[|tokens| - 1]
  }

  /** They are counted from `lower` on, but nothing is skipped for a negative one. */
  function Slice(tokens: seq<CStr>, lower: int, upper: int): (r: seq<CStr>) {
    var first := if lower > 0 then lower else 0;
    if first >= |tokens| || upper < lower then []
    else if first + upper - lower < |tokens| then tokens[first..first + upper - lower + 1]
    else tokens[first..]
  }

  /** A range is never backwards.  It starts at an argument exactly if the first number
      fits an int after it was cut off. */
  lemma ParseRangeOrdered(input: string)
    requires ParseRange(input).Some?
    ensures ParseRange(input).value.0 <= ParseRange(input).value.1
    ensures ParseRange(input).value.0 >= 0 <==>
            input[0] == '*' || (var n := ValueOf(input[..DigitRun(input)]);
                                n <= LONG_MAX && n % 0x1_0000_0000 <= INT_MAX)
  {
    if input[0] != '*' {
      assert SkipSpaces(input) == input;
      StoredIs(ValueOf(input[..DigitRun(input)]));
      hide Stored;
    }
  }

  /** expand_args_extended(): None when the name is not a range. */
  function ArgRange(name: string, args: Option<seq<CStr>>): Option<string> {
    match ParseRange(name)
    case None => None
    case Some((lower, upper)) =>
      if args.None? then Some("") else Some(Join(Slice(args.value, lower, upper)))
  }

  /** What is cut off leaves the number as it is modulo 2^32; a number beyond a long
      integer counts as -1 or 0. */
  lemma StoredAll(v: int)
    ensures v > 0x7fff_ffff_ffff_ffff ==> Stored(v) == -1
    ensures v < -0x8000_0000_0000_0000 ==> Stored(v) == 0
    ensures -0x8000_0000_0000_0000 <= v <= 0x7fff_ffff_ffff_ffff ==> (Stored(v) - v) % 0x1_0000_0000 == 0
  {
    if -0x8000_0000_0000_0000 <= v <= 0x7fff_ffff_ffff_ffff {
      var q := (v + 0x8000_0000) / 0x1_0000_0000;
      assert Stored(v) - v == -q * 0x1_0000_0000;
      WholeMultiple(-q);
    }
  }

  lemma WholeMultiple(q: int)
    ensures (q * 0x1_0000_0000) % 0x1_0000_0000 == 0
  {
  }

  /** Blanks in front of a number are skipped, and other characters than digits and signs
      are no number. */
  lemma LeadingCharacter(c: char, s: string)
    ensures c in " \t\n\r" || c as int == 11 || c as int == 12 ==> ScanInt([c] + s) == ScanInt(s)
    ensures c !in " \t\n\r+-0123456789" && c as int != 11 && c as int != 12 ==> ScanInt([c] + s) == None
  {
    assert ([c] + s)[1..] == s;
    if IsSpace(c) {
      assert SkipSpaces([c] + s) == SkipSpaces(s);
      hide SkipSpaces;
    } else {
      assert SkipSpaces([c] + s) == [c] + s;
      if '0' <= c <= '9' {
        DigitsAreListed(c);
      }
    }
  }

  lemma DigitsAreListed(c: char)
    requires '0' <= c <= '9'
    ensures c in " \t\n\r+-0123456789"
  {
  }

  // ----- a range that is printed is read back

  lemma {:induction false} NumeralScans(n: nat, tail: string)
    requires tail == "" || !IsDigit(tail[0])
    ensures var s := Numeral(n, 10);
            && (forall k :: 0 <= k < |s| ==> IsDigit(s[k]))
            && ValueOf(s) == n && DigitRun(s + tail) == |s|
            && ScanInt(s + tail) == Some((Stored(n), tail))
  {
    NumeralDigits(n);
    var s := Numeral(n, 10);
    DigitRunAppend(s, tail);
    assert SkipSpaces(s + tail) == s + tail;
    assert (s + tail)[..|s|] == s && (s + tail)[|s|..] == tail;
  }

  lemma {:induction false} NumeralDigits(n: nat)
    ensures var s := Numeral(n, 10);
            (forall k :: 0 <= k < |s| ==> IsDigit(s[k])) && ValueOf(s) == n
  {
    var s := Numeral(n, 10);
    if n < 10 {
      assert s[..|s| - 1] == "";
    } else {
      NumeralDigits(n / 10);
      assert s[..|s| - 1] == Numeral(n / 10, 10);
    }
  }

  lemma {:induction false} DigitRunAppend(s: string, tail: string)
    requires forall k :: 0 <= k < |s| ==> IsDigit(s[k])
    requires tail == "" || !IsDigit(tail[0])
    ensures DigitRun(s + tail) == |s|
  {
    if s == "" {
      assert s + tail == tail;
    } else {
      assert (s + tail)[1..] == s[1..] + tail;
      DigitRunAppend(s[1..], tail);
    }
  }

  lemma ParseOneNumber(input: string, a: Int32)
    requires input != "" && IsDigit(input[0]) && ScanInt(input) == Some((a, ""))
    ensures ParseRange(input) == Some((a, a))
  {
    hide ScanInt;
  }

  lemma ParseOpenNumber(input: string, a: Int32)
    requires input != "" && IsDigit(input[0]) && ScanInt(input) == Some((a, "-"))
    ensures ParseRange(input) == Some((a, INT_MAX))
  {
    assert "-"[1..] == "" && ScanInt("") == None;
    hide ScanInt;
  }

  /** `$[a]` selects argument a, and `$[a-]` it and all that follow, exactly if a fits
      an int. */
  lemma SinglesReadBack(a: nat)
    ensures ParseRange(Dec(a)) == Some((Stored(a), Stored(a)))
    ensures ParseRange(Dec(a) + "-") == Some((Stored(a), INT_MAX))
    ensures Stored(a) == a <==> a <= INT_MAX
  {
    var s := Numeral(a, 10);
    NumeralScans(a, "");
    NumeralScans(a, "-");
    StoredIs(a);
    hide Stored, ValueOf, Numeral, ScanInt, ParseRange;
    assert s + "" == s && (s + "-")[0] == s[0];
    ParseOneNumber(s, Stored(a));
    ParseOpenNumber(s + "-", Stored(a));
  }

  lemma ParseTwoNumbers(input: string, a: int, t: string, b: int)
    requires input != "" && IsDigit(input[0])
    requires ScanInt(input) == Some((a, "-" + t)) && ScanInt(t) == Some((b, ""))
    ensures ParseRange(input) == if a <= b then Some((a, b)) else None
  {
    assert ("-" + t)[1..] == t;
  }

  /** `$[a-b]` selects arguments a to b; backwards it is no range. */
  lemma RangesReadBack(a: nat, b: nat)
    ensures ParseRange(Dec(a) + "-" + Dec(b)) == if Stored(a) <= Stored(b) then Some((Stored(a), Stored(b))) else None
    ensures a <= INT_MAX && b <= INT_MAX ==>
              ParseRange(Dec(a) + "-" + Dec(b)) == if a <= b then Some((a, b)) else None
  {
    var s, t := Numeral(a, 10), Numeral(b, 10);
    NumeralScans(b, "");
    assert t + "" == t;
    NumeralScans(a, "-" + t);
    assert s + "-" + t == s + ("-" + t);
    StoredIs(a);
    StoredIs(b);
    ParseTwoNumbers(s + "-" + t, Stored(a), t, Stored(b));
  }

  lemma LargeNumberIsStored()
    ensures Stored(0xffff_ffff) == -1
  {
  }

  /** `$[4294967295]` is read as -1, and selects the first argument. */
  lemma LargeNumberSelectsFirst(tokens: seq<CStr>)
    requires tokens != []
    ensures ArgRange(Dec(0xffff_ffff), Some(tokens)) == Some(tokens[0])
  {
    LargeNumberIsStored();
    hide Stored, Numeral, Dec, ParseRange;
    SinglesReadBack(0xffff_ffff);
    assert Slice(tokens, -1, -1) == [tokens[0]];
  }
}
