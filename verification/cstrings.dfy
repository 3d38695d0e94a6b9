/** Strings as C keeps them: characters in a buffer up to the first NUL. */
module CStrings {

  datatype Option<+T> = None | Some(value: T)

  const NUL := '\0'

  /** The text of a C string: it has no NUL inside. */
  type CStr = s: string | NUL !in s

  /** The C string that starts at the beginning of `q`. */
  function CString(q: seq<char>): (s: CStr)
    ensures |s| <= |q| && s == q[..|s|]
    ensures |s| < |q| ==> q[|s|] == NUL
    ensures NUL in q <==> |s| < |q|
  {
    if q == [] || q[0] == NUL then ""
    else
      var rest := CString(q[1..]);
      assert NUL in q <==> NUL in q[1..] by {
        assert q == [q[0]] + q[1..];
      }
      [q[0]] + rest
  }

  /** A C string is fixed by the place of the first NUL. */
  lemma {:induction false} CStringEndsAt(q: seq<char>, n: nat)
    requires n < |q| && q[n] == NUL && NUL !in q[..n]
    ensures CString(q) == q[..n]
  {
    if n > 0 {
      assert q[..n][0] == q[0] && q[1..][..n - 1] == q[..n][1..];
      CStringEndsAt(q[1..], n - 1);
      assert q[..n] == [q[0]] + q[1..][..n - 1];
    }
  }

  /** strlen() of the string at offset `p`. */
  method StrLen(a: array<char>, p: nat) returns (l: nat)
    requires p <= a.Length && NUL in a[p..]
    ensures p + l < a.Length && a[p + l] == NUL
    ensures a[p..p + l] == CString(a[p..])
  {
    l := 0;
    while a[p + l] != NUL
      invariant p + l < a.Length
      invariant l <= |CString(a[p..])| < a.Length - p
      invariant NUL !in a[p..][..l]
      decreases a.Length - l
    {
      assert a[p..][l] != NUL;
      assert a[p..][..l + 1] == a[p..][..l] + [a[p + l]];
      l := l + 1;
    }
    CStringEndsAt(a[p..], l);
    assert a[p..][..l] == a[p..p + l];
  }

  /** memcpy() to offset `j`. */
  method PutText(out: array<char>, j: nat, s: string)
    requires j + |s| <= out.Length
    modifies out
    ensures out[..j] == old(out[..j]) && out[j..j + |s|] == s
    ensures out[j + |s|..] == old(out[j + |s|..])
  {
    var k := 0;
    while k < |s|
      invariant k <= |s|
      invariant out[..j] == old(out[..j]) && out[j..j + k] == s[..k]
      invariant out[j + k..] == old(out[j + k..])
    {
      assert out[j + k..][1..] == out[j + k + 1..];
      out[j + k] := s[k];
      k := k + 1;
    }
  }

  /** strcpy() to offset `j`, with the terminating NUL. */
  method PutString(out: array<char>, j: nat, s: string)
    requires j + |s| < out.Length
    modifies out
    ensures out[..j] == old(out[..j])
    ensures out[j..j + |s|] == s && out[j + |s|] == NUL
  {
    PutText(out, j, s);
    assert out[..j + |s|] == out[..j] + out[j..j + |s|];
    out[j + |s|] := NUL;
    assert out[..j] == out[..j + |s|][..j] && out[j..j + |s|] == out[..j + |s|][j..];
  }
}
