/**
 * The C string conventions the shell relies on: a string is the characters of
 * a buffer before its first NUL. The library routines main.c calls
 * (strlen, strcspn, strcmp) are modelled on buffers of characters.
 */
module CStr {

  const NUL: char := '\0'

  /** The characters of `s` before its first NUL (all of `s` when it holds none). */
  function UntilNul(s: seq<char>): (r: seq<char>)
    ensures r <= s
    ensures NUL !in r
    ensures |r| < |s| ==> s[|r|] == NUL
  {
    if |s| == 0 || s[0] == NUL then [] else [s[0]] + UntilNul(s[1..])
  }

  /** strlen: the index of the terminating NUL of a buffer that has one. */
  function Strlen(buf: seq<char>): (n: nat)
    requires NUL in buf
    ensures n < |buf| && buf[n] == NUL
    ensures forall i :: 0 <= i < n ==> buf[i] != NUL
  {
    |UntilNul(buf)|
  }

  /**
   * strcspn(s, reject): the length of the initial run of `s` that holds no
   * character of `reject`, never reading past the terminating NUL.
   */
  function Strcspn(s: seq<char>, reject: seq<char>): (n: nat)
    ensures n <= |UntilNul(s)|
    ensures forall i :: 0 <= i < n ==> s[i] !in reject
    ensures n < |UntilNul(s)| ==> s[n] in reject
  {
    if |s| == 0 || s[0] == NUL || s[0] in reject then 0
    else 1 + Strcspn(s[1..], reject)
  }

  /**
   * strcmp(a, b) == 0: the buffers agree character by character up to and
   * including the first NUL.
   */
  function StrEqual(a: seq<char>, b: seq<char>): (eq: bool)
    requires NUL in a && NUL in b
    ensures eq <==> UntilNul(a) == UntilNul(b)
  {
    if a[0] != b[0] then false
    else if a[0] == NUL then true
    else StrEqual(a[1..], b[1..])
  }

  /** A NUL at index `k` ends the string there: what lies beyond it is invisible. */
  lemma {:induction false} UntilNulCut(s: seq<char>, k: nat)
    requires k < |s| && s[k] == NUL
    ensures UntilNul(s) == UntilNul(s[..k])
  {
    if k > 0 && s[0] != NUL {
      assert s[1..][..k - 1] == s[..k][1..];
      UntilNulCut(s[1..], k - 1);
    }
  }

  /** Appending characters after a NUL does not change the string. */
  lemma UntilNulTerminated(s: seq<char>, tail: seq<char>)
    ensures UntilNul(s + [NUL] + tail) == UntilNul(s)
  {
    UntilNulCut(s + [NUL] + tail, |s|);
    assert (s + [NUL] + tail)[..|s|] == s;
    UntilNulCut(s + [NUL], |s|);
  }

  /** A string without NUL is its own C string. */
  lemma {:induction false} UntilNulNoNul(s: seq<char>)
    requires NUL !in s
    ensures UntilNul(s) == s
  {
    if |s| > 0 {
      assert NUL !in s[1..];
      UntilNulNoNul(s[1..]);
    }
  }
}
