/** NUL-terminated character buffers, as the C string functions read them. */
module CString {

  /** No NUL occurs in `s`: it is the content of a C string. */
  predicate NoNul(s: seq<char>) {
    forall k :: 0 <= k < |s| ==> s[k] != '\0'
  }

  /** strlen: the position of the first NUL, or the whole buffer when there
      is none (reading on from there is undefined in C). */
  function StrLen(s: seq<char>): (n: nat)
    ensures n <= |s| && NoNul(s[..n])
    ensures n < |s| ==> s[n] == '\0'
    decreases |s|
  {
    if s == [] || s[0] == '\0' then 0 else 1 + StrLen(s[1..])
  }

  /** The string a buffer holds: everything before its first NUL. */
  function CStr(s: seq<char>): seq<char> {
    s[..StrLen(s)]
  }

  /** A NUL right after NUL-free content ends the string there. */
  lemma {:induction false} StrLenAt(s: seq<char>, n: nat)
    requires n < |s| && NoNul(s[..n]) && s[n] == '\0'
    ensures StrLen(s) == n && CStr(s) == s[..n]
    decreases n
  {
    if n > 0 {
      assert s[..n][0] == s[0];
      assert s[1..][..n - 1] == s[..n][1..];
      StrLenAt(s[1..], n - 1);
    }
  }

  /** strlen stops at or before any NUL of the buffer. */
  lemma {:induction false} StrLenBefore(s: seq<char>, i: nat)
    requires i < |s| && s[i] == '\0'
    ensures StrLen(s) <= i
    decreases i
  {
    if s[0] != '\0' {
      assert s[1..][i - 1] == s[i];
      StrLenBefore(s[1..], i - 1);
    }
  }

  /** Two NUL-free strings concatenate to a NUL-free string. */
  lemma NoNulConcat(a: seq<char>, b: seq<char>)
    requires NoNul(a) && NoNul(b)
    ensures NoNul(a + b)
  {
    assert forall k :: |a| <= k < |a| + |b| ==> (a + b)[k] == b[k - |a|];
  }
}
