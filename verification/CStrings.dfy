/** C strings in memory. */
module CStrings {
  import opened Common

  /** The characters before the first NUL. */
  function CString(s: seq<Byte>): (r: seq<Byte>) {
    if s == [] || s[0] == 0 then [] else [s[0]] + CString(s[1..])
  }

  lemma {:induction false} CStringIs(s: seq<Byte>, n: nat)
    requires n < |s| && s[n] == 0 && forall i :: 0 <= i < n ==> s[i] != 0
    ensures CString(s) == s[..n]
  {
    if n > 0 {
      CStringIs(s[1..], n - 1);
      assert s[..n] == [s[0]] + s[1..][..n - 1];
    }
  }

  /** The length of the C string at the front of memory that holds a NUL somewhere. */
  lemma TerminatorOf(s: seq<Byte>) returns (n: nat)
    requires 0 in s
    ensures n < |s| && s[n] == 0 && (forall i :: 0 <= i < n ==> s[i] != 0) && CString(s) == s[..n]
  {
    n := 0;
    while s[n] != 0
      invariant n < |s| && forall i :: 0 <= i < n ==> s[i] != 0
      invariant exists j :: n <= j < |s| && s[j] == 0
      decreases |s| - n
    {
      n := n + 1;
    }
    CStringIs(s, n);
  }
}
