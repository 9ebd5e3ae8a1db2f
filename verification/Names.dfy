/**
 * C strings and name lookup as namei uses them: strcmp and strfind of src/lib/string.cc, and the
 * search of a list of entry names that strcmp amounts to.
 */
module Names {
  import opened Common
  import opened CStrings

  const SLASH: Byte := 47

  /** A byte read as a signed char. */
  function SignedChar(b: Byte): int {
    if b < 128 then b else b - 256
  }

  /**
   * strcmp: zero exactly when the first string is a prefix of the second. (A first string that
   * goes on where the second ends compares unequal, the other way round it does not.)
   */
  method Strcmp(str1: seq<Byte>, str2: seq<Byte>) returns (r: int)
    requires 0 in str1 && 0 in str2
    ensures r == 0 <==> CString(str1) <= CString(str2)
  {
    hide CString;
    ghost var n1 := TerminatorOf(str1);
    ghost var n2 := TerminatorOf(str2);
    ghost var s1, s2 := CString(str1), CString(str2);
    Letters(str1, n1);
    Letters(str2, n2);
    var i := 0;
    while str1[i] != 0 && str2[i] != 0
      invariant 0 <= i <= n1 && i <= n2
      invariant forall j :: 0 <= j < i ==> s1[j] == s2[j]
      decreases n1 - i
    {
      if str1[i] != str2[i] {
        Differs(s1, s2, i);
        return SignedChar(str1[i]) - SignedChar(str2[i]);
      }
      i := i + 1;
    }
    if str1[i] == 0 {
      Agrees(s1, s2);
      return 0;
    }
    Differs(s1, s2, i);
    return SignedChar(str1[i]) - SignedChar(str2[i]);
  }

  lemma Letters(str: seq<Byte>, n: nat)
    requires n <= |str| && CString(str) == str[..n]
    ensures |CString(str)| == n && forall j :: 0 <= j < n ==> CString(str)[j] == str[j]
  {
  }

  lemma Differs(a: seq<Byte>, b: seq<Byte>, i: nat)
    requires i < |a| && (i < |b| ==> a[i] != b[i])
    ensures !(a <= b)
  {
  }

  lemma Agrees(a: seq<Byte>, b: seq<Byte>)
    requires |a| <= |b| && forall i :: 0 <= i < |a| ==> a[i] == b[i]
    ensures a <= b
  {
  }

  /** strfind: the first occurrence of ch from position from on, or the terminating NUL. */
  method Strfind(str: seq<Byte>, from: nat, ch: Byte) returns (p: nat)
    requires from < |str| && 0 in str[from..]
    ensures p == NextDelim(str, from, ch)
  {
    p := from;
    while str[p] != 0 && str[p] != ch
      invariant from <= p < |str| && 0 in str[p..]
      invariant NextDelim(str, from, ch) == NextDelim(str, p, ch)
      decreases |str| - p
    {
      assert str[p..] == [str[p]] + str[p + 1..];
      p := p + 1;
    }
  }

  /** The first position from from on that holds ch or NUL. */
  function NextDelim(str: seq<Byte>, from: nat, ch: Byte): (p: nat)
    requires from < |str| && 0 in str[from..]
    ensures from <= p < |str| && (str[p] == 0 || str[p] == ch)
    ensures forall i :: from <= i < p ==> str[i] != 0 && str[i] != ch
    decreases |str| - from
  {
    if str[from] == 0 || str[from] == ch then from
    else
      assert str[from..] == [str[from]] + str[from + 1..];
      NextDelim(str, from + 1, ch)
  }

  /** The first name that is a prefix of rest: what comparing with strcmp finds. */
  function FirstPrefix(names: seq<seq<Byte>>, rest: seq<Byte>): (r: Option<nat>)
    ensures r.Some? ==> r.value < |names|
  {
    if names == [] then None
    else if names[0] <= rest then Some(0)
    else match FirstPrefix(names[1..], rest) case None => None case Some(i) => Some(i + 1)
  }

  /** The first name that is exactly name. */
  function FirstExact(names: seq<seq<Byte>>, name: seq<Byte>): (r: Option<nat>)
    ensures r.Some? ==> r.value < |names|
  {
    if names == [] then None
    else if names[0] == name then Some(0)
    else match FirstExact(names[1..], name) case None => None case Some(i) => Some(i + 1)
  }

  /** The lookup by prefix in plain terms: the first name that is a prefix, or none when there is none. */
  lemma {:induction false} FirstPrefixFound(names: seq<seq<Byte>>, rest: seq<Byte>)
    ensures match FirstPrefix(names, rest)
      case None => forall j :: 0 <= j < |names| ==> !(names[j] <= rest)
      case Some(i) => names[i] <= rest && forall j :: 0 <= j < i ==> !(names[j] <= rest)
  {
    if names != [] && !(names[0] <= rest) {
      FirstPrefixFound(names[1..], rest);
      assert forall j :: 1 <= j < |names| ==> names[j] == names[1..][j - 1];
    }
  }

  /** The lookup by name in plain terms. */
  lemma {:induction false} FirstExactFound(names: seq<seq<Byte>>, name: seq<Byte>)
    ensures match FirstExact(names, name)
      case None => name !in names
      case Some(i) => names[i] == name && name !in names[..i]
  {
    if names != [] && names[0] != name {
      FirstExactFound(names[1..], name);
      var found := FirstExact(names, name);
      assert names == [names[0]] + names[1..];
      if found.Some? {
        assert names[..found.value] == [names[0]] + names[1..][..found.value - 1];
      }
    }
  }

  /** No name before the first exact match, or no name at all without one, is a prefix of rest. */
  ghost predicate Unshadowed(names: seq<seq<Byte>>, name: seq<Byte>, rest: seq<Byte>) {
    var found := FirstExact(names, name);
    var n := if found.Some? then found.value else |names|;
    forall i :: 0 <= i < n ==> !(names[i] <= rest)
  }

  /** The lookup finds the entry named name, or its absence, exactly when no entry shadows it. */
  lemma {:induction false} PrefixLookupExact(names: seq<seq<Byte>>, name: seq<Byte>, rest: seq<Byte>)
    requires name <= rest
    ensures FirstPrefix(names, rest) == FirstExact(names, name) <==> Unshadowed(names, name, rest)
  {
    if names != [] && names[0] != name {
      var tail := names[1..];
      PrefixLookupExact(tail, name, rest);
      var found := FirstExact(tail, name);
      var n := if found.Some? then found.value else |tail|;
      if names[0] <= rest {
        assert FirstPrefix(names, rest) == Some(0);
      } else {
        assert Unshadowed(names, name, rest) <==> Unshadowed(tail, name, rest) by {
          assert forall i :: 0 <= i < n ==> names[i + 1] == tail[i];
          assert forall i :: 1 <= i < n + 1 ==> tail[i - 1] == names[i];
        }
      }
    }
  }

  /** Names without slashes, none of them a proper prefix of the component, do not shadow it. */
  lemma NoProperPrefixUnshadowed(names: seq<seq<Byte>>, name: seq<Byte>, rest: seq<Byte>)
    requires name <= rest && (|rest| > |name| ==> rest[|name|] == SLASH)
    requires forall i :: 0 <= i < |names| ==> SLASH !in names[i] && !(names[i] < name)
    ensures Unshadowed(names, name, rest)
  {
    var found := FirstExact(names, name);
    var n := if found.Some? then found.value else |names|;
    forall i | 0 <= i < n ensures !(names[i] <= rest) {
      FirstExactIsFirst(names, name, i);
    }
  }

  lemma {:induction false} FirstExactIsFirst(names: seq<seq<Byte>>, name: seq<Byte>, i: nat)
    requires i < |names| && (FirstExact(names, name).Some? ==> i < FirstExact(names, name).value)
    ensures names[i] != name
  {
    if i > 0 {
      FirstExactIsFirst(names[1..], name, i - 1);
    }
  }

  /** An entry "te" before an entry "test" is what a lookup of "test" finds. */
  lemma PrefixNameShadows()
    ensures var te: seq<Byte>, test: seq<Byte> := [116, 101], [116, 101, 115, 116];
      FirstPrefix([te, test], test) == Some(0) && FirstExact([te, test], test) == Some(1)
  {
    var te: seq<Byte>, test: seq<Byte> := [116, 101], [116, 101, 115, 116];
    var names := [te, test];
    assert test[..2] == te;
    assert names[1..] == [test];
    assert te != test;
  }
}
