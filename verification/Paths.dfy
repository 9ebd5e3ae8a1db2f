/**
 * Path resolution as namei of src/lib/fs.cc does it, against its meaning: split the path at the
 * slashes and look each component up by its exact name.
 */
module Paths {
  import opened Common
  import opened CStrings
  import opened Names

  /** A directory: entry i has name names[i] and inode number targets[i]. Other files have no entries. */
  datatype Dir = Dir(names: seq<seq<Byte>>, targets: seq<nat>) {
    predicate Valid() {
      |names| == |targets|
    }

    /** The inode number that a lookup's hit leads to. */
    function Goto(hit: Option<nat>): Option<nat> {
      if hit.None? || hit.value >= |targets| then None else Some(targets[hit.value])
    }
  }

  /** The directory of each inode number. */
  type FS = fs: seq<Dir> | forall d <- fs :: d.Valid()

  /** Fault: an inode is used that does not exist, or is null. */
  datatype End = Found(ino: nat) | Missing | Fault

  /** How a resolution ended, and the entry hit in each directory on the way. */
  datatype Outcome = Outcome(hits: seq<Option<nat>>, end: End)

  function EndAt(ino: Option<nat>): End {
    match ino case None => Missing case Some(i) => Found(i)
  }

  function After(hit: Option<nat>, rest: Outcome): Outcome {
    Outcome([hit] + rest.hits, rest.end)
  }

  /** The position of the first slash, or the length. */
  function FirstSlash(s: seq<Byte>): (k: nat)
    ensures k <= |s| && SLASH !in s[..k] && (k < |s| ==> s[k] == SLASH)
  {
    if s == [] || s[0] == SLASH then 0
    else
      var k := FirstSlash(s[1..]) + 1;
      assert s[..k] == [s[0]] + s[1..][..k - 1];
      k
  }

  /** The components of a path: what lies between the slashes. */
  function Split(s: seq<Byte>): (r: seq<seq<Byte>>)
    ensures r != []
    decreases |s|
  {
    var k := FirstSlash(s);
    if k == |s| then [s] else [s[..k]] + Split(s[k + 1..])
  }

  function Join(comps: seq<seq<Byte>>): seq<Byte> {
    if comps == [] then [] else if |comps| == 1 then comps[0] else comps[0] + [SLASH] + Join(comps[1..])
  }

  lemma {:induction false} JoinSplit(s: seq<Byte>)
    ensures Join(Split(s)) == s && forall c <- Split(s) :: SLASH !in c
    decreases |s|
  {
    var k := FirstSlash(s);
    if k < |s| {
      JoinSplit(s[k + 1..]);
      assert Split(s)[1..] == Split(s[k + 1..]);
      assert s == s[..k] + [SLASH] + s[k + 1..];
    } else {
      assert s[..k] == s;
    }
  }

  lemma FirstSlashIs(s: seq<Byte>, k: nat)
    requires k <= |s| && SLASH !in s[..k] && (k < |s| ==> s[k] == SLASH)
    ensures FirstSlash(s) == k
  {
    var j := FirstSlash(s);
    assert forall i :: 0 <= i < k ==> s[..k][i] == s[i];
    assert forall i :: 0 <= i < j ==> s[..j][i] == s[i];
  }

  /** Splitting is the only way to read a path as slash-free components. */
  lemma {:induction false} SplitJoin(comps: seq<seq<Byte>>)
    requires comps != [] && forall c <- comps :: SLASH !in c
    ensures Split(Join(comps)) == comps
  {
    var s, k := Join(comps), |comps[0]|;
    assert s[..k] == comps[0];
    FirstSlashIs(s, k);
    if |comps| > 1 {
      SplitJoin(comps[1..]);
      assert s[k + 1..] == Join(comps[1..]);
    }
  }

  /** What namei does from directory at with the rest s of the path: look up by prefix. */
  function Walk(fs: FS, at: nat, s: seq<Byte>): Outcome
    decreases |s|
  {
    if at >= |fs| then Outcome([], Fault)
    else
      var k, hit := FirstSlash(s), FirstPrefix(fs[at].names, s);
      var next := fs[at].Goto(hit);
      if k == |s| then Outcome([hit], EndAt(next))
      else After(hit, if next.None? then Outcome([], Fault) else Walk(fs, next.value, s[k + 1..]))
  }

  /** What a path means: look up each component by its exact name; what is missing is missing. */
  function Resolve(fs: FS, at: nat, comps: seq<seq<Byte>>): Outcome
    requires comps != []
    decreases |comps|
  {
    if at >= |fs| then Outcome([], Fault)
    else
      var hit := FirstExact(fs[at].names, comps[0]);
      var next := fs[at].Goto(hit);
      if |comps| == 1 then Outcome([hit], EndAt(next))
      else After(hit, if next.None? then Outcome([], Missing) else Resolve(fs, next.value, comps[1..]))
  }

  /** The entry at place i is the first with this name. */
  predicate FirstNamed(names: seq<seq<Byte>>, name: seq<Byte>, i: nat) {
    i < |names| && names[i] == name && name !in names[..i]
  }

  lemma OneFirst(names: seq<seq<Byte>>, name: seq<Byte>, i: nat, j: nat)
    requires FirstNamed(names, name, i) && FirstNamed(names, name, j)
    ensures i == j
  {
    assert forall k :: 0 <= k < i ==> names[..i][k] == names[k];
    assert forall k :: 0 <= k < j ==> names[..j][k] == names[k];
  }

  /** The first entry with this name leads from one inode number to the other. */
  ghost predicate Leads(fs: FS, from: nat, name: seq<Byte>, to: nat) {
    from < |fs| && exists i: nat :: FirstNamed(fs[from].names, name, i) && fs[from].targets[i] == to
  }

  /** Each component leads on from where the ones before it led. */
  ghost predicate Chain(fs: FS, nodes: seq<nat>, comps: seq<seq<Byte>>) {
    |nodes| == |comps| + 1 && forall i :: 0 <= i < |comps| ==> Leads(fs, nodes[i], comps[i], nodes[i + 1])
  }

  lemma LeadsIsGoto(fs: FS, from: nat, name: seq<Byte>, to: nat)
    requires from < |fs|
    ensures Leads(fs, from, name, to) <==> fs[from].Goto(FirstExact(fs[from].names, name)) == Some(to)
  {
    var names, found := fs[from].names, FirstExact(fs[from].names, name);
    FirstExactFound(names, name);
    forall i: nat | FirstNamed(names, name, i) ensures found == Some(i) {
      if found.Some? {
        OneFirst(names, name, i, found.value);
      }
    }
    if found.Some? {
      assert FirstNamed(names, name, found.value);
    }
  }

  lemma {:induction false} ChainIsFound(fs: FS, nodes: seq<nat>, comps: seq<seq<Byte>>)
    requires comps != [] && Chain(fs, nodes, comps)
    ensures Resolve(fs, nodes[0], comps).end == Found(nodes[|comps|])
    decreases |comps|
  {
    hide FirstExact, Dir.Goto, Leads;
    assert Leads(fs, nodes[0], comps[0], nodes[1]);
    LeadsInside(fs, nodes[0], comps[0], nodes[1]);
    LeadsIsGoto(fs, nodes[0], comps[0], nodes[1]);
    if |comps| > 1 {
      var tail, rest := comps[1..], nodes[1..];
      forall i | 0 <= i < |tail| ensures Leads(fs, rest[i], tail[i], rest[i + 1]) {
        assert Leads(fs, nodes[i + 1], comps[i + 1], nodes[i + 2]);
      }
      ChainIsFound(fs, rest, tail);
    }
  }

  lemma LeadsInside(fs: FS, from: nat, name: seq<Byte>, to: nat)
    requires Leads(fs, from, name, to)
    ensures from < |fs|
  {
  }

  lemma {:induction false} FoundIsChain(fs: FS, at: nat, comps: seq<seq<Byte>>, ino: nat) returns (nodes: seq<nat>)
    requires comps != [] && Resolve(fs, at, comps).end == Found(ino)
    ensures Chain(fs, nodes, comps) && nodes[0] == at && nodes[|comps|] == ino
    decreases |comps|
  {
    hide FirstExact, Dir.Goto, Leads;
    var next := fs[at].Goto(FirstExact(fs[at].names, comps[0]));
    LeadsIsGoto(fs, at, comps[0], next.value);
    if |comps| == 1 {
      nodes := [at, ino];
    } else {
      var rest := FoundIsChain(fs, next.value, comps[1..], ino);
      nodes := [at] + rest;
      forall i | 0 <= i < |comps| ensures Leads(fs, nodes[i], comps[i], nodes[i + 1]) {
        if i > 0 {
          assert Leads(fs, rest[i - 1], comps[1..][i - 1], rest[i]);
        }
      }
    }
  }

  /** A path is found where the chain of inodes ends that its components lead along from the start. */
  lemma ResolveIsChain(fs: FS, at: nat, comps: seq<seq<Byte>>, ino: nat)
    requires comps != []
    ensures Resolve(fs, at, comps).end == Found(ino) <==>
              exists nodes :: Chain(fs, nodes, comps) && nodes[0] == at && nodes[|comps|] == ino
  {
    hide Resolve;
    if Resolve(fs, at, comps).end == Found(ino) {
      var nodes := FoundIsChain(fs, at, comps, ino);
    }
    forall nodes | Chain(fs, nodes, comps) && nodes[0] == at && nodes[|comps|] == ino
      ensures Resolve(fs, at, comps).end == Found(ino)
    {
      ChainIsFound(fs, nodes, comps);
    }
  }

  /**
   * On the way that the path means, no entry shadows the component looked for, and every component
   * but the last is there.
   */
  ghost predicate Clear(fs: FS, at: nat, s: seq<Byte>)
    decreases |s|
  {
    at < |fs| ==>
      var k := FirstSlash(s);
      var hit := FirstExact(fs[at].names, s[..k]);
      && Unshadowed(fs[at].names, s[..k], s)
      && (k < |s| ==> hit.Some? && Clear(fs, fs[at].targets[hit.value], s[k + 1..]))
  }

  /** namei follows the entries that the path means, to the same end, exactly when the way is clear. */
  lemma {:induction false} WalkIsResolve(fs: FS, at: nat, s: seq<Byte>)
    ensures Walk(fs, at, s) == Resolve(fs, at, Split(s)) <==> Clear(fs, at, s)
    decreases |s|
  {
    if at < |fs| {
      var k := FirstSlash(s);
      var prefix, exact := FirstPrefix(fs[at].names, s), FirstExact(fs[at].names, s[..k]);
      PrefixLookupExact(fs[at].names, s[..k], s);
      assert k == |s| ==> s[..k] == s;
      assert Walk(fs, at, s).hits[0] == prefix && Resolve(fs, at, Split(s)).hits[0] == exact;
      if k < |s| && prefix == exact && exact.Some? {
        var next := fs[at].targets[exact.value];
        WalkIsResolve(fs, next, s[k + 1..]);
        assert Split(s)[1..] == Split(s[k + 1..]);
        AfterInjective(exact, Walk(fs, next, s[k + 1..]), Resolve(fs, next, Split(s[k + 1..])));
      }
    }
  }

  lemma AfterInjective(hit: Option<nat>, a: Outcome, b: Outcome)
    ensures After(hit, a) == After(hit, b) <==> a == b
  {
    assert ([hit] + a.hits)[1..] == a.hits && ([hit] + b.hits)[1..] == b.hits;
  }

  /** On the way that the path means, as far as it goes, no entry shadows the component looked for. */
  ghost predicate UnshadowedWay(fs: FS, at: nat, s: seq<Byte>)
    decreases |s|
  {
    at < |fs| ==>
      var k := FirstSlash(s);
      var hit := FirstExact(fs[at].names, s[..k]);
      && Unshadowed(fs[at].names, s[..k], s)
      && (k < |s| && hit.Some? ==> UnshadowedWay(fs, fs[at].targets[hit.value], s[k + 1..]))
  }

  /**
   * On an unshadowed way namei hits just the entries that the path means, and only a path that is cut
   * short by a missing directory ends otherwise: namei faults where the path is missing.
   */
  lemma {:induction false} MissingDirectoryFaults(fs: FS, at: nat, s: seq<Byte>)
    requires UnshadowedWay(fs, at, s)
    ensures var walked, meant := Walk(fs, at, s), Resolve(fs, at, Split(s));
      && walked.hits == meant.hits && |meant.hits| <= |Split(s)|
      && walked.end == if meant.end == Missing && |meant.hits| < |Split(s)| then Fault else meant.end
    decreases |s|
  {
    hide Split, FirstSlash, FirstPrefix, FirstExact, Unshadowed;
    if at < |fs| {
      var k := FirstSlash(s);
      var exact := FirstExact(fs[at].names, s[..k]);
      SplitFirst(s);
      PrefixLookupExact(fs[at].names, s[..k], s);
      if k < |s| && exact.Some? {
        var next := fs[at].targets[exact.value];
        MissingDirectoryFaults(fs, next, s[k + 1..]);
        assert Walk(fs, at, s) == After(exact, Walk(fs, next, s[k + 1..]));
        assert Resolve(fs, at, Split(s)) == After(exact, Resolve(fs, next, Split(s[k + 1..])));
      }
    }
  }

  /** Every component but the last is there. */
  ghost predicate Resolves(fs: FS, at: nat, comps: seq<seq<Byte>>)
    requires comps != []
    decreases |comps|
  {
    at < |fs| && |comps| > 1 ==>
      var hit := FirstExact(fs[at].names, comps[0]);
      hit.Some? && Resolves(fs, fs[at].targets[hit.value], comps[1..])
  }

  /** No name has a slash, or is a proper prefix of the component. */
  ghost predicate Plain(names: seq<seq<Byte>>, comp: seq<Byte>) {
    forall i :: 0 <= i < |names| ==> SLASH !in names[i] && !(names[i] < comp)
  }

  /** So it is in every directory on the way that the path means, with the component looked for there. */
  ghost predicate PlainWay(fs: FS, at: nat, comps: seq<seq<Byte>>)
    requires comps != []
    decreases |comps|
  {
    at < |fs| ==>
      var hit := FirstExact(fs[at].names, comps[0]);
      && Plain(fs[at].names, comps[0])
      && (|comps| > 1 && hit.Some? ==> PlainWay(fs, fs[at].targets[hit.value], comps[1..]))
  }

  /**
   * Where no directory on the way has a name that is a proper prefix of the component looked for there,
   * namei gives every path whose components but the last exist its meaning.
   */
  lemma NamesWithoutPrefixes(fs: FS, at: nat, s: seq<Byte>)
    requires PlainWay(fs, at, Split(s)) && Resolves(fs, at, Split(s))
    ensures Walk(fs, at, s) == Resolve(fs, at, Split(s))
  {
    ClearWithoutPrefixes(fs, at, s);
    WalkIsResolve(fs, at, s);
  }

  /** The first component is what comes before the first slash, the others are those of the rest. */
  lemma SplitFirst(s: seq<Byte>)
    ensures var k := FirstSlash(s);
      Split(s)[0] == s[..k] && (k < |s| ==> Split(s)[1..] == Split(s[k + 1..])) && (k == |s| ==> |Split(s)| == 1)
  {
    assert s[..|s|] == s;
  }

  lemma {:induction false} ClearWithoutPrefixes(fs: FS, at: nat, s: seq<Byte>)
    requires PlainWay(fs, at, Split(s)) && Resolves(fs, at, Split(s))
    ensures Clear(fs, at, s)
    decreases |s|
  {
    hide Split;
    if at < |fs| {
      SplitFirst(s);
      var k, names := FirstSlash(s), fs[at].names;
      NoProperPrefixUnshadowed(names, s[..k], s);
      if k < |s| {
        ClearWithoutPrefixes(fs, fs[at].targets[FirstExact(names, s[..k]).value], s[k + 1..]);
      }
    }
  }

  /** The path "/" does not name the root: it is the search for an entry without a name. */
  lemma SlashAlone(fs: FS, at: nat)
    requires at < |fs|
    ensures Walk(fs, at, []).end == Missing <==> [] !in fs[at].names
  {
    EmptyPrefix(fs[at].names);
  }

  lemma {:induction false} EmptyPrefix(names: seq<seq<Byte>>)
    ensures FirstPrefix(names, []) == None <==> [] !in names
  {
    if names != [] {
      EmptyPrefix(names[1..]);
      assert names == [names[0]] + names[1..];
    }
  }

  /** With "te" listed before "test" in the root, the path "/test" leads to te's inode. */
  lemma ShadowedPath()
    ensures var te: seq<Byte>, test: seq<Byte> := [116, 101], [116, 101, 115, 116];
      var fs: FS := [Dir([], []), Dir([te, test], [2, 3])];
      Walk(fs, 1, test).end == Found(2) && Resolve(fs, 1, Split(test)).end == Found(3)
  {
    var test: seq<Byte> := [116, 101, 115, 116];
    PrefixNameShadows();
    FirstSlashIs(test, 4);
  }

  /** Where the next delimiter is, seen in the string. */
  lemma DelimInString(m: seq<Byte>, n: nat, k: nat)
    requires n < |m| && m[n] == 0 && k <= n && (m[k] == 0 || m[k] == SLASH)
    requires forall i :: 0 <= i < n ==> m[i] != 0
    requires forall i :: 0 <= i < k ==> m[i] != SLASH
    ensures FirstSlash(m[..n]) == k && (m[k] == 0 <==> k == n)
  {
    var s := m[..n];
    assert SLASH !in s[..k] by {
      assert forall i :: 0 <= i < k ==> s[..k][i] == m[i];
    }
    FirstSlashIs(s, k);
  }

  /** What follows the delimiter, seen in the string. */
  lemma StringTail(path: seq<Byte>, p: nat, n: nat, k: nat)
    requires k < n && p + n < |path| && path[p + n] == 0 && forall i :: 0 <= i < n ==> path[p..][i] != 0
    ensures 0 in path[p + k + 1..] && CString(path[p + k + 1..]) == path[p..][..n][k + 1..]
  {
    var m, m' := path[p..], path[p + k + 1..];
    assert forall i :: 0 <= i < |m'| ==> m'[i] == m[k + 1 + i];
    CStringIs(m', n - (k + 1));
    assert m'[..n - (k + 1)] == m[..n][k + 1..];
  }

  /** One round of namei on the path in memory from position p is one round on the rest of the string. */
  lemma Component(path: seq<Byte>, p: nat)
    requires p < |path| && 0 in path[p..]
    ensures var s, delim := CString(path[p..]), NextDelim(path, p, SLASH);
      && FirstSlash(s) == delim - p
      && (path[delim] == 0 <==> FirstSlash(s) == |s|)
      && (path[delim] != 0 ==> 0 in path[delim + 1..] && CString(path[delim + 1..]) == s[FirstSlash(s) + 1..])
  {
    hide FirstSlash, CString, NextDelim;
    var m, delim := path[p..], NextDelim(path, p, SLASH);
    var n := TerminatorOf(m);
    var k := delim - p;
    assert forall i :: 0 <= i < |m| ==> m[i] == path[p + i];
    DelimInString(m, n, k);
    if k < n {
      StringTail(path, p, n, k);
    }
  }

  /** How namei ends from a pointer to an inode, or null. */
  function WalkFrom(fs: FS, inode: Option<nat>, s: seq<Byte>): End {
    match inode case None => Fault case Some(at) => Walk(fs, at, s).end
  }

  lemma WalkFromSome(fs: FS, at: nat, s: seq<Byte>)
    ensures WalkFrom(fs, Some(at), s) == Walk(fs, at, s).end
  {
  }

  lemma WalkFromFault(fs: FS, inode: Option<nat>, s: seq<Byte>)
    ensures inode.None? || inode.value >= |fs| ==> WalkFrom(fs, inode, s) == Fault
  {
  }

  /** One round of namei's loop keeps its outcome. */
  lemma WalkRound(fs: FS, at: nat, path: seq<Byte>, p: nat)
    requires at < |fs| && p < |path| && 0 in path[p..]
    ensures var delim := NextDelim(path, p, SLASH);
      var next := fs[at].Goto(FirstPrefix(fs[at].names, CString(path[p..])));
      && (path[delim] == 0 ==> Walk(fs, at, CString(path[p..])).end == EndAt(next))
      && (path[delim] != 0 ==>
            && 0 in path[delim + 1..]
            && Walk(fs, at, CString(path[p..])).end == WalkFrom(fs, next, CString(path[delim + 1..])))
  {
    hide CString, NextDelim, FirstSlash, FirstPrefix;
    Component(path, p);
  }
}
