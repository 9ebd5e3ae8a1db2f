/**
 * The stack of free physical pages of src/lib/pmm.cc. A failed assertion halts the kernel; the
 * methods report it with a result instead.
 */
module PhysicalPages {
  import opened Common

  const PAGE := 0x1000
  const MAX_SIZE := 0x20000000
  const MAX_PAGES := MAX_SIZE / PAGE

  /** The index of the first occurrence of x, or the length. */
  function IndexOf(s: seq<nat>, x: nat): (i: nat)
    ensures i <= |s| && x !in s[..i] && (i < |s| ==> s[i] == x)
  {
    if s == [] || s[0] == x then 0
    else
      assert s[..IndexOf(s[1..], x) + 1] == [s[0]] + s[1..][..IndexOf(s[1..], x)];
      IndexOf(s[1..], x) + 1
  }

  function Last(s: seq<nat>): nat
    requires s != []
  {
    s[|s| - 1]
  }

  function ButLast(s: seq<nat>): (r: seq<nat>)
    requires s != []
    ensures |r| == |s| - 1
  {
    s[..|s| - 1]
  }

  /** Element i taken out, the last element moved to its place. */
  function SwapRemove(s: seq<nat>, i: nat): seq<nat>
    requires i < |s|
  {
    ButLast(s[i := Last(s)])
  }

  lemma MultisetLast(s: seq<nat>)
    requires s != []
    ensures multiset(s) == multiset(ButLast(s)) + multiset{Last(s)}
  {
    assert s == ButLast(s) + [Last(s)];
  }

  lemma MultisetSwapRemove(s: seq<nat>, i: nat)
    requires i < |s|
    ensures multiset(s) == multiset(SwapRemove(s, i)) + multiset{s[i]}
  {
    var t := s[i := Last(s)];
    MultisetLast(t);
    assert multiset(t) == multiset(s) - multiset{s[i]} + multiset{Last(s)};
    assert Last(t) == Last(s);
  }

  lemma SwapRemoved(s: seq<nat>, i: nat)
    requires i < |s|
    ensures var r := SwapRemove(s, i);
      |r| == |s| - 1 && forall j :: 0 <= j < |s| - 1 ==> r[j] == if j == i then s[|s| - 1] else s[j]
  {
  }

  /** An entry of the memory map. */
  datatype MmapEntry = MmapEntry(baseLow: nat, lengthLow: nat, kind: nat) {
    predicate Valid() {
      baseLow < WORD && lengthLow < WORD
    }

    predicate Matches() {
      kind == 1 && baseLow == 0x100000
    }
  }

  /** The page addresses that the inner loop of init_pmm pushes. */
  function Pages(addr: nat, end: nat): seq<nat>
    decreases MAX_SIZE + PAGE - addr
  {
    if addr < end && addr <= MAX_SIZE then [addr] + Pages(addr + PAGE, end) else []
  }

  lemma PagesStep(addr: nat, end: nat)
    requires addr < end && addr <= MAX_SIZE
    ensures Pages(addr, end) == [addr] + Pages(addr + PAGE, end)
  {
  }

  /** One more page pushed is one less to push. */
  lemma PagesNext(before: seq<nat>, pushed: seq<nat>, addr: nat, end: nat)
    requires addr < end && addr <= MAX_SIZE
    ensures pushed + Pages(addr, end) == (pushed + [addr]) + Pages(addr + PAGE, end)
    ensures (before + pushed) + [addr] == before + (pushed + [addr])
    ensures |Pages(addr, end)| >= 1
  {
    hide Pages;
    PagesStep(addr, end);
  }

  lemma PagesEnd(addr: nat, end: nat)
    requires addr >= end || addr > MAX_SIZE
    ensures Pages(addr, end) == []
  {
  }

  /** The pages of one entry, for a kernel of this size. */
  function EntryPages(e: MmapEntry, kernSize: nat): seq<nat> {
    if e.Matches() then Pages((e.baseLow + kernSize) % WORD, (e.baseLow + e.lengthLow) % WORD) else []
  }

  function AllPages(entries: seq<MmapEntry>, kernSize: nat): seq<nat> {
    if entries == [] then [] else EntryPages(entries[0], kernSize) + AllPages(entries[1..], kernSize)
  }

  /** Exactly the pages from addr on, in steps of a page, below end and up to the supported size. */
  lemma {:induction false} PagesAt(addr: nat, end: nat)
    ensures forall k :: 0 <= k < |Pages(addr, end)| ==> Pages(addr, end)[k] == addr + PAGE * k
    ensures var n := |Pages(addr, end)|; addr + PAGE * n >= end || addr + PAGE * n > MAX_SIZE
    ensures var n := |Pages(addr, end)|; n > 0 ==> addr + PAGE * (n - 1) < end && addr + PAGE * (n - 1) <= MAX_SIZE
    decreases MAX_SIZE + PAGE - addr
  {
    if addr < end && addr <= MAX_SIZE {
      PagesAt(addr + PAGE, end);
    }
  }

  /** Entry e has page p: available memory at 1 MB, from behind the kernel on. All sums are 32 bits wide. */
  ghost predicate HasPage(e: MmapEntry, kernSize: nat, p: nat) {
    && e.kind == 1 && e.baseLow == 0x100000
    && p < (0x100000 + e.lengthLow) % 0x1_0000_0000 && p <= 0x20000000
    && exists k: nat {:trigger PageAt(kernSize, k)} :: p == PageAt(kernSize, k)
  }

  function PageAt(kernSize: nat, k: nat): (p: int)
    ensures p == (0x100000 + kernSize) % 0x1_0000_0000 + 0x1000 * k
  {
    (0x100000 + kernSize) % WORD + PAGE * k
  }

  /** The pages of an entry are those that it has. */
  lemma EntryPagesAre(e: MmapEntry, kernSize: nat, p: nat)
    ensures p in EntryPages(e, kernSize) <==> HasPage(e, kernSize, p)
  {
    hide Pages;
    var start, end := (0x100000 + kernSize) % WORD, (0x100000 + e.lengthLow) % WORD;
    var s := Pages(start, end);
    PagesAt(start, end);
    if e.Matches() {
      if p in s {
        var k :| 0 <= k < |s| && s[k] == p;
        assert p == PageAt(kernSize, k);
        LastPage(s, k);
      }
      if HasPage(e, kernSize, p) {
        var k: nat :| p == PageAt(kernSize, k);
        assert k < |s|;
        assert s[k] == p;
      }
    }
  }

  lemma LastPage(s: seq<nat>, k: nat)
    requires k < |s| && forall i :: 0 <= i < |s| ==> s[i] == s[0] + PAGE * i
    ensures s[k] <= s[|s| - 1]
  {
  }

  /** The pages pushed are those that some entry has. */
  lemma {:induction false} AllPagesAre(entries: seq<MmapEntry>, kernSize: nat, p: nat)
    ensures p in AllPages(entries, kernSize) <==> exists i :: 0 <= i < |entries| && HasPage(entries[i], kernSize, p)
  {
    hide HasPage, EntryPages;
    if entries != [] {
      EntryPagesAre(entries[0], kernSize, p);
      AllPagesAre(entries[1..], kernSize, p);
      assert forall i :: 1 <= i < |entries| ==> entries[i] == entries[1..][i - 1];
      assert forall i :: 0 <= i < |entries[1..]| ==> entries[1..][i] == entries[i + 1];
    }
  }

  /** When the kernel's end does not wrap, no page of memory below it is ever pushed. */
  lemma KernelKept(entries: seq<MmapEntry>, kernSize: nat, p: nat)
    requires p in AllPages(entries, kernSize) && 0x100000 + kernSize < 0x1_0000_0000
    ensures p >= 0x100000 + kernSize
  {
    AllPagesAre(entries, kernSize, p);
  }

  /** One entry alone never overflows the stack. */
  lemma OneEntryFits(addr: nat, end: nat)
    ensures |Pages(addr, end)| <= MAX_PAGES + 1
  {
    PagesAt(addr, end);
  }

  /** At most one entry contributes pages. */
  ghost predicate OneRegion(entries: seq<MmapEntry>, kernSize: nat) {
    forall i, j {:trigger EntryPages(entries[i], kernSize), EntryPages(entries[j], kernSize)} ::
      0 <= i < j < |entries| ==> EntryPages(entries[i], kernSize) == [] || EntryPages(entries[j], kernSize) == []
  }

  lemma {:induction false} AllPagesOf(entries: seq<MmapEntry>, kernSize: nat, i: nat)
    requires i < |entries| && EntryPages(entries[i], kernSize) != []
    ensures EntryPages(entries[i], kernSize)[0] in AllPages(entries, kernSize)
  {
    if i > 0 {
      AllPagesOf(entries[1..], kernSize, i - 1);
    }
  }

  lemma {:induction false} NoPages(entries: seq<MmapEntry>, kernSize: nat)
    requires forall i :: 0 <= i < |entries| ==> EntryPages(entries[i], kernSize) == []
    ensures AllPages(entries, kernSize) == []
  {
    if entries != [] {
      assert forall i :: 0 <= i < |entries[1..]| ==> entries[1..][i] == entries[i + 1];
      NoPages(entries[1..], kernSize);
    }
  }

  /** Pages of a later entry occur twice: they start where the pages of the first start. */
  lemma PagesTwice(entries: seq<MmapEntry>, kernSize: nat, j: nat)
    requires 0 < j < |entries| && EntryPages(entries[0], kernSize) != [] && EntryPages(entries[j], kernSize) != []
    ensures !Distinct(AllPages(entries, kernSize))
  {
    var own, rest := EntryPages(entries[0], kernSize), AllPages(entries[1..], kernSize);
    assert entries[1..][j - 1] == entries[j];
    AllPagesOf(entries[1..], kernSize, j - 1);
    var k :| 0 <= k < |rest| && rest[k] == EntryPages(entries[j], kernSize)[0];
    assert (own + rest)[0] == (own + rest)[|own| + k];
  }

  lemma NothingTwice()
    ensures Distinct<nat>([])
  {
  }

  lemma PagesApart(addr: nat, end: nat)
    ensures Distinct(Pages(addr, end))
  {
    PagesAt(addr, end);
  }

  /** Pages of the first entry alone. */
  lemma PagesOnce(entries: seq<MmapEntry>, kernSize: nat)
    requires entries != [] && forall j :: 0 < j < |entries| ==> EntryPages(entries[j], kernSize) == []
    ensures Distinct(AllPages(entries, kernSize))
  {
    hide Distinct, Pages;
    var e := entries[0];
    assert forall j :: 0 <= j < |entries[1..]| ==> entries[1..][j] == entries[j + 1];
    NoPages(entries[1..], kernSize);
    PagesApart((e.baseLow + kernSize) % WORD, (e.baseLow + e.lengthLow) % WORD);
    NothingTwice();
    assert AllPages(entries, kernSize) == EntryPages(e, kernSize);
  }

  /** The pages are distinct exactly when at most one entry contributes any: all such entries start alike. */
  lemma {:induction false} PagesDistinct(entries: seq<MmapEntry>, kernSize: nat)
    ensures Distinct(AllPages(entries, kernSize)) <==> OneRegion(entries, kernSize)
  {
    hide Distinct, EntryPages, Pages;
    if entries == [] {
      NothingTwice();
    } else if EntryPages(entries[0], kernSize) == [] {
      var tail := entries[1..];
      PagesDistinct(tail, kernSize);
      assert AllPages(entries, kernSize) == AllPages(tail, kernSize);
      assert forall i :: 0 <= i < |tail| ==> tail[i] == entries[i + 1];
      assert forall i :: 1 <= i < |entries| ==> entries[i] == tail[i - 1];
    } else if exists j :: 0 < j < |entries| && EntryPages(entries[j], kernSize) != [] {
      var j :| 0 < j < |entries| && EntryPages(entries[j], kernSize) != [];
      PagesTwice(entries, kernSize, j);
    } else {
      PagesOnce(entries, kernSize);
    }
  }

  /** The pool of pages: free ones in stack order, and those handed out. */
  datatype Pool = Pool(free: seq<nat>, out: multiset<nat>)

  datatype Op = Pop | TakeAt(pma: nat) | Push(p: nat)

  /** The stack after an operation: the last page is never popped, and a full stack takes no more. */
  function FreeAfter(free: seq<nat>, op: Op): seq<nat> {
    match op
    case Pop => if |free| <= 1 then free else ButLast(free)
    case TakeAt(pma) => if IndexOf(free, pma) == |free| then free else SwapRemove(free, IndexOf(free, pma))
    case Push(p) => if |free| > MAX_PAGES then free else free + [p]
  }

  function Apply(pool: Pool, op: Op): Pool {
    var out := match op
      case Pop => if |pool.free| <= 1 then pool.out else pool.out + multiset{Last(pool.free)}
      case TakeAt(pma) => if IndexOf(pool.free, pma) == |pool.free| then pool.out else pool.out + multiset{pma}
      case Push(p) => if |pool.free| > MAX_PAGES then pool.out else pool.out - multiset{p};
    Pool(FreeAfter(pool.free, op), out)
  }

  function Run(pool: Pool, ops: seq<Op>): Pool
    decreases |ops|
  {
    if ops == [] then pool else Run(Apply(pool, ops[0]), ops[1..])
  }

  /** The page freed is one that was handed out, or finds no room; no page is asked of an empty stack. */
  predicate Lawful(pool: Pool, op: Op) {
    if op.Push? then op.p in pool.out || |pool.free| > MAX_PAGES else pool.free != []
  }

  predicate LawfulRun(pool: Pool, ops: seq<Op>)
    decreases |ops|
  {
    ops == [] || (Lawful(pool, ops[0]) && LawfulRun(Apply(pool, ops[0]), ops[1..]))
  }

  /** On a stack with a page an operation loses and duplicates no page exactly when it is lawful. */
  lemma ApplyConserves(pool: Pool, op: Op)
    requires op.Push? || pool.free != []
    ensures var after := Apply(pool, op);
      multiset(after.free) + after.out == multiset(pool.free) + pool.out <==> Lawful(pool, op)
  {
    match op
    case Pop => if |pool.free| > 1 { MultisetLast(pool.free); }
    case TakeAt(pma) =>
      var i := IndexOf(pool.free, pma);
      if i < |pool.free| { MultisetSwapRemove(pool.free, i); }
    case Push(p) =>
      if |pool.free| <= MAX_PAGES {
        var after := multiset(pool.free + [p]) + (pool.out - multiset{p});
        assert multiset(pool.free + [p]) == multiset(pool.free) + multiset{p};
        assert after[p] == multiset(pool.free)[p] + 1 + if p in pool.out then pool.out[p] - 1 else 0;
        assert (multiset(pool.free) + pool.out)[p] == multiset(pool.free)[p] + pool.out[p];
      }
  }

  /** Over any lawful run every page is free or out, as often as it was at first. */
  lemma {:induction false} RunConserves(pool: Pool, ops: seq<Op>)
    requires LawfulRun(pool, ops)
    ensures var after := Run(pool, ops);
      multiset(after.free) + after.out == multiset(pool.free) + pool.out
    decreases |ops|
  {
    if ops != [] {
      ApplyConserves(pool, ops[0]);
      RunConserves(Apply(pool, ops[0]), ops[1..]);
    }
  }

  /** From distinct free pages and none out, no such run makes a page free twice, or free and out. */
  lemma RunKeepsDistinct(free: seq<nat>, ops: seq<Op>)
    requires Distinct(free) && LawfulRun(Pool(free, multiset{}), ops)
    ensures var after := Run(Pool(free, multiset{}), ops);
      Distinct(after.free) && forall p <- after.free :: p !in after.out && p in free
  {
    var after := Run(Pool(free, multiset{}), ops);
    RunConserves(Pool(free, multiset{}), ops);
    forall i, j | 0 <= i < j < |after.free| ensures after.free[i] != after.free[j] {
      CountedTwice(after.free, i, j);
      Counts(after, free, after.free[i]);
    }
    forall p | p in after.free ensures p !in after.out && p in free {
      Counts(after, free, p);
    }
  }

  /** Freeing a page keeps the stack distinct exactly when it is not on it: nothing guards a second free. */
  lemma PushKeepsDistinct(free: seq<nat>, p: nat)
    requires Distinct(free) && |free| <= MAX_PAGES
    ensures Distinct(FreeAfter(free, Push(p))) <==> p !in free
  {
    var after := free + [p];
    if p in free {
      var i :| 0 <= i < |free| && free[i] == p;
      assert after[i] == after[|free|];
    }
  }

  lemma Counts(pool: Pool, free: seq<nat>, p: nat)
    requires Distinct(free) && multiset(pool.free) + pool.out == multiset(free) + multiset{}
    ensures multiset(pool.free)[p] + pool.out[p] == multiset(free)[p] <= 1
    ensures p in pool.free ==> p !in pool.out && p in free
  {
    DistinctCounts(free, p);
    assert (multiset(pool.free) + pool.out)[p] == (multiset(free) + multiset{})[p];
    assert p in pool.free <==> p in multiset(pool.free);
    assert p in free <==> p in multiset(free);
  }

  lemma {:induction false} DistinctCounts(s: seq<nat>, p: nat)
    requires Distinct(s)
    ensures multiset(s)[p] <= 1
  {
    if s != [] {
      MultisetLast(s);
      DistinctCounts(ButLast(s), p);
    }
  }

  lemma CountedTwice(s: seq<nat>, i: nat, j: nat)
    requires i < j < |s|
    ensures s[i] == s[j] ==> multiset(s)[s[i]] >= 2
  {
    var a, b := s[..j], s[j..];
    assert s == a + b && a[i] in multiset(a) && b[0] in multiset(b);
  }

  /** What asking for a page comes to; Beyond: memory beyond the stack is read. */
  datatype Grant = Page(p: nat) | Halted | Beyond

  class PageStack {
    const stack: array<nat>
    var top: nat
    var pageCount: nat

    ghost predicate Valid()
      reads this`top
    {
      stack.Length == MAX_PAGES + 1 && (top == WORD - 1 || top <= MAX_PAGES)
    }

    /** The pages on the stack; top is one less than their number, in 32 bits. */
    ghost function Free(): (s: seq<nat>)
      requires Valid()
      reads this`top, stack
    {
      stack[..(top + 1) % WORD]
    }

    lemma FreeBound()
      requires Valid()
      ensures |Free()| <= MAX_PAGES + 1
    {
    }

    constructor ()
      ensures Valid() && fresh(stack) && Free() == [] && pageCount == 0
    {
      stack := new nat[MAX_PAGES + 1];
      top, pageCount := WORD - 1, 0;
    }

    /** Pushes a page; not when the stack is full, which halts. */
    method FreePage(p: nat) returns (ok: bool)
      requires Valid()
      modifies this`top, stack
      ensures Valid() && (ok <==> |old(Free())| <= MAX_PAGES)
      ensures Free() == FreeAfter(old(Free()), Push(p)) == if ok then old(Free()) + [p] else old(Free())
    {
      if top == MAX_PAGES {
        return false;
      }
      top := (top + 1) % WORD;
      stack[top] := p;
      ok := true;
    }

    /**
     * Pops a page; not when it is the last one, which halts as out of memory. On an empty stack the
     * code reads far beyond the array.
     */
    method AllocPage() returns (r: Grant)
      requires Valid()
      modifies this`top
      ensures Valid() && Free() == FreeAfter(old(Free()), Pop)
      ensures r == if old(Free()) == [] then Beyond else if |old(Free())| == 1 then Halted else Page(Last(old(Free())))
      ensures Free() == if r.Page? then ButLast(old(Free())) else old(Free())
    {
      if top == WORD - 1 {
        return Beyond;
      }
      if top == 0 {
        return Halted;
      }
      r := Page(stack[top]);
      top := top - 1;
    }

    method MoveTopTo(i: nat)
      requires Valid() && i < |Free()|
      modifies this`top, stack
      ensures Valid() && Free() == SwapRemove(old(Free()), i)
    {
      ghost var s := Free();
      SwapRemoved(s, i);
      hide SwapRemove;
      assert top == |s| - 1;
      stack[i] := stack[top];
      top := if top == 0 then WORD - 1 else top - 1;
      assert Free() == SwapRemove(s, i);
    }

    /**
     * Takes a given page off the stack, wherever it is; 0 when it is not there. On an empty stack the
     * search goes on far beyond the array.
     */
    method AllocPageAt(pma: nat) returns (r: Grant)
      requires Valid()
      modifies this`top, stack
      ensures Valid() && Free() == FreeAfter(old(Free()), TakeAt(pma))
      ensures r == if old(Free()) == [] then Beyond else if pma in old(Free()) then Page(pma) else Page(0)
      ensures pma !in old(Free()) ==> Free() == old(Free())
    {
      if top == WORD - 1 {
        return Beyond;
      }
      ghost var s := Free();
      var i := 0;
      while i <= top
        invariant i <= top + 1 && pma !in s[..i] && Free() == s && top == old(top)
        decreases top + 1 - i
      {
        if stack[i] == pma {
          IndexIs(s, pma, i);
          r := Page(stack[i]);
          MoveTopTo(i);
          return;
        }
        assert s[..i + 1] == s[..i] + [s[i]];
        i := i + 1;
      }
      assert s[..i] == s;
      IndexIs(s, pma, i);
      return Page(0);
    }

    /** No pages. */
    method Clear()
      requires Valid()
      modifies this`top, this`pageCount
      ensures Valid() && Free() == [] && pageCount == 0
    {
      top, pageCount := WORD - 1, 0;
    }

    /** The inner loop of init_pmm. */
    method PushPages(start: nat, end: nat) returns (ok: bool)
      requires Valid() && pageCount == |Free()|
      modifies this`top, this`pageCount, stack
      ensures Valid() && (ok <==> |old(Free())| + |Pages(start, end)| <= MAX_PAGES + 1)
      ensures ok ==> Free() == old(Free()) + Pages(start, end) && pageCount == |Free()|
    {
      hide PageStack.Free, PageStack.Valid, Pages;
      var addr := start;
      ghost var before, pushed: seq<nat> := Free(), [];
      assert before == before + pushed;
      while addr < end && addr <= MAX_SIZE
        invariant Valid() && Free() == before + pushed && pageCount == |Free()|
        invariant Pages(start, end) == pushed + Pages(addr, end)
        decreases MAX_SIZE + PAGE - addr
      {
        PagesNext(before, pushed, addr, end);
        var pushedOne := FreePage(addr);
        if !pushedOne {
          return false;
        }
        pushed := pushed + [addr];
        addr := addr + PAGE;
        pageCount := pageCount + 1;
      }
      PagesEnd(addr, end);
      FreeBound();
      ok := true;
    }

    /**
     * init_pmm over the entries that its loop reads: the stack holds their pages, in order; it halts
     * exactly when those are too many.
     */
    method InitPmm(entries: seq<MmapEntry>, kernSize: nat) returns (ok: bool)
      requires Valid() && forall e <- entries :: e.Valid()
      modifies this, stack
      ensures Valid() && (ok <==> |AllPages(entries, kernSize)| <= MAX_PAGES + 1)
      ensures ok ==> Free() == AllPages(entries, kernSize) && pageCount == |Free()|
      ensures ok ==> forall p: nat :: p in Free() <==>
                exists i :: 0 <= i < |entries| && HasPage(entries[i], kernSize, p)
    {
      hide PageStack.Free, PageStack.Valid, AllPages, Pages, HasPage;
      Clear();
      ghost var all := AllPages(entries, kernSize);
      ghost var pushed: seq<nat> := [];
      for i := 0 to |entries|
        invariant Valid() && Free() == pushed && pageCount == |Free()|
        invariant all == pushed + AllPages(entries[i..], kernSize)
      {
        var e := entries[i];
        ghost var own := EntryPages(e, kernSize);
        AllPagesStep(entries, kernSize, i);
        if e.kind == 1 && e.baseLow == 0x100000 {
          var fits := PushPages((e.baseLow + kernSize) % WORD, (e.baseLow + e.lengthLow) % WORD);
          if !fits {
            return false;
          }
        }
        pushed := pushed + own;
      }
      AllPagesEnd(kernSize);
      FreeBound();
      assert entries[|entries|..] == [];
      forall p: nat
        ensures p in all <==> exists i :: 0 <= i < |entries| && HasPage(entries[i], kernSize, p)
      {
        AllPagesAre(entries, kernSize, p);
      }
      ok := true;
    }
  }

  /** The pages of the stack lie in different frames. */
  ghost predicate DistinctFrames(free: seq<nat>) {
    forall i, j :: 0 <= i < j < |free| ==> free[i] / PAGE != free[j] / PAGE
  }

  lemma PageFrames(addr: nat, k: nat)
    ensures (addr + PAGE * k) / PAGE == addr / PAGE + k
  {
  }

  lemma FramesApart(addr: nat, end: nat)
    ensures DistinctFrames(Pages(addr, end))
  {
    hide Pages;
    var s := Pages(addr, end);
    PagesAt(addr, end);
    forall i, j | 0 <= i < j < |s| ensures s[i] / PAGE != s[j] / PAGE {
      PageFrames(addr, i);
      PageFrames(addr, j);
    }
  }

  /** The pages that init_pmm finds in a single region lie in different frames. */
  lemma {:induction false} PagesInFrames(entries: seq<MmapEntry>, kernSize: nat)
    requires OneRegion(entries, kernSize)
    ensures DistinctFrames(AllPages(entries, kernSize))
  {
    hide Pages;
    if entries != [] {
      var e, tail := entries[0], entries[1..];
      assert forall i :: 0 <= i < |tail| ==> tail[i] == entries[i + 1];
      if EntryPages(e, kernSize) == [] {
        PagesInFrames(tail, kernSize);
        assert AllPages(entries, kernSize) == AllPages(tail, kernSize);
      } else {
        NoPages(tail, kernSize);
        FramesApart((e.baseLow + kernSize) % WORD, (e.baseLow + e.lengthLow) % WORD);
        assert AllPages(entries, kernSize) == EntryPages(e, kernSize);
      }
    }
  }

  lemma AllPagesStep(entries: seq<MmapEntry>, kernSize: nat, i: nat)
    requires i < |entries|
    ensures AllPages(entries[i..], kernSize) == EntryPages(entries[i], kernSize) + AllPages(entries[i + 1..], kernSize)
  {
    assert entries[i..][1..] == entries[i + 1..];
  }

  lemma AllPagesEnd(kernSize: nat)
    ensures AllPages([], kernSize) == []
  {
  }

  lemma IndexIs(s: seq<nat>, x: nat, i: nat)
    requires i <= |s| && x !in s[..i] && (i < |s| ==> s[i] == x)
    ensures IndexOf(s, x) == i
  {
    var j := IndexOf(s, x);
    assert forall k :: 0 <= k < i ==> s[..i][k] == s[k];
    assert forall k :: 0 <= k < j ==> s[..j][k] == s[k];
  }
}
