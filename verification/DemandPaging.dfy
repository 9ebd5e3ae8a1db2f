/** Demand paging: page_fault_handler and init_vmm of src/lib/vmm.cc, and runs of page faults. */
module DemandPaging {
  import opened Common
  import opened PhysicalPages
  import opened PageTables

  const WINDOW_PAGE := 0xC0000
  const WINDOW_SIZE := 1024

  /** The frame of each mapped page, the dictionary entries that have a table, and the stack of free pages. */
  datatype Paging = Paging(mapping: map<nat, nat>, owner: seq<nat>, free: seq<nat>)

  /** The fault at this page returns: the page is mapped, or there is a table for it and a page to give. */
  predicate Returns(s: Paging, page: nat) {
    page in s.mapping || ((page / ENTRIES in s.owner || |s.owner| < TABLES) && |s.free| > 1)
  }

  /** A fault at a page that returns: one that is not mapped gets the frame on top of the stack. */
  function Fault(s: Paging, page: nat): Paging
    requires Returns(s, page)
  {
    if page in s.mapping then s
    else
      Paging(s.mapping[page := Last(s.free) / PAGE],
             if page / ENTRIES in s.owner then s.owner else s.owner + [page / ENTRIES], ButLast(s.free))
  }

  /** All faults of a run return: the kernel goes on. */
  predicate AllReturn(s: Paging, pages: seq<nat>)
    decreases |pages|
  {
    pages == [] || (Returns(s, pages[0]) && AllReturn(Fault(s, pages[0]), pages[1..]))
  }

  function Faults(s: Paging, pages: seq<nat>): Paging
    requires AllReturn(s, pages)
    decreases |pages|
  {
    if pages == [] then s else Faults(Fault(s, pages[0]), pages[1..])
  }

  /** The pages of a run that are not among these, in the order of their first fault. */
  function NewPages(known: set<nat>, pages: seq<nat>): seq<nat>
    decreases |pages|
  {
    if pages == [] then []
    else if pages[0] in known then NewPages(known, pages[1..])
    else [pages[0]] + NewPages(known + {pages[0]}, pages[1..])
  }

  lemma {:induction false} NewPagesAreNew(known: set<nat>, pages: seq<nat>)
    ensures var news := NewPages(known, pages);
      Distinct(news) && forall p :: p in news <==> p !in known && p in pages
    decreases |pages|
  {
    if pages != [] {
      var p, tail := pages[0], pages[1..];
      NewPagesAreNew(known, tail);
      NewPagesAreNew(known + {p}, tail);
      assert forall x :: x in tail ==> x in pages;
    }
  }

  /** The dictionary entries of these pages. */
  function Entries(pages: seq<nat>): (r: seq<nat>)
    ensures |r| == |pages| && forall i :: 0 <= i < |r| ==> r[i] == pages[i] / ENTRIES
  {
    if pages == [] then [] else [pages[0] / ENTRIES] + Entries(pages[1..])
  }

  /** The dictionary entries that get a table in a run, in order. */
  function NewTables(s: Paging, pages: seq<nat>): seq<nat> {
    NewPages(Elements(s.owner), Entries(NewPages(s.mapping.Keys, pages)))
  }

  /** After the first fault of a run its page is no longer new. */
  lemma FirstFault(s: Paging, pages: seq<nat>)
    requires pages != [] && Returns(s, pages[0])
    ensures var after, news := Fault(s, pages[0]), NewPages(s.mapping.Keys, pages);
      if pages[0] in s.mapping then
        after == s && news == NewPages(s.mapping.Keys, pages[1..])
      else
        news != [] && news[0] == pages[0] && news[1..] == NewPages(after.mapping.Keys, pages[1..])
  {
    if pages[0] !in s.mapping {
      assert Fault(s, pages[0]).mapping.Keys == s.mapping.Keys + {pages[0]};
    }
  }

  lemma NewPagesStep(known: set<nat>, p: nat, tail: seq<nat>)
    ensures NewPages(known, [p] + tail) ==
              if p in known then NewPages(known, tail) else [p] + NewPages(known + {p}, tail)
  {
    assert ([p] + tail)[1..] == tail;
  }

  lemma EntriesStep(p: nat, tail: seq<nat>)
    ensures Entries([p] + tail) == [p / ENTRIES] + Entries(tail)
  {
    assert ([p] + tail)[1..] == tail;
  }

  /** And its dictionary entry has a table. */
  lemma FirstTable(s: Paging, pages: seq<nat>)
    requires pages != [] && Returns(s, pages[0])
    ensures var after, news, d := Fault(s, pages[0]), NewTables(s, pages), pages[0] / ENTRIES;
      if pages[0] in s.mapping || d in s.owner then
        after.owner == s.owner && news == NewTables(after, pages[1..])
      else
        after.owner == s.owner + [d] && news == [d] + NewTables(after, pages[1..])
  {
    hide NewPages, Entries;
    FirstFault(s, pages);
    if pages[0] !in s.mapping {
      var d: nat, news := pages[0] / ENTRIES, NewPages(s.mapping.Keys, pages);
      var owner: seq<nat> := s.owner + [d];
      assert Elements(owner) == Elements(s.owner) + {d};
      assert news == [pages[0]] + news[1..];
      EntriesStep(pages[0], news[1..]);
      NewPagesStep(Elements(s.owner), d, Entries(news[1..]));
    }
  }

  /**
   * A run of faults returns exactly when there is a frame to spare beyond those for its new pages, and a
   * table for each of its new dictionary entries.
   */
  lemma {:induction false} RunReturns(s: Paging, pages: seq<nat>)
    requires |s.owner| <= TABLES
    ensures AllReturn(s, pages) <==>
              (NewPages(s.mapping.Keys, pages) == [] || |NewPages(s.mapping.Keys, pages)| < |s.free|)
              && |s.owner| + |NewTables(s, pages)| <= TABLES
    decreases |pages|
  {
    if pages != [] {
      if Returns(s, pages[0]) {
        FirstFault(s, pages);
        FirstTable(s, pages);
        RunReturns(Fault(s, pages[0]), pages[1..]);
      } else {
        var news := NewPages(s.mapping.Keys, pages);
        assert Entries(news)[0] == pages[0] / ENTRIES;
      }
    }
  }

  /** Which pages are mapped after a run, and what is left on the stack. */
  lemma {:induction false} FaultedPages(s: Paging, pages: seq<nat>)
    requires AllReturn(s, pages)
    ensures var after, news := Faults(s, pages), NewPages(s.mapping.Keys, pages);
      && |after.free| + |news| == |s.free| && after.free == s.free[..|s.free| - |news|]
      && (forall p :: p in after.mapping <==> p in s.mapping || p in news)
      && (forall p :: p in s.mapping ==> after.mapping[p] == s.mapping[p])
    decreases |pages|
  {
    if pages != [] {
      var next, tail, news := Fault(s, pages[0]), pages[1..], NewPages(s.mapping.Keys, pages);
      FirstFault(s, pages);
      FaultedPages(next, tail);
      if pages[0] !in s.mapping {
        assert news == [pages[0]] + news[1..];
        assert next.free[..|next.free| - |news[1..]|] == s.free[..|s.free| - |news|];
      }
    }
  }

  lemma NoNewPages(known: set<nat>)
    ensures NewPages(known, []) == []
  {
  }

  lemma FaultsFirst(s: Paging, pages: seq<nat>)
    requires AllReturn(s, pages) && pages != []
    ensures AllReturn(Fault(s, pages[0]), pages[1..])
    ensures Faults(s, pages) == Faults(Fault(s, pages[0]), pages[1..])
  {
  }

  /** The j-th page newly mapped has the j-th frame from the top of the stack. */
  lemma {:induction false} FaultedFrame(s: Paging, pages: seq<nat>, j: nat)
    requires AllReturn(s, pages) && j < |NewPages(s.mapping.Keys, pages)|
    ensures var after, p := Faults(s, pages), NewPages(s.mapping.Keys, pages)[j];
      p in after.mapping && j < |s.free| && after.mapping[p] == s.free[|s.free| - 1 - j] / PAGE
    decreases |pages|
  {
    hide NewPages, Faults;
    NoNewPages(s.mapping.Keys);
    var next, tail := Fault(s, pages[0]), pages[1..];
    FirstFault(s, pages);
    FaultsFirst(s, pages);
    FaultedPages(next, tail);
    if pages[0] in s.mapping {
      FaultedFrame(next, tail, j);
    } else if j > 0 {
      FaultedFrame(next, tail, j - 1);
    } else {
      assert pages[0] in next.mapping;
    }
  }

  /**
   * Any run of faults that return: translations never change, the stack loses a frame from its top for
   * each page new to the run and for nothing else, and these pages are mapped to just those frames.
   */
  lemma FaultsOutcome(s: Paging, pages: seq<nat>)
    requires AllReturn(s, pages)
    ensures var after, news := Faults(s, pages), NewPages(s.mapping.Keys, pages);
      && |after.free| + |news| == |s.free| && after.free == s.free[..|s.free| - |news|]
      && (forall p :: p in after.mapping <==> p in s.mapping || p in news)
      && (forall p :: p in s.mapping ==> after.mapping[p] == s.mapping[p])
      && (forall j {:trigger news[j]} :: 0 <= j < |news| ==> after.mapping[news[j]] == s.free[|s.free| - 1 - j] / PAGE)
  {
    hide Faults, NewPages, AllReturn;
    var news := NewPages(s.mapping.Keys, pages);
    FaultedPages(s, pages);
    forall j {:trigger news[j]} | 0 <= j < |news|
      ensures Faults(s, pages).mapping[news[j]] == s.free[|s.free| - 1 - j] / PAGE
    {
      FaultedFrame(s, pages, j);
    }
  }

  ghost predicate Injective(m: map<nat, nat>) {
    forall p, q :: p in m && q in m && m[p] == m[q] ==> p == q
  }

  /** The page maps to the frame of a page on the stack. */
  ghost predicate OnStack(free: seq<nat>, frame: nat) {
    exists i :: 0 <= i < |free| && free[i] / PAGE == frame
  }

  /** Frames mapped in a run of faults are pairwise different, and different from every frame still free. */
  lemma FaultsDoNotAlias(s: Paging, pages: seq<nat>)
    requires DistinctFrames(s.free) && AllReturn(s, pages)
    ensures var after := Faults(s, pages);
      forall p :: p in after.mapping && p !in s.mapping ==>
        && !OnStack(after.free, after.mapping[p])
        && forall q :: q in after.mapping && q !in s.mapping && after.mapping[p] == after.mapping[q] ==> p == q
  {
    var after, news := Faults(s, pages), NewPages(s.mapping.Keys, pages);
    FaultsOutcome(s, pages);
    forall p | p in after.mapping && p !in s.mapping
      ensures !OnStack(after.free, after.mapping[p])
      ensures forall q :: q in after.mapping && q !in s.mapping && after.mapping[p] == after.mapping[q] ==> p == q
    {
      var j :| 0 <= j < |news| && news[j] == p;
      forall q | q in after.mapping && q !in s.mapping && after.mapping[p] == after.mapping[q] ensures p == q {
        var k :| 0 <= k < |news| && news[k] == q;
      }
    }
  }

  /**
   * After a run of faults no frame is mapped twice exactly when none of the frames handed out was
   * mapped before.
   */
  lemma FaultsInjective(s: Paging, pages: seq<nat>)
    requires DistinctFrames(s.free) && Injective(s.mapping) && AllReturn(s, pages)
    ensures var after := Faults(s, pages);
      Injective(after.mapping) <==>
        forall i, p :: |after.free| <= i < |s.free| && p in s.mapping ==> s.mapping[p] != s.free[i] / PAGE
  {
    var after, news := Faults(s, pages), NewPages(s.mapping.Keys, pages);
    FaultsOutcome(s, pages);
    FaultsDoNotAlias(s, pages);
    if Injective(after.mapping) {
      NewPagesAreNew(s.mapping.Keys, pages);
      forall i, p | |after.free| <= i < |s.free| && p in s.mapping ensures s.mapping[p] != s.free[i] / PAGE {
        var q := news[|s.free| - 1 - i];
        assert q !in s.mapping && q in after.mapping && after.mapping[q] == s.free[i] / PAGE;
      }
    } else {
      var p, q :| p in after.mapping && q in after.mapping && after.mapping[p] == after.mapping[q] && p != q;
      if p !in s.mapping {
        var j :| 0 <= j < |news| && news[j] == p;
        assert q in s.mapping && s.mapping[q] == s.free[|s.free| - 1 - j] / PAGE;
      } else {
        var j :| 0 <= j < |news| && news[j] == q;
        assert s.mapping[p] == s.free[|s.free| - 1 - j] / PAGE;
      }
    }
  }

  /** The kernel window: the first 4 MB of memory, mapped from 0xC0000000 on. */
  function Window(n: nat): map<nat, nat> {
    if n == 0 then map[] else Window(n - 1)[WINDOW_PAGE + n - 1 := n - 1]
  }

  lemma {:induction false} WindowAt(n: nat, p: nat)
    ensures p in Window(n) <==> WINDOW_PAGE <= p < WINDOW_PAGE + n
    ensures p in Window(n) ==> Window(n)[p] == p - WINDOW_PAGE
  {
    if n > 0 {
      WindowAt(n - 1, p);
    }
  }

  /** The physical address that a window address stands for is its distance from the window's start. */
  lemma WindowTranslates(pma: nat)
    requires pma < WINDOW_SIZE * PAGE
    ensures Translated(Window(WINDOW_SIZE), OFFSET + pma) == pma
  {
    WindowAt(WINDOW_SIZE, (OFFSET + pma) / PAGE);
  }

  /** Paging after boot: the window is mapped, with one table, and the stack is what init_pmm left. */
  function Booted(free: seq<nat>): Paging {
    Paging(Window(WINDOW_SIZE), [WINDOW_PAGE / ENTRIES], free)
  }

  /** No frame is shared after boot; it stays so until a page of the first 4 MB is handed out. */
  lemma WindowShared(free: seq<nat>, pages: seq<nat>)
    requires DistinctFrames(free) && AllReturn(Booted(free), pages)
    ensures var after := Faults(Booted(free), pages);
      Injective(after.mapping) <==> forall i :: |after.free| <= i < |free| ==> free[i] >= WINDOW_SIZE * PAGE
  {
    hide Window, Faults, AllReturn;
    var s := Booted(free);
    var after := Faults(s, pages);
    forall p: nat
      ensures p in s.mapping <==> WINDOW_PAGE <= p < WINDOW_PAGE + WINDOW_SIZE
      ensures p in s.mapping ==> s.mapping[p] == p - WINDOW_PAGE
    {
      WindowAt(WINDOW_SIZE, p);
    }
    FaultsInjective(s, pages);
    forall i | |after.free| <= i < |free|
      ensures free[i] >= WINDOW_SIZE * PAGE <==> forall p :: p in s.mapping ==> s.mapping[p] != free[i] / PAGE
    {
      var p := WINDOW_PAGE + free[i] / PAGE;
      assert p in s.mapping <==> free[i] < WINDOW_SIZE * PAGE;
    }
  }

  /** What init_pmm pushes for a single region feeds demand paging: its frames are never mapped twice by faults. */
  lemma BootedPaging(entries: seq<MmapEntry>, kernSize: nat, pages: seq<nat>)
    requires OneRegion(entries, kernSize) && AllReturn(Booted(AllPages(entries, kernSize)), pages)
    ensures var free := AllPages(entries, kernSize);
      var after := Faults(Booted(free), pages);
      Injective(after.mapping) <==> forall i :: |after.free| <= i < |free| ==> free[i] >= WINDOW_SIZE * PAGE
  {
    PagesInFrames(entries, kernSize);
    WindowShared(AllPages(entries, kernSize), pages);
  }

  /** The mapping loop of init_vmm. */
  method InitVmm(dict: PageDictionary)
    requires dict.Valid() && dict.mapping == map[] && dict.owner == []
    modifies dict, dict.Arrays()
    ensures dict.Valid() && dict.mapping == Window(WINDOW_SIZE) && dict.owner == [WINDOW_PAGE / ENTRIES]
  {
    hide PageDictionary.Valid;
    for i := 0 to WINDOW_SIZE
      invariant dict.Valid() && dict.mapping == Window(i)
      invariant dict.owner == if i == 0 then [] else [WINDOW_PAGE / ENTRIES]
    {
      WindowPage(i);
      var ok := dict.Insert((i * PAGE + OFFSET) % WORD, i * PAGE);
    }
  }

  lemma WindowPage(i: nat)
    requires i < WINDOW_SIZE
    ensures var vma := (i * PAGE + OFFSET) % WORD;
      vma < WORD && vma / PAGE == WINDOW_PAGE + i && DictIndex(vma) == WINDOW_PAGE / ENTRIES && i * PAGE / PAGE == i
  {
  }

  ghost function PagingOf(dict: PageDictionary, pmm: PageStack): Paging
    requires dict.Valid() && pmm.Valid()
    reads dict, dict.Arrays(), pmm`top, pmm.stack
  {
    Paging(dict.mapping, dict.owner, pmm.Free())
  }

  /**
   * page_fault_handler: a fault at an address whose page is not present is a fault of the paging
   * model, and goes wrong exactly when that one does not return; a protection fault has no effect.
   */
  method PageFaultHandler(dict: PageDictionary, pmm: PageStack, addr: nat, errCode: nat) returns (running: bool)
    requires dict.Valid() && addr < WORD && pmm.Valid() && pmm.stack !in dict.Arrays()
    modifies dict, dict.Arrays(), pmm`top
    ensures dict.Valid() && pmm.Valid()
    ensures Present(errCode) ==> running && PagingOf(dict, pmm) == old(PagingOf(dict, pmm))
    ensures !Present(errCode) ==> (running <==> Returns(old(PagingOf(dict, pmm)), addr / PAGE))
    ensures !Present(errCode) && running ==>
              addr / PAGE in dict.mapping && PagingOf(dict, pmm) == Fault(old(PagingOf(dict, pmm)), addr / PAGE)
  {
    hide PageDictionary.Valid, PageStack.Free, PageStack.Valid;
    PageOfAddress(addr);
    dict.OwnersBound();
    if !Present(errCode) {
      if addr / PAGE in dict.mapping {
        dict.MappedHasTable(addr);
      }
      var r := dict.Subscript(pmm, addr);
      return r.Some?;
    }
    running := true;
  }
}
