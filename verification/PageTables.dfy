/**
 * The two-level page tables of src/include/vmm.h. An entry is an address rounded down to a page,
 * with the present and write bits (3) added.
 */
module PageTables {
  import opened Common
  import opened PhysicalPages

  const OFFSET := 0xC0000000
  const ENTRIES := 1024
  const TABLES := 128
  const NUM_PAGES := ENTRIES * ENTRIES

  /** ENTRY_ADDR: the address part of an entry. */
  function EntryAddr(e: nat): nat {
    e - e % PAGE
  }

  predicate Present(e: nat) {
    e % 2 == 1
  }

  function DictIndex(vma: nat): nat {
    vma / 0x400000 % ENTRIES
  }

  function TableIndex(vma: nat): nat {
    vma / PAGE % ENTRIES
  }

  /** An address with the present and write bits set. */
  function WithFlags(addr: nat): nat {
    addr - addr % 4 + 3
  }

  /** What at returns for a mapping of page numbers to frame numbers. */
  function Translated(m: map<nat, nat>, vma: nat): nat {
    if vma / PAGE in m then m[vma / PAGE] * PAGE + vma % PAGE else 0
  }

  /** Zero stands for a miss, and for the first byte of frame 0 as well. */
  lemma ZeroMeans(m: map<nat, nat>, vma: nat)
    ensures Translated(m, vma) == 0 <==> (vma / PAGE !in m || (m[vma / PAGE] == 0 && vma % PAGE == 0))
  {
  }

  lemma PageOfAddress(vma: nat)
    requires vma < WORD
    ensures DictIndex(vma) == vma / 0x400000
    ensures var page := vma / PAGE;
      page < NUM_PAGES && DictIndex(vma) == page / ENTRIES < ENTRIES && TableIndex(vma) == page % ENTRIES
  {
  }

  lemma EntryOfFrame(f: nat)
    ensures EntryAddr(PAGE * f) == PAGE * f && PAGE * f / PAGE == f
  {
  }

  lemma FrameOf(f: nat, o: nat)
    requires o < PAGE
    ensures (PAGE * f + o) / PAGE == f && EntryAddr(PAGE * f + o) == PAGE * f
  {
  }

  /** Remainders are unique. */
  lemma SameRemainder(m: nat, k: int, r: int, d: int, e: int)
    requires (m == 2 || m == 4) && m * k + r == m * d + e && 0 <= r < m && 0 <= e < m
    ensures r == e
  {
    if m == 2 {
      assert 2 * (k - d) == e - r;
    } else {
      assert 4 * (k - d) == e - r;
    }
  }

  lemma FourTimes(k: nat, r: nat)
    requires r < 4
    ensures (4 * k + r) % 4 == r
  {
    var x := 4 * k + r;
    SameRemainder(4, k, r, x / 4, x % 4);
  }

  lemma Quarter(o: nat) returns (m: nat, r: nat)
    ensures o == 4 * m + r && r < 4
  {
    m, r := o / 4, o % 4;
  }

  lemma FlagsOver(q: nat, r: nat)
    requires r < 4
    ensures WithFlags(4 * q + r) == 4 * q + 3
  {
    FourTimes(q, r);
  }

  lemma FlagsPresent(q: nat)
    ensures Present(4 * q + 3) && (4 * q + 3) % 4 == 3
  {
    var x := 4 * q + 3;
    FourTimes(q, 3);
    SameRemainder(2, 2 * q + 1, 1, x / 2, x % 2);
  }

  /** A page is a multiple of four, so flags are a matter of the offset alone. */
  lemma FlagsInPage(f: nat, o: nat)
    ensures WithFlags(PAGE * f + o) == PAGE * f + WithFlags(o) && Present(WithFlags(PAGE * f + o))
    ensures WithFlags(PAGE * f + o) % 4 == 3
    ensures o < PAGE ==> WithFlags(o) < PAGE
  {
    hide WithFlags, Present;
    var m, r := Quarter(o);
    assert PAGE * f + o == 4 * (1024 * f + m) + r;
    FlagsOver(m, r);
    FlagsOver(1024 * f + m, r);
    FlagsPresent(1024 * f + m);
  }

  /** The flags take nothing from the frame. */
  lemma FlagsKeepFrame(addr: nat)
    ensures Present(WithFlags(addr)) && WithFlags(addr) % 4 == 3 && WithFlags(addr) / PAGE == addr / PAGE
    ensures EntryAddr(WithFlags(addr)) == EntryAddr(addr) == addr / PAGE * PAGE
  {
    hide EntryAddr, WithFlags, Present;
    var f, o := addr / PAGE, addr % PAGE;
    assert addr == PAGE * f + o;
    FlagsInPage(f, o);
    FrameOf(f, o);
    FrameOf(f, WithFlags(o));
  }

  lemma FlagsOfEntry(addr: nat)
    ensures Present(WithFlags(EntryAddr(addr))) && WithFlags(EntryAddr(addr)) % 4 == 3
    ensures WithFlags(EntryAddr(addr)) / PAGE == addr / PAGE
    ensures EntryAddr(WithFlags(EntryAddr(addr))) == addr / PAGE * PAGE
  {
    hide WithFlags, Present;
    assert addr == PAGE * (addr / PAGE) + addr % PAGE;
    FrameOf(addr / PAGE, addr % PAGE);
    EntryOfFrame(addr / PAGE);
    FlagsKeepFrame(EntryAddr(addr));
  }

  class PageTable {
    const entries: array<nat>

    constructor ()
      ensures fresh(entries) && entries.Length == ENTRIES
      ensures forall i :: 0 <= i < ENTRIES ==> entries[i] == 0
    {
      entries := new nat[ENTRIES](_ => 0);
    }

    /** The address that the table maps vma to, or 0. */
    method At(vma: nat) returns (r: nat)
      requires entries.Length == ENTRIES
      ensures var pte := entries[TableIndex(vma)];
        r == if Present(pte) then EntryAddr(pte) + vma % PAGE else 0
    {
      var pte := entries[TableIndex(vma)];
      if !Present(pte) {
        return 0;
      }
      return EntryAddr(pte) + vma % PAGE;
    }

    method Insert(vma: nat, pma: nat)
      requires entries.Length == ENTRIES
      modifies entries
      ensures entries[..] == old(entries[..])[TableIndex(vma) := WithFlags(EntryAddr(pma))]
    {
      entries[TableIndex(vma)] := WithFlags(EntryAddr(pma));
    }

    /** operator[]: maps a page that is not mapped to a newly popped frame; None: there is no frame to give. */
    method Subscript(pmm: PageStack, vma: nat) returns (r: Option<nat>)
      requires entries.Length == ENTRIES && pmm.stack != entries && pmm.Valid()
      modifies entries, pmm`top
      ensures pmm.Valid()
      ensures var pte := old(entries[TableIndex(vma)]);
        if Present(pte) then
          r == Some(EntryAddr(pte) + vma % PAGE) && entries[..] == old(entries[..]) && pmm.Free() == old(pmm.Free())
        else if |old(pmm.Free())| <= 1 then
          r == None && entries[..] == old(entries[..]) && pmm.Free() == old(pmm.Free())
        else
          && r == Some(EntryAddr(Last(old(pmm.Free()))) + vma % PAGE)
          && entries[..] == old(entries[..])[TableIndex(vma) := WithFlags(Last(old(pmm.Free())))]
          && pmm.Free() == ButLast(old(pmm.Free()))
    {
      hide EntryAddr, WithFlags, Present, PageStack.Free, PageStack.Valid;
      var i := TableIndex(vma);
      if !Present(entries[i]) {
        var page := pmm.AllocPage();
        if !page.Page? {
          return None;
        }
        FlagsKeepFrame(page.p);
        entries[i] := WithFlags(page.p);
      }
      return Some(EntryAddr(entries[i]) + vma % PAGE);
    }
  }

  /** The address of table k of the reserve, in a dictionary at address base. */
  function TableAddr(base: nat, k: nat): nat {
    base + PAGE * (k + 1)
  }

  /** set_pde: the entry for a table at this address. */
  function Pde(addr: nat): nat {
    WithFlags((EntryAddr(addr) - OFFSET) % WORD)
  }

  /** real_page_table, as a place in the reserve: the inverse of Pde. */
  function TableOf(base: nat, pde: nat): int {
    ((EntryAddr(pde) + OFFSET) % WORD - base) / PAGE - 1
  }

  ghost predicate BaseOk(base: nat) {
    base % PAGE == 0 && base + PAGE * (TABLES + 1) <= WORD
  }

  /** An entry made for a table leads back to that table, whatever the wrap at 4 GB. */
  lemma PdeDecodes(base: nat, k: nat)
    requires BaseOk(base) && k < TABLES
    ensures Present(Pde(TableAddr(base, k))) && TableOf(base, Pde(TableAddr(base, k))) == k
  {
    hide EntryAddr, WithFlags, Present;
    var addr := TableAddr(base, k);
    var f, off := addr / PAGE, OFFSET / PAGE;
    assert base == PAGE * (base / PAGE) && addr == PAGE * f && f == base / PAGE + k + 1;
    EntryOfFrame(f);
    var p := (addr - OFFSET) % WORD;
    var g := if f >= off then f - off else f - off + WORD / PAGE;
    assert p == PAGE * g;
    FlagsKeepFrame(p);
    EntryOfFrame(g);
    assert p / PAGE == g;
    assert (p + OFFSET) % WORD == addr;
  }

  /** An entry holds the physical address of its table, and the present and write bits. */
  lemma PdeIsPhysical(base: nat, k: nat)
    requires BaseOk(base) && k < TABLES
    ensures Pde(TableAddr(base, k)) == (base + 0x1000 * (k + 1) - 0xC0000000) % 0x1_0000_0000 + 3
    ensures (base + 0x1000 * (k + 1) - 0xC0000000) % 0x1_0000_0000 % 0x1000 == 0
  {
    hide EntryAddr, WithFlags;
    var f, off := base / PAGE + k + 1, OFFSET / PAGE;
    var g := if f >= off then f - off else f - off + WORD / PAGE;
    assert TableAddr(base, k) == PAGE * f;
    EntryOfFrame(f);
    assert (PAGE * f - OFFSET) % WORD == PAGE * g;
    FlagsInPage(g, 0);
    FlagsOver(0, 0);
  }

  /**
   * The words of a dictionary at address base and of its reserve of tables, with the dictionary index
   * of each table in use and the frame of each mapped page.
   */
  datatype Words = Words(base: nat, dict: seq<nat>, tabs: seq<seq<nat>>, owner: seq<nat>, mapping: map<nat, nat>) {
    ghost predicate Shape() {
      && BaseOk(base) && |dict| == ENTRIES && |tabs| == TABLES && |owner| <= TABLES
      && (forall k :: 0 <= k < TABLES ==> |tabs[k]| == ENTRIES)
    }

    /** Entry d is absent, or leads to a table in use that is its own. */
    ghost predicate EntryOk(d: nat)
      requires Shape() && d < ENTRIES
    {
      Present(dict[d]) ==>
        var k := TableOf(base, dict[d]);
        0 <= k < |owner| && owner[k] == d && dict[d] == Pde(TableAddr(base, k))
    }

    ghost predicate OwnerOk(k: nat)
      requires Shape() && k < |owner|
    {
      owner[k] < ENTRIES && dict[owner[k]] == Pde(TableAddr(base, k))
    }

    /** Table k has no mapping. */
    ghost predicate Blank(k: nat)
      requires Shape() && k < TABLES
    {
      forall i {:trigger tabs[k][i]} :: 0 <= i < ENTRIES ==> tabs[k][i] == 0
    }

    /** The entry for a page, or 0. */
    ghost function Pte(page: nat): nat
      requires Shape() && page < NUM_PAGES
    {
      var k := TableOf(base, dict[page / ENTRIES]);
      if Present(dict[page / ENTRIES]) && 0 <= k < TABLES then tabs[k][page % ENTRIES] else 0
    }

    ghost predicate PageOk(page: nat)
      requires Shape() && page < NUM_PAGES
    {
      && (page in mapping <==> Present(Pte(page)))
      && (page in mapping ==> mapping[page] == Pte(page) / PAGE && Pte(page) % 4 == 3)
    }

    ghost predicate Valid() {
      && Shape()
      && (forall d {:trigger EntryOk(d)} :: 0 <= d < ENTRIES ==> EntryOk(d))
      && (forall k {:trigger OwnerOk(k)} :: 0 <= k < |owner| ==> OwnerOk(k))
      && (forall k {:trigger Blank(k)} :: |owner| <= k < TABLES ==> Blank(k))
      && (forall page {:trigger PageOk(page)} :: 0 <= page < NUM_PAGES ==> PageOk(page))
      && (forall page :: page in mapping ==> page < NUM_PAGES)
    }

    /** The next table of the reserve put at entry d. */
    ghost function Installed(d: nat): Words
      requires Shape() && d < ENTRIES
    {
      this.(dict := dict[d := Pde(TableAddr(base, |owner|))], owner := owner + [d])
    }

    /** Word w put in the table of a page. */
    ghost function Put(k: nat, page: nat, w: nat): Words
      requires Shape() && page < NUM_PAGES && k < TABLES
    {
      var table: seq<nat> := tabs[k][page % ENTRIES := w];
      this.(tabs := tabs[k := table], mapping := mapping[page := w / PAGE])
    }

    lemma InUse(d: nat)
      requires Valid() && d < ENTRIES
      ensures Present(dict[d]) <==> d in owner
      ensures d in owner ==> 0 <= TableOf(base, dict[d]) < |owner| && owner[TableOf(base, dict[d])] == d
    {
      assert EntryOk(d);
      if d in owner {
        var k :| 0 <= k < |owner| && owner[k] == d;
        assert OwnerOk(k);
        PdeDecodes(base, k);
      }
    }

    lemma InstalledValid(d: nat)
      requires Valid() && d < ENTRIES && !Present(dict[d]) && |owner| < TABLES
      ensures Installed(d).Valid()
      ensures Present(Installed(d).dict[d]) && TableOf(base, Installed(d).dict[d]) == |owner|
    {
      hide TableOf, Pde, TableAddr, Present;
      var w, c := Installed(d), |owner|;
      PdeDecodes(base, c);
      forall e | 0 <= e < ENTRIES ensures w.EntryOk(e) {
        assert EntryOk(e);
      }
      forall k | 0 <= k < |w.owner| ensures w.OwnerOk(k) {
        if k < c {
          assert OwnerOk(k);
          PdeDecodes(base, k);
        }
      }
      forall k | |w.owner| <= k < TABLES ensures w.Blank(k) {
        assert Blank(k);
      }
      forall page | 0 <= page < NUM_PAGES ensures w.PageOk(page) {
        assert PageOk(page) && EntryOk(page / ENTRIES);
        assert Blank(c) && tabs[c][page % ENTRIES] == 0;
      }
    }

    /** The entry of a page whose table is k says whether the page is mapped, and to which frame. */
    lemma PteOfPage(k: nat, page: nat)
      requires Valid() && page < NUM_PAGES && k < |owner|
      requires Present(dict[page / ENTRIES]) && TableOf(base, dict[page / ENTRIES]) == k
      ensures var pte := tabs[k][page % ENTRIES];
        (page in mapping <==> Present(pte)) && (page in mapping ==> EntryAddr(pte) == mapping[page] * PAGE)
    {
      assert PageOk(page);
    }

    /** Writing the entry of one page changes the mapping of that page and of no other: tables are not shared. */
    lemma PutValid(k: nat, page: nat, w: nat)
      requires Valid() && page < NUM_PAGES && k < |owner| && Present(w) && w % 4 == 3
      requires Present(dict[page / ENTRIES]) && TableOf(base, dict[page / ENTRIES]) == k
      ensures Put(k, page, w).Valid()
    {
      hide TableOf, Pde, TableAddr, Present;
      var after := Put(k, page, w);
      forall e | 0 <= e < ENTRIES ensures after.EntryOk(e) {
        assert EntryOk(e);
      }
      forall j | 0 <= j < |after.owner| ensures after.OwnerOk(j) {
        assert OwnerOk(j);
      }
      forall j | |after.owner| <= j < TABLES ensures after.Blank(j) {
        assert Blank(j);
      }
      forall p | 0 <= p < NUM_PAGES ensures after.PageOk(p) {
        assert PageOk(p) && EntryOk(p / ENTRIES) && EntryOk(page / ENTRIES);
        assert p != page ==> p / ENTRIES != page / ENTRIES || p % ENTRIES != page % ENTRIES;
      }
    }
  }

  /** The tables in use belong to distinct entries, and are as many as the entries present. */
  lemma TablesCounted(w: Words)
    requires w.Valid()
    ensures Distinct(w.owner) && |w.owner| == |set d | 0 <= d < ENTRIES && Present(w.dict[d])|
  {
    hide TableOf, Pde, TableAddr;
    forall j, k | 0 <= j < k < |w.owner| ensures w.owner[j] != w.owner[k] {
      assert w.OwnerOk(j) && w.OwnerOk(k);
      PdeDecodes(w.base, j);
      PdeDecodes(w.base, k);
    }
    var used := set d | 0 <= d < ENTRIES && Present(w.dict[d]);
    forall d ensures d in used <==> d in Elements(w.owner) {
      if 0 <= d < ENTRIES {
        w.InUse(d);
      }
      if d in w.owner {
        var k :| 0 <= k < |w.owner| && w.owner[k] == d;
        assert w.OwnerOk(k);
      }
    }
    assert used == Elements(w.owner);
    DistinctElements(w.owner);
  }

  class PageDictionary {
    const entries: array<nat>
    const reserve: seq<PageTable>
    const base: nat
    var tableCount: nat

    ghost var owner: seq<nat>
    ghost var mapping: map<nat, nat>

    /** The dictionary and its tables are apart. */
    ghost predicate Layout() {
      && BaseOk(base) && entries.Length == ENTRIES && |reserve| == TABLES
      && (forall k :: 0 <= k < TABLES ==> reserve[k].entries.Length == ENTRIES && reserve[k].entries != entries)
      && (forall j, k :: 0 <= j < k < TABLES ==> reserve[j].entries != reserve[k].entries)
    }

    ghost function Arrays(): set<object> {
      {entries} + set t | t in reserve :: t.entries
    }

    ghost function Tabs(): (s: seq<seq<nat>>)
      requires Layout()
      reads Arrays()
      ensures |s| == TABLES
    {
      seq(TABLES, k requires 0 <= k < TABLES reads Arrays() => reserve[k].entries[..])
    }

    ghost function State(): Words
      requires Layout()
      reads this, Arrays()
    {
      Words(base, entries[..], Tabs(), owner, mapping)
    }

    ghost predicate Valid()
      reads this, Arrays()
    {
      Layout() && tableCount == |owner| && State().Shape() && State().Valid()
    }

    /** A zeroed dictionary at address at. */
    constructor (at: nat)
      requires BaseOk(at)
      ensures Valid() && mapping == map[] && owner == [] && base == at && fresh(Arrays())
    {
      var tables: seq<PageTable> := [];
      for k := 0 to TABLES
        invariant |tables| == k
        invariant forall j :: 0 <= j < k ==> tables[j].entries.Length == ENTRIES && fresh(tables[j].entries)
        invariant forall i, j :: 0 <= i < j < k ==> tables[i].entries != tables[j].entries
        invariant forall j, i :: 0 <= j < k && 0 <= i < ENTRIES ==> tables[j].entries[i] == 0
      {
        var t := new PageTable();
        tables := tables + [t];
      }
      base, reserve, tableCount, owner, mapping := at, tables, 0, [], map[];
      entries := new nat[ENTRIES](_ => 0);
    }

    /** at: the address that vma is mapped to, or 0. */
    method At(vma: nat) returns (r: nat)
      requires Valid() && vma < WORD
      ensures r == Translated(mapping, vma)
    {
      PageOfAddress(vma);
      var d := DictIndex(vma);
      assert State().EntryOk(d) && State().PageOk(vma / PAGE);
      if !Present(entries[d]) {
        return 0;
      }
      r := reserve[TableOf(base, entries[d])].At(vma);
    }

    /**
     * The walk that the processor does, in raw words. It takes the dictionary entry at vma's top ten
     * bits; if that is present it is 3 plus the physical address of a table of the reserve, and the word
     * of that table at vma's next ten bits is present, writable and names the frame exactly when the page
     * is mapped to it.
     */
    lemma HardwareWalk(vma: nat) returns (k: nat)
      requires Valid() && vma < 0x1_0000_0000
      ensures entries.Length == 1024 && |reserve| == 128
      ensures entries[vma / 0x400000] % 2 == 0 ==> vma / 0x1000 !in mapping
      ensures entries[vma / 0x400000] % 2 == 1 ==>
                && k < 128 && reserve[k].entries.Length == 1024
                && entries[vma / 0x400000] == 3 + (base + 0x1000 * (k + 1) - 0xC0000000) % 0x1_0000_0000
                && var pte := reserve[k].entries[vma / 0x1000 % 1024];
                && (vma / 0x1000 in mapping <==> pte % 2 == 1)
                && (vma / 0x1000 in mapping ==> pte % 4 == 3 && pte / 0x1000 == mapping[vma / 0x1000])
    {
      hide TableOf, Pde, TableAddr;
      PageOfAddress(vma);
      var d := vma / 0x400000;
      k := 0;
      assert State().EntryOk(d) && State().PageOk(vma / 0x1000);
      if Present(entries[d]) {
        k := TableOf(base, entries[d]);
        PdeIsPhysical(base, k);
      }
    }

    /** Puts the next table of the reserve at an absent entry. */
    method InstallTable(d: nat)
      requires Valid() && d < ENTRIES && !Present(entries[d]) && tableCount < TABLES
      modifies this, entries
      ensures Valid() && mapping == old(mapping) && owner == old(owner) + [d]
      ensures Present(entries[d]) && TableOf(base, entries[d]) == old(tableCount)
    {
      hide TableOf, Pde, TableAddr, Present, Words.Valid;
      ghost var before := State();
      before.InstalledValid(d);
      entries[d] := Pde(TableAddr(base, tableCount));
      owner := owner + [d];
      tableCount := tableCount + 1;
      assert State() == before.Installed(d);
    }

    lemma EntryIsPhysical(d: nat)
      requires Valid() && d < ENTRIES && Present(entries[d])
      ensures var k := TableOf(base, entries[d]);
        0 <= k < TABLES && entries[d] == 3 + (base + 0x1000 * (k + 1) - 0xC0000000) % 0x1_0000_0000
    {
      hide TableOf, Pde, TableAddr;
      assert State().EntryOk(d);
      PdeIsPhysical(base, TableOf(base, entries[d]));
    }

    /** The table for an address, newly made if there is none; None halts, no table is left. */
    method Table(vma: nat) returns (k: Option<nat>)
      requires Valid() && vma < WORD
      modifies this, entries
      ensures Valid() && mapping == old(mapping)
      ensures k.None? <==> DictIndex(vma) !in old(owner) && |old(owner)| == TABLES
      ensures owner == if DictIndex(vma) in old(owner) || k.None? then old(owner) else old(owner) + [DictIndex(vma)]
      ensures k.Some? ==> k.value < tableCount && Present(entries[DictIndex(vma)])
      ensures k.Some? ==> TableOf(base, entries[DictIndex(vma)]) == k.value
      ensures vma / 0x400000 < 1024 == entries.Length
      ensures k.Some? ==>
                entries[vma / 0x400000] == 3 + (base + 0x1000 * (k.value + 1) - 0xC0000000) % 0x1_0000_0000
    {
      hide TableOf, Pde, TableAddr, Present, Words.Valid;
      PageOfAddress(vma);
      var d := DictIndex(vma);
      State().InUse(d);
      if !Present(entries[d]) {
        if tableCount == TABLES {
          return None;
        }
        InstallTable(d);
      }
      EntryIsPhysical(d);
      k := Some(TableOf(base, entries[d]));
    }

    /** insert: maps vma's page to pma's frame, and leaves every other page as it was. */
    method Insert(vma: nat, pma: nat) returns (ok: bool)
      requires Valid() && vma < WORD && pma < WORD
      modifies this, Arrays()
      ensures Valid() && (ok <==> DictIndex(vma) in old(owner) || |old(owner)| < TABLES)
      ensures mapping == if ok then old(mapping)[vma / PAGE := pma / PAGE] else old(mapping)
      ensures owner == if DictIndex(vma) in old(owner) || !ok then old(owner) else old(owner) + [DictIndex(vma)]
    {
      hide TableOf, Pde, TableAddr, Present, Words.Valid;
      PageOfAddress(vma);
      var k := Table(vma);
      if k.None? {
        return false;
      }
      ghost var before, w := State(), WithFlags(EntryAddr(pma));
      FlagsOfEntry(pma);
      before.PutValid(k.value, vma / PAGE, w);
      reserve[k.value].Insert(vma, pma);
      mapping := mapping[vma / PAGE := pma / PAGE];
      assert Tabs() == before.tabs[k.value := reserve[k.value].entries[..]];
      assert State() == before.Put(k.value, vma / PAGE, w);
      ok := true;
    }

    /** operator[] of the table that a page belongs to. */
    method SubscriptIn(k: nat, pmm: PageStack, vma: nat) returns (r: Option<nat>)
      requires Valid() && vma < WORD && pmm.Valid() && pmm.stack !in Arrays()
      requires k < tableCount && Present(entries[DictIndex(vma)]) && TableOf(base, entries[DictIndex(vma)]) == k
      modifies this`mapping, Arrays(), pmm`top
      ensures Valid() && pmm.Valid()
      ensures r.None? <==> vma / PAGE !in old(mapping) && |old(pmm.Free())| <= 1
      ensures r.None? || vma / PAGE in old(mapping) ==> mapping == old(mapping) && pmm.Free() == old(pmm.Free())
      ensures r.Some? && vma / PAGE !in old(mapping) ==>
                && mapping == old(mapping)[vma / PAGE := Last(old(pmm.Free())) / PAGE]
                && pmm.Free() == ButLast(old(pmm.Free()))
      ensures r.Some? ==> vma / PAGE in mapping && r.value == mapping[vma / PAGE] * PAGE + vma % PAGE
    {
      hide TableOf, Pde, TableAddr, Present, EntryAddr, WithFlags, Words.Valid, PageStack.Free, PageStack.Valid;
      PageOfAddress(vma);
      ghost var before, page := State(), if pmm.Free() == [] then 0 else Last(pmm.Free());
      before.PteOfPage(k, vma / PAGE);
      FlagsKeepFrame(page);
      r := reserve[k].Subscript(pmm, vma);
      assert Tabs() == before.tabs[k := reserve[k].entries[..]];
      if vma / PAGE !in mapping && r.Some? {
        before.PutValid(k, vma / PAGE, WithFlags(page));
        mapping := mapping[vma / PAGE := page / PAGE];
        assert State() == before.Put(k, vma / PAGE, WithFlags(page));
      } else {
        assert State() == before;
      }
    }

    lemma OwnersBound()
      requires Valid()
      ensures |owner| <= TABLES
    {
    }

    /** A mapped page has a table. */
    lemma MappedHasTable(vma: nat)
      requires Valid() && vma < WORD && vma / PAGE in mapping
      ensures DictIndex(vma) in owner
    {
      PageOfAddress(vma);
      assert State().PageOk(vma / PAGE) && State().EntryOk(DictIndex(vma));
    }

    /**
     * operator[]: the address that vma is mapped to; a page that was not mapped gets the frame on top
     * of the stack. None: there is no table left, or no frame to give.
     */
    method Subscript(pmm: PageStack, vma: nat) returns (r: Option<nat>)
      requires Valid() && vma < WORD && pmm.Valid() && pmm.stack !in Arrays()
      modifies this, Arrays(), pmm`top
      ensures Valid() && pmm.Valid()
      ensures r.None? <==> vma / PAGE !in old(mapping) &&
                           ((DictIndex(vma) !in old(owner) && |old(owner)| == TABLES) || |old(pmm.Free())| <= 1)
      ensures r.None? || vma / PAGE in old(mapping) ==> mapping == old(mapping) && pmm.Free() == old(pmm.Free())
      ensures r.Some? && vma / PAGE !in old(mapping) ==>
                && mapping == old(mapping)[vma / PAGE := Last(old(pmm.Free())) / PAGE]
                && pmm.Free() == ButLast(old(pmm.Free()))
      ensures owner == if DictIndex(vma) in old(owner) || |old(owner)| == TABLES then old(owner)
                       else old(owner) + [DictIndex(vma)]
      ensures r.Some? ==> vma / PAGE in mapping && r.value == mapping[vma / PAGE] * PAGE + vma % PAGE
    {
      hide TableOf, Present, Words.Valid, PageStack.Free, PageStack.Valid;
      if vma / PAGE in mapping {
        MappedHasTable(vma);
      }
      var k := Table(vma);
      if k.None? {
        return None;
      }
      r := SubscriptIn(k.value, pmm, vma);
    }
  }
}
