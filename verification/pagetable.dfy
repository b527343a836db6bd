/** The two-level page table of the proxy kernel and the allocator of the pages it is made of
    (RISC-V Privileged Architecture, section "Sv32: Page-Based 32-bit Virtual-Memory Systems",
    with the entry types of the repository's encoding.h). */
module PageTable {
  import opened Bits

  const PGSIZE: nat := 4096
  const PTES: nat := 1024
  /** The number of virtual pages. */
  const VPNS: nat := 0x10_0000
  const PTE_V: nat := 1

  /** ppn: the page an address lies in. */
  function Ppn(addr: nat): nat {
    Shr(addr, 12)
  }

  /** pt_idx: the ten bits of an address that select an entry at a level. */
  function PtIdx(addr: nat, level: nat): nat {
    And(Shr(addr, 10 * level + 12), 1023)
  }

  /** (ppn << PTE_PPN_SHIFT) | low. */
  function PteBits(ppn: nat, low: nat): nat {
    Or(low, Shl(ppn, 10))
  }

  /** pte_ppn. */
  function PtePpn(pte: nat): nat {
    Shr(pte, 10)
  }

  lemma Powers()
    ensures Pow2(10) == 1024 && Pow2(12) == 4096 && Pow2(22) == 0x40_0000
  {
    assert Pow2(10) == 1024;
    assert Pow2(12) == 4096;
    Pow2Sum(10, 12);
  }

  /** The two slices of an address: they put its page number together again. */
  lemma PtIdxIs(addr: nat)
    requires addr < WORD
    ensures Ppn(addr) == addr / PGSIZE < VPNS
    ensures PtIdx(addr, 0) == addr / PGSIZE % PTES && PtIdx(addr, 1) == addr / PGSIZE / PTES
    ensures addr / PGSIZE == PTES * PtIdx(addr, 1) + PtIdx(addr, 0)
  {
    hide And, Shr, Pow2;
    Powers();
    ShrIsQuotient(addr, 12);
    ShrIsQuotient(addr, 22);
    MaskIsRemainder(addr / 4096, 10);
    MaskIsRemainder(addr / 0x40_0000, 10);
    assert addr / 0x40_0000 == addr / 4096 / 1024;
  }

  /** Different pages differ in one of the slices. */
  lemma PtIdxInjective(a: nat, b: nat)
    requires a < WORD && b < WORD
    ensures PtIdx(a, 0) == PtIdx(b, 0) && PtIdx(a, 1) == PtIdx(b, 1) <==> a / PGSIZE == b / PGSIZE
  {
    PtIdxIs(a);
    PtIdxIs(b);
  }

  lemma OrZero(b: nat)
    ensures Or(0, b) == b
  {
    if b > 0 {
      OrZero(b / 2);
      OrHead(0, b);
    }
  }

  /** An entry holds its page number above its low ten bits. */
  lemma PteBitsIs(ppn: nat, low: nat)
    requires low < 1024
    ensures PteBits(ppn, low) == 1024 * ppn + low && PtePpn(PteBits(ppn, low)) == ppn
  {
    hide Or, Shl, Shr, Low, Pow2;
    Powers();
    OrHigh(low, ppn, 10);
    LowIsRemainder(low, 10);
    ShrIsQuotient(low, 10);
    OrZero(ppn);
    ShlIsProduct(ppn, 10);
    ShrIsQuotient(1024 * ppn + low, 10);
    RemainderIs(1024 * ppn + low, 1024, ppn, low);
  }

  /** A pointer into the pages of the kernel: a word of a page, or null. */
  datatype Pointer = Null | Word(page: nat, idx: nat)

  class Pages {
    const first: nat          // first_free_page
    const mem: array2<nat>    // the free pages, as words
    var next: nat             // next_free_page
    var root: nat             // root_page_table, 0 if there is none

    /** The address of page k, and back. */
    function Address(k: nat): nat
    {
      first + PGSIZE * k
    }

    function PageAt(addr: nat): int
    {
      (addr - first) / PGSIZE
    }

    ghost predicate Handed(addr: nat)
      reads this
    {
      first <= addr && (addr - first) % PGSIZE == 0 && PageAt(addr) < next
    }

    /** Entry i of the root table. */
    ghost function RootEntry(i: nat): nat
      requires root != 0 && 0 <= PageAt(root) < mem.Length0 && i < mem.Length1
      reads this, mem
    {
      mem[PageAt(root), i]
    }

    /** A root entry is empty or points to a page that was handed out, not to the root. */
    ghost predicate Points(e: nat)
      reads this
    {
      e == 0 || (e % 1024 == PTE_V && Handed(e / 1024 * PGSIZE) && e / 1024 * PGSIZE != root)
    }

    /** The page at addr is neither the root nor a table. */
    ghost predicate NoTable(addr: nat)
      reads this, mem
    {
      root != 0 && 0 <= PageAt(root) < mem.Length0 && mem.Length1 == PTES ==>
        addr != root && forall i :: 0 <= i < PTES && RootEntry(i) != 0 ==> RootEntry(i) / 1024 * PGSIZE != addr
    }

    ghost predicate Valid()
      reads this, mem
    {
      && first > 0 && first % PGSIZE == 0 && Address(mem.Length0) <= WORD
      && mem.Length1 == PTES && next <= mem.Length0
      && (root != 0 ==>
            && Handed(root)
            && (forall i :: 0 <= i < PTES ==> Points(RootEntry(i)))
            && (forall i, j :: 0 <= i < j < PTES && RootEntry(i) != 0 ==> RootEntry(i) != RootEntry(j)))
    }

    /** The second-level table of virtual page v, if there is one. */
    ghost predicate HasTable(v: nat)
      requires Valid() && v < VPNS
      reads this, mem
    {
      root != 0 && RootEntry(v / PTES) != 0
    }

    /** The word that holds the entry of virtual page v. */
    ghost function Slot(v: nat): (p: Pointer)
      requires Valid() && v < VPNS && HasTable(v)
      reads this, mem
      ensures p.Word? && p.page < next && p.idx < PTES && p.page != PageAt(root)
    {
      var e := RootEntry(v / PTES);
      assert Points(e);
      Word(PageAt(e / 1024 * PGSIZE), v % PTES)
    }

    ghost function Get(v: nat): nat
      requires Valid() && v < VPNS
      reads this, mem
    {
      if HasTable(v) then mem[Slot(v).page, Slot(v).idx] else 0
    }

    /** The page table as a finite map from virtual page numbers to entries. */
    ghost function Table(): (t: seq<nat>)
      requires Valid()
      reads this, mem
      ensures |t| == VPNS
    {
      seq(VPNS, v requires 0 <= v < VPNS && Valid() reads this, mem => Get(v))
    }

    /** The root entries that point to a table. */
    ghost function Filled(): (f: set<nat>)
      requires Valid()
      reads this, mem
      ensures forall v :: 0 <= v < VPNS ==> (v / PTES in f <==> HasTable(v))
      ensures root == 0 ==> f == {}
    {
      set i: nat | i < PTES && root != 0 && RootEntry(i) != 0
    }

    /** How many of the pages handed out are neither the root nor a table. */
    ghost function Others(): int
      requires Valid()
      reads this, mem
    {
      next - |Filled()| - (if root == 0 then 0 else 1)
    }

    /** How many pages a walk to virtual page v takes. */
    ghost function Wanted(v: nat, create: bool): nat
      requires Valid()
      reads this, mem
    {
      (if root == 0 then 1 else 0) + (if create && v / PTES !in Filled() then 1 else 0)
    }

    constructor (firstPage: nat, pages: nat)
      requires firstPage > 0 && firstPage % PGSIZE == 0 && firstPage + PGSIZE * pages <= WORD
      ensures Valid() && first == firstPage && mem.Length0 == pages && root == 0 && next == 0 && fresh(mem)
    {
      first, next, root := firstPage, 0, 0;
      mem := new nat[pages, PTES]((i, j) => 0);
    }
  }

  /** Words once found stay where they are: a pointer to an entry remains good. */
  twostate predicate Steady(pt: Pages)
    requires old(pt.Valid()) && pt.Valid()
    reads pt, pt.mem
  {
    && pt.next >= old(pt.next)
    && (old(pt.root) != 0 ==> pt.root == old(pt.root))
    && forall v :: 0 <= v < VPNS && old(pt.HasTable(v)) ==> pt.HasTable(v) && pt.Slot(v) == old(pt.Slot(v))
  }

  /** __page_alloc: the next free page, cleared. Without one the kernel stops. */
  method PageAlloc(pt: Pages) returns (ok: bool, addr: nat)
    requires pt.Valid()
    modifies pt`next, pt.mem
    ensures !ok <==> old(pt.next) == pt.mem.Length0
    ensures pt.Valid() && pt.Table() == old(pt.Table()) && Steady(pt)
    ensures pt.Filled() == old(pt.Filled()) && pt.root == old(pt.root)
    ensures !ok ==> pt.next == old(pt.next)
    ensures ok ==>
              && pt.next == old(pt.next) + 1 && addr == pt.first + 4096 * old(pt.next) && pt.Handed(addr)
              && pt.PageAt(addr) == old(pt.next) && addr < WORD && pt.NoTable(addr)
              && forall i :: 0 <= i < PTES ==> pt.mem[old(pt.next), i] == 0
    ensures forall p, i :: 0 <= p < old(pt.next) && 0 <= i < PTES ==> pt.mem[p, i] == old(pt.mem[p, i])
  {
    if pt.next == pt.mem.Length0 {
      return false, 0;
    }
    ok := true;
    var page := pt.next;
    addr := pt.first + PGSIZE * page;
    pt.next := pt.next + 1;
    var i := 0;
    while i < PTES
      invariant 0 <= i <= PTES && pt.next == page + 1
      invariant forall j :: 0 <= j < i ==> pt.mem[page, j] == 0
      invariant forall p, j :: 0 <= p < page && 0 <= j < PTES ==> pt.mem[p, j] == old(pt.mem[p, j])
    {
      pt.mem[page, i] := 0;
      i := i + 1;
    }
    SameTable(pt);
    forall j | pt.root != 0 && 0 <= j < PTES
      ensures pt.RootEntry(j) != 0 ==> pt.RootEntry(j) / 1024 * PGSIZE != addr
    {
      assert pt.RootEntry(j) == old(pt.RootEntry(j)) && old(pt.Points(pt.RootEntry(j)));
    }
  }

  /** Pages not handed out yet do not matter. */
  twostate lemma SameTable(pt: Pages)
    requires old(pt.Valid()) && old(pt.next) <= pt.next <= pt.mem.Length0 && pt.root == old(pt.root)
    requires forall p, i :: 0 <= p < old(pt.next) && 0 <= i < PTES ==> pt.mem[p, i] == old(pt.mem[p, i])
    ensures pt.Valid() && pt.Table() == old(pt.Table()) && Steady(pt) && pt.Filled() == old(pt.Filled())
  {
    if pt.root != 0 {
      forall i | 0 <= i < PTES
        ensures pt.RootEntry(i) == old(pt.RootEntry(i)) && pt.Points(pt.RootEntry(i))
      {
      }
    }
    forall v | 0 <= v < VPNS
      ensures pt.Get(v) == old(pt.Get(v))
    {
      assert pt.HasTable(v) == old(pt.HasTable(v));
      if pt.HasTable(v) {
        assert pt.Slot(v) == old(pt.Slot(v));
      }
    }
  }

  /** __maybe_create_root_page_table. */
  method MaybeCreateRoot(pt: Pages) returns (ok: bool)
    requires pt.Valid()
    modifies pt`next, pt`root, pt.mem
    ensures pt.Valid() && pt.Table() == old(pt.Table()) && Steady(pt)
    ensures ok <==> old(pt.root) != 0 || old(pt.next) < pt.mem.Length0
    ensures ok ==> pt.root != 0
    ensures old(pt.root) != 0 || !ok ==> pt.next == old(pt.next) && pt.root == old(pt.root)
    ensures pt.Filled() == old(pt.Filled()) && pt.Others() == old(pt.Others())
  {
    ok := true;
    if pt.root == 0 {
      var addr;
      ok, addr := PageAlloc(pt);
      if ok {
        pt.root := addr;
        assert pt.Table() == old(pt.Table());
        assert pt.Filled() == {};
      }
    }
  }

  /** ptd_create, installed in an empty root entry: a new, empty second-level table. */
  method AddTable(pt: Pages, i: nat) returns (ok: bool)
    requires pt.Valid() && pt.root != 0 && i < PTES && pt.RootEntry(i) == 0
    modifies pt`next, pt.mem
    ensures pt.Valid() && pt.Table() == old(pt.Table()) && Steady(pt) && pt.root == old(pt.root)
    ensures ok <==> old(pt.next) < pt.mem.Length0
    ensures ok ==> pt.RootEntry(i) != 0
    ensures pt.Filled() == old(pt.Filled()) + (if ok then {i} else {}) && pt.Others() == old(pt.Others())
  {
    hide And, Shr, Shl, Or, PteBits, Ppn, Pages.Points, Pages.NoTable, Pages.Table, Pages.HasTable, Pages.Filled;
    var page;
    ok, page := PageAlloc(pt);
    if ok {
      var e := PteBits(Ppn(page), PTE_V);
      TablePointer(pt.first, pt.PageAt(page), page);
      Pointable(pt, page, e);
      Install(pt, i, e);
    }
  }

  /** A page just handed out can become a table. */
  lemma Pointable(pt: Pages, page: nat, e: nat)
    requires pt.Valid() && pt.root != 0 && pt.Handed(page) && pt.NoTable(page)
    requires e / 1024 * PGSIZE == page && e % 1024 == PTE_V && e != 0
    ensures pt.Points(e) && forall j :: 0 <= j < PTES ==> pt.RootEntry(j) != e
  {
  }

  /** The entry that points to a page of the pool. */
  lemma TablePointer(first: nat, k: nat, page: nat)
    requires page == first + PGSIZE * k < WORD && first % PGSIZE == 0
    ensures var e := PteBits(Ppn(page), PTE_V); e / 1024 * PGSIZE == page && e % 1024 == PTE_V && e != 0
  {
    hide And, Shr, Shl, Or, PteBits;
    PtIdxIs(page);
    PteBitsIs(Ppn(page), PTE_V);
    var q := first / PGSIZE + k;
    assert page == PGSIZE * q;
    RemainderIs(page, PGSIZE, q, 0);
    RemainderIs(1024 * q + 1, 1024, q, 1);
  }

  /** The pointer to a new, empty table in an empty root entry. */
  method Install(pt: Pages, i: nat, e: nat)
    requires pt.Valid() && pt.root != 0 && i < PTES && pt.RootEntry(i) == 0 && e != 0 && pt.Points(e)
    requires forall j :: 0 <= j < PTES ==> pt.RootEntry(j) != e
    requires forall j :: 0 <= j < PTES ==> pt.mem[pt.PageAt(e / 1024 * PGSIZE), j] == 0
    modifies pt.mem
    ensures pt.Valid() && pt.Table() == old(pt.Table()) && Steady(pt)
    ensures pt.RootEntry(i) == e
    ensures pt.Filled() == old(pt.Filled()) + {i} && |pt.Filled()| == old(|pt.Filled()|) + 1
  {
    pt.mem[pt.PageAt(pt.root), i] := e;
    forall j | 0 <= j < PTES
      ensures pt.Points(pt.RootEntry(j)) && (j != i ==> pt.RootEntry(j) == old(pt.RootEntry(j)))
    {
      assert old(pt.Points(pt.RootEntry(j)));
    }
    assert pt.Valid();
    forall v | 0 <= v < VPNS
      ensures pt.Get(v) == old(pt.Get(v))
      ensures old(pt.HasTable(v)) ==> pt.HasTable(v) && pt.Slot(v) == old(pt.Slot(v))
    {
      if v / PTES != i {
        assert pt.RootEntry(v / PTES) == old(pt.RootEntry(v / PTES));
        assert old(pt.Points(pt.RootEntry(v / PTES)));
      }
    }
    assert pt.Filled() == old(pt.Filled()) + {i} && i !in old(pt.Filled());
  }

  /** PTE_TABLE: whether an entry points to a table. */
  function PteTable(pte: nat): bool {
    And(Shr(0xA, And(pte, 0x1F)), 1) == 1
  }

  lemma TableType(pte: nat)
    requires pte % 1024 == PTE_V
    ensures PteTable(pte) && And(pte, PTE_V) != 0
  {
    assert pte % 32 == 1 && pte % 2 == 1;
    assert Pow2(5) == 32 && Pow2(1) == 2;
    MaskIsRemainder(pte, 5);
    MaskIsRemainder(pte, 1);
    assert Shr(0xA, 1) == 5;
    assert And(5, 1) == 1 by {
      MaskIsRemainder(5, 1);
    }
  }

  /** __walk_internal. It finds the word that holds the entry of a virtual page; with create it
      makes the tables that are missing, without changing any entry. The kernel stops when it
      runs out of pages. */
  method WalkInternal(pt: Pages, addr: nat, create: bool) returns (ok: bool, p: Pointer)
    requires pt.Valid() && addr < WORD
    modifies pt`next, pt`root, pt.mem
    ensures pt.Valid() && pt.Table() == old(pt.Table()) && Steady(pt)
    ensures ok <==> old(pt.next + pt.Wanted(addr / PGSIZE, create)) <= pt.mem.Length0
    ensures pt.Filled() == old(pt.Filled()) + (if ok && create then {addr / PGSIZE / PTES} else {})
    ensures pt.Others() == old(pt.Others())
    ensures !ok ==> pt.next == pt.mem.Length0 && if create then addr / PGSIZE / PTES !in pt.Filled() else pt.root == 0
    ensures ok && p.Word? ==> pt.HasTable(addr / PGSIZE) && p == pt.Slot(addr / PGSIZE)
    ensures ok && p.Null? ==> !create && !pt.HasTable(addr / PGSIZE)
    ensures ok ==> pt.root != 0
    ensures old(pt.root) != 0 && !create ==> ok
    ensures ok && p.Word? ==> p.page < pt.mem.Length0 && p.idx < pt.mem.Length1
    ensures ok ==> pt.Table()[addr / PGSIZE] == if p.Word? then pt.mem[p.page, p.idx] else 0
  {
    hide Pages.Get, Pages.Table, Pages.Points, And, Shr, Shl, Or, Pages.Filled, Ppn, PtePpn;
    p := Null;
    PtIdxIs(addr);
    ok := MaybeCreateRoot(pt);
    if !ok {
      return;
    }
    var t := pt.root;
    var i := 1;
    while i > 0
      invariant i <= 1 && pt.Valid() && pt.root != 0 && ok && pt.Table() == old(pt.Table()) && Steady(pt)
      invariant pt.Others() == old(pt.Others())
      invariant pt.Filled() == old(pt.Filled()) + (if i == 0 && create then {addr / PGSIZE / PTES} else {})
      invariant if i == 1 then t == pt.root
                else pt.HasTable(addr / PGSIZE) && t / PGSIZE * PGSIZE == t && t >= pt.first
                     && pt.PageAt(t) == pt.Slot(addr / PGSIZE).page
    {
      var idx := PtIdx(addr, i);
      EmptyEntry(pt, idx);
      if And(pt.mem[pt.PageAt(t), idx], PTE_V) == 0 {
        if !create {
          WordOf(pt, addr / PGSIZE);
          return;
        }
        ok := AddTable(pt, idx);
        if !ok {
          return;
        }
      }
      TableEntry(pt, addr / PGSIZE);
      assert PteTable(pt.mem[pt.PageAt(t), idx]);
      t := Shl(PtePpn(pt.mem[pt.PageAt(t), idx]), 12);
      i := i - 1;
    }
    p := Word(pt.PageAt(t), PtIdx(addr, 0));
    WordOf(pt, addr / PGSIZE);
  }

  lemma WordOf(pt: Pages, v: nat)
    requires pt.Valid() && v < VPNS
    ensures pt.Table()[v] == if pt.HasTable(v) then pt.mem[pt.Slot(v).page, pt.Slot(v).idx] else 0
  {
  }

  /** The table as the hardware walks it, in plain numbers: the top ten bits of an address select a word
      of the root page, the page number of that word names the page in which the next ten bits select the
      entry. Pages are counted from the first of the pool. */
  lemma HardwareWalk(pt: Pages, addr: nat)
    requires pt.Valid() && addr < WORD
    ensures pt.root == 0 ==> pt.Table()[addr / 4096] == 0
    ensures pt.root != 0 ==>
              && addr / 0x40_0000 < pt.mem.Length1 && 0 <= (pt.root - pt.first) / 4096 < pt.mem.Length0
              && var e := pt.mem[(pt.root - pt.first) / 4096, addr / 0x40_0000];
                 if e == 0 then pt.Table()[addr / 4096] == 0
                 else
                   && e % 1024 == 1 && addr / 4096 % 1024 < pt.mem.Length1
                   && 0 <= (e / 1024 * 4096 - pt.first) / 4096 < pt.mem.Length0
                   && pt.Table()[addr / 4096] == pt.mem[(e / 1024 * 4096 - pt.first) / 4096, addr / 4096 % 1024]
  {
    assert addr / 4096 / 1024 == addr / 0x40_0000;
    if pt.root != 0 {
      assert pt.Points(pt.RootEntry(addr / 0x40_0000));
    }
  }

  /** A root entry without the valid bit is empty. */
  lemma EmptyEntry(pt: Pages, i: nat)
    requires pt.Valid() && pt.root != 0 && i < PTES
    ensures And(pt.RootEntry(i), PTE_V) == 0 <==> pt.RootEntry(i) == 0
  {
    assert pt.Points(pt.RootEntry(i));
    if pt.RootEntry(i) != 0 {
      TableType(pt.RootEntry(i));
    }
  }

  /** A root entry that is not empty is a pointer to the table of its pages. */
  lemma TableEntry(pt: Pages, v: nat)
    requires pt.Valid() && v < VPNS && pt.HasTable(v)
    ensures var e := pt.RootEntry(v / PTES); var t := Shl(PtePpn(e), 12);
      PteTable(e) && t >= pt.first && t / PGSIZE * PGSIZE == t && pt.PageAt(t) == pt.Slot(v).page
  {
    hide PteTable, Shl, And, Shr, PtePpn;
    var e := pt.RootEntry(v / PTES);
    assert pt.Points(e);
    TableType(e);
    EntryAddress(e);
    RemainderIs(e / 1024 * PGSIZE, PGSIZE, e / 1024, 0);
  }

  lemma EntryAddress(e: nat)
    ensures Shl(PtePpn(e), 12) == e / 1024 * PGSIZE
  {
    Powers();
    ShrIsQuotient(e, 10);
    ShlIsProduct(e / 1024, 12);
  }

  /** Storing through the word of virtual page v: read back for v, and no other page notices. */
  method StorePte(pt: Pages, p: Pointer, pte: nat, ghost v: nat)
    requires pt.Valid() && v < VPNS && pt.HasTable(v) && p == pt.Slot(v)
    modifies pt.mem
    ensures pt.Valid() && pt.Table() == old(pt.Table())[v := pte] && Steady(pt)
    ensures pt.Filled() == old(pt.Filled()) && pt.Others() == old(pt.Others())
    ensures pt.mem[p.page, p.idx] == pte
  {
    pt.mem[p.page, p.idx] := pte;
    forall i | 0 <= i < PTES
      ensures pt.RootEntry(i) == old(pt.RootEntry(i)) && pt.Points(pt.RootEntry(i))
    {
      assert old(pt.Points(pt.RootEntry(i)));
    }
    assert pt.Valid();
    forall w | 0 <= w < VPNS
      ensures pt.HasTable(w) == old(pt.HasTable(w)) && (pt.HasTable(w) ==> pt.Slot(w) == old(pt.Slot(w)))
      ensures pt.Get(w) == if w == v then pte else old(pt.Get(w))
    {
      if w != v && pt.HasTable(w) {
        SlotsApart(pt, v, w);
      }
    }
  }


  /** Different virtual pages have different words. */
  lemma SlotsApart(pt: Pages, v: nat, w: nat)
    requires pt.Valid() && v < VPNS && w < VPNS && v != w && pt.HasTable(v) && pt.HasTable(w)
    ensures pt.Slot(v) != pt.Slot(w)
  {
    var e, d := pt.RootEntry(v / PTES), pt.RootEntry(w / PTES);
    assert pt.Points(e) && pt.Points(d);
    if v / PTES != w / PTES {
      assert e != d;
    }
  }

  const PROT_READ: nat := 1
  const PROT_WRITE: nat := 2
  const PROT_EXEC: nat := 4

  /** The entry type pte_create picks for the three bits of a protection. */
  function TypeOf(prot: nat, user: bool): nat {
    var p := And(prot, 7);
    if user then
      if p == 0 then 0x10                       // PTE_TYPE_SR
      else if p == 1 then 0x08                  // PTE_TYPE_UR_SR
      else if p == 2 || p == 3 then 0x0A        // PTE_TYPE_URW_SRW
      else if p == 4 || p == 5 then 0x0C        // PTE_TYPE_URX_SRX
      else 0x0E                                 // PTE_TYPE_URWX_SRWX
    else
      if p <= 1 then 0x10                       // PTE_TYPE_SR
      else if p == 2 || p == 3 then 0x12        // PTE_TYPE_SRW
      else if p == 4 || p == 5 then 0x14        // PTE_TYPE_SRX
      else 0x16                                 // PTE_TYPE_SRWX
  }

  /** pte_create: a valid leaf entry. */
  function PteCreate(ppn: nat, prot: nat, user: bool): (pte: nat)
  {
    PteBits(ppn, PTE_V + TypeOf(prot, user))
  }

  lemma PteCreateIs(ppn: nat, prot: nat, user: bool)
    ensures PteCreate(ppn, prot, user) == 1024 * ppn + PTE_V + TypeOf(prot, user)
    ensures PteCreate(ppn, prot, user) % 2 == 1 && PtePpn(PteCreate(ppn, prot, user)) == ppn
  {
    hide And;
    var half := TypeOf(prot, user) / 2;
    assert TypeOf(prot, user) == 2 * half;
    PteBitsIs(ppn, PTE_V + TypeOf(prot, user));
    RemainderIs(PteCreate(ppn, prot, user), 2, 512 * ppn + half, 1);
  }

  /** The permission test of the page fault handler. */
  function Permits(pte: nat, prot: nat): bool {
    And(pte, PteCreate(0, prot, true)) == PteCreate(0, prot, true)
  }

  /** The accesses a user page of a protection allows: reading with any, writing and executing
      when asked for. */
  function Rights(prot: nat): set<nat> {
    var p := And(prot, 7);
    (if p != 0 then {PROT_READ} else {})
    + (if p == 2 || p == 3 || p >= 6 then {PROT_WRITE} else {})
    + (if p >= 4 then {PROT_EXEC} else {})
  }

  /** The bits of the page number do not take part in the test. */
  lemma {:induction false} AndLow(a: nat, b: nat, k: nat)
    requires b < Pow2(k)
    ensures And(a, b) == And(a % Pow2(k), b)
    decreases k
  {
    if k == 0 {
      AndZero(a);
    } else {
      var p := Pow2(k - 1);
      HalfRemainder(a, p);
      assert (a % (2 * p)) / 2 == a / 2 % p && (a % (2 * p)) % 2 == a % 2;
      AndLow(a / 2, b / 2, k - 1);
      AndHead(a, b);
      AndHead(a % (2 * p), b);
    }
  }

  lemma AndHead(a: nat, b: nat)
    ensures And(a, b) == 2 * And(a / 2, b / 2) + (if a % 2 == 1 && b % 2 == 1 then 1 else 0)
  {
  }

  /** The test on two types with their valid bits. */
  lemma AndTypes(a: nat, b: nat)
    requires a in {0x11, 9, 11, 13, 15} && b in {0x11, 9, 11, 13, 15}
    ensures And(a, b) == b <==> a == b || (a == 15 && b != 0x11) || (b == 9 && a != 0x11)
  {
    hide And;
    AndHead(a, b);
    AndCodes(a / 2, b / 2);
  }

  lemma AndCodes(c: nat, d: nat)
    requires 4 <= c <= 8 && 4 <= d <= 8
    ensures And(c, d) == d <==> c == d || (c == 7 && d != 8) || (d == 4 && c != 8)
  {
    hide And;
    AndHead(c, d);
    AndTops(c / 2, d / 2);
  }

  lemma AndTops(p: nat, q: nat)
    requires 2 <= p <= 4 && 2 <= q <= 4
    ensures And(p, q) == q <==> p == q || (p == 3 && q == 2)
  {
    hide And;
    AndHead(p, q);
    AndHead(p / 2, q / 2);
    AndHead(p / 4, q / 4);
    AndZero(p / 8);
  }

  /** A mask of encoding.h, one bit for each type, at the type of an entry. */
  function MaskAt(mask: nat, pte: nat): bool {
    And(Shr(mask, And(pte, 0x1F)), 1) == 1
  }

  lemma MaskAtIs(mask: nat, pte: nat, t: nat, p: nat)
    requires pte % 32 == t && p == Pow2(t)
    ensures MaskAt(mask, pte) <==> mask / p % 2 == 1
  {
    assert Pow2(5) == 32 && Pow2(1) == 2;
    MaskIsRemainder(pte, 5);
    ShrIsQuotient(mask, t);
    MaskIsRemainder(mask / p, 1);
  }

  lemma TypePowers()
    ensures Pow2(9) == 0x200 && Pow2(11) == 0x800 && Pow2(13) == 0x2000 && Pow2(15) == 0x8000
    ensures Pow2(17) == 0x2_0000 && Pow2(19) == 0x8_0000 && Pow2(21) == 0x20_0000 && Pow2(23) == 0x80_0000
  {
    assert Pow2(10) == 0x400;
    assert Pow2(13) == 0x2000;
    assert Pow2(17) == 0x2_0000;
    assert Pow2(21) == 0x20_0000;
  }

  /** The type of a leaf entry, by protection. */
  lemma LeafType(ppn: nat, prot: nat, user: bool)
    ensures var p := prot % 8;
      PteCreate(ppn, prot, user) % 32
      == if user then
           (if p == 0 then 0x11 else if p == 1 then 9 else if p <= 3 then 0xB else if p <= 5 then 0xD else 0xF)
         else
           (if p <= 1 then 0x11 else if p <= 3 then 0x13 else if p <= 5 then 0x15 else 0x17)
  {
    hide And, Pow2, PteCreate;
    PteCreateIs(ppn, prot, user);
    ThreeBitsAre(prot);
    RemainderIs(PteCreate(ppn, prot, user), 32, 32 * ppn, PTE_V + TypeOf(prot, user));
  }

  lemma ThreeBitsAre(prot: nat)
    ensures And(prot, 7) == prot % 8
  {
    assert Pow2(3) == 8;
    MaskIsRemainder(prot, 3);
  }

  /** What the hardware makes of a user page, by the masks PTE_UR, PTE_UW and PTE_UX: it may be read
      under any protection but none, written exactly with PROT_WRITE and executed exactly with
      PROT_EXEC. */
  lemma UserAccess(ppn: nat, prot: nat)
    ensures var pte := PteCreate(ppn, prot, true);
      && (MaskAt(0xAAA0, pte) <==> prot % 8 != 0) && (MaskAt(0xAAA0, pte) <==> PROT_READ in Rights(prot))
      && (MaskAt(0x8880, pte) <==> prot / 2 % 2 == 1) && (MaskAt(0x8880, pte) <==> PROT_WRITE in Rights(prot))
      && (MaskAt(0xA0A0, pte) <==> prot / 4 % 2 == 1) && (MaskAt(0xA0A0, pte) <==> PROT_EXEC in Rights(prot))
  {
    hide MaskAt, And, Pow2, PteCreate, Rights;
    var pte, t := PteCreate(ppn, prot, true), PteCreate(ppn, prot, true) % 32;
    LeafType(ppn, prot, true);
    ThreeBitsAre(prot);
    RightsOf(prot);
    TypePowers();
    var p := Pow2(t);
    MaskAtIs(0xAAA0, pte, t, p);
    MaskAtIs(0x8880, pte, t, p);
    MaskAtIs(0xA0A0, pte, t, p);
    LowBits(prot);
  }

  /** The same of a supervisor page, by PTE_SR, PTE_SW and PTE_SX. */
  lemma SupervisorAccess(ppn: nat, prot: nat)
    requires prot % 8 != 0
    ensures var pte := PteCreate(ppn, prot, false);
      && MaskAt(0xAAAA_AAA0, pte)
      && (MaskAt(0x8888_8880, pte) <==> prot / 2 % 2 == 1)
      && (MaskAt(0xA0A0_A000, pte) <==> prot / 4 % 2 == 1)
  {
    hide MaskAt, And, Pow2, PteCreate;
    var pte, t := PteCreate(ppn, prot, false), PteCreate(ppn, prot, false) % 32;
    LeafType(ppn, prot, false);
    var p := SupervisorPower(t);
    MaskAtIs(0xAAAA_AAA0, pte, t, p);
    MaskAtIs(0x8888_8880, pte, t, p);
    MaskAtIs(0xA0A0_A000, pte, t, p);
    LowBits(prot);
  }

  /** Users may not access it. */
  lemma NoUserAccess(ppn: nat, prot: nat)
    requires prot % 8 != 0
    ensures var pte := PteCreate(ppn, prot, false);
      !MaskAt(0xAAA0, pte) && !MaskAt(0x8880, pte) && !MaskAt(0xA0A0, pte)
  {
    hide MaskAt, And, Pow2, PteCreate;
    var pte, t := PteCreate(ppn, prot, false), PteCreate(ppn, prot, false) % 32;
    LeafType(ppn, prot, false);
    var p := SupervisorPower(t);
    MaskAtIs(0xAAA0, pte, t, p);
    MaskAtIs(0x8880, pte, t, p);
    MaskAtIs(0xA0A0, pte, t, p);
  }

  lemma SupervisorPower(t: nat) returns (p: nat)
    requires t in {0x11, 0x13, 0x15, 0x17}
    ensures p == Pow2(t)
    ensures p == if t == 0x11 then 0x2_0000 else if t == 0x13 then 0x8_0000 else if t == 0x15 then 0x20_0000
                 else 0x80_0000
  {
    TypePowers();
    hide Pow2;
    p := Pow2(t);
  }

  lemma LowBits(prot: nat)
    ensures var p := prot % 8;
      && (prot / 2 % 2 == 1 <==> p in {2, 3, 6, 7}) && (prot / 4 % 2 == 1 <==> p >= 4)
  {
    var p, q := prot % 8, prot / 8;
    assert prot / 2 == 4 * q + p / 2 && prot / 4 == 2 * q + p / 4;
  }

  /** A user page permits exactly the accesses its protection gives: all those asked for, or, for
      a request of none, only on a page that gives none. */
  lemma PermitsRights(ppn: nat, prot: nat, asked: nat)
    ensures Permits(PteCreate(ppn, prot, true), asked)
            <==> if Rights(asked) == {} then Rights(prot) == {} else Rights(asked) <= Rights(prot)
  {
    hide And, Rights, Pow2, PteCreate;
    PteCreateIs(ppn, prot, true);
    PteCreateIs(0, asked, true);
    var a, b := PTE_V + TypeOf(prot, true), PTE_V + TypeOf(asked, true);
    Powers();
    AndLow(PteCreate(ppn, prot, true), b, 10);
    RemainderIs(PteCreate(ppn, prot, true), 1024, ppn, a);
    AndTypes(a, b);
    ThreeBitsAre(prot);
    ThreeBitsAre(asked);
    RightsOf(prot);
    RightsOf(asked);
  }

  lemma RightsOf(prot: nat)
    ensures PROT_READ in Rights(prot) <==> And(prot, 7) != 0
    ensures PROT_WRITE in Rights(prot) <==> And(prot, 7) in {2, 3} || And(prot, 7) >= 6
    ensures PROT_EXEC in Rights(prot) <==> And(prot, 7) >= 4
    ensures Rights(prot) == {} <==> And(prot, 7) == 0
    ensures Rights(prot) <= {PROT_READ, PROT_WRITE, PROT_EXEC}
  {
  }
}
