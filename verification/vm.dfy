/** The memory mappings of the proxy kernel: regions mapped lazily, page by page, through
    pointers in the page table. */
module Vm {
  import opened Bits
  import opened PageTable
  import opened VmState

  class Memory {
    const pt: Pages
    const slots: array<Vmr>          // the page of regions
    const files: array<OpenFile>
    const firstUser: nat             // current.first_free_paddr
    const mmapMax: nat               // current.mmap_max
    var brk: nat                     // current.brk
    var vmrs: nat                    // address of the regions, 0 before the first
    ghost var handles: seq<bool>

    ghost predicate Base()
      reads this, pt, pt.mem
    {
      && pt.Valid() && slots.Length == MAX_VMR && files.Length == MAX_FILES && |handles| == MAX_FILES
      && mmapMax + PGSIZE <= WORD
    }

    ghost function State(): (s: K)
      requires Base()
      reads this, pt, pt.mem, slots, files
      ensures s.base == vmrs && s.t == pt.Table() && s.slots == slots[..]
      ensures s.files == files[..] && s.handles == handles
    {
      K(vmrs, pt.Table(), slots[..], files[..], handles)
    }

    /** The reference counts agree with the page table but for the references to region own
        that are still to be stored. */
    ghost predicate Pending(own: nat, pend: nat)
      reads this, pt, pt.mem, slots, files
    {
      Base() && Inv(State(), own, pend)
    }

    ghost predicate Valid()
      reads this, pt, pt.mem, slots, files
    {
      Pending(0, 0)
    }

    /** __valid_user_range. */
    predicate ValidUserRange(vaddr: nat, len: nat)
    {
      if Add32(vaddr, len) < vaddr then false else vaddr >= firstUser && Add32(vaddr, len) <= mmapMax
    }

    /** How many of the pages handed out are neither the root, nor a table, nor the page of regions. */
    ghost function Others(): int
      requires pt.Valid()
      reads this, pt, pt.mem
    {
      pt.Others() - (if vmrs == 0 then 0 else 1)
    }

    constructor (pages: Pages, user: nat, max: nat)
      requires pages.Valid() && pages.Table() == seq(VPNS, i => 0) && max + PGSIZE <= WORD
      ensures Valid() && pt == pages && firstUser == user && mmapMax == max && fresh(slots) && fresh(files)
      ensures brk == 0 && vmrs == 0 && forall f :: 0 <= f < MAX_FILES ==> !handles[f]
    {
      pt, firstUser, mmapMax := pages, user, max;
      slots := new Vmr[MAX_VMR](i => Vmr(0, 0, NOFILE, 0, 0, 0));
      files := new OpenFile[MAX_FILES](i => OpenFile(0, 0, false));
      vmrs, brk := 0, 0;
      handles := seq(MAX_FILES, i => false);
      new;
      EmptyOk(State());
    }
  }

  lemma EmptyOk(s: K)
    requires |s.t| == VPNS && |s.slots| == MAX_VMR && |s.files| == |s.handles| == MAX_FILES && s.base == 0
    requires forall v :: 0 <= v < VPNS ==> s.t[v] == 0
    requires forall k :: 0 <= k < MAX_VMR ==> s.slots[k].refcnt == 0
    requires forall f :: 0 <= f < MAX_FILES ==> s.files[f].refcnt == 0 && !s.files[f].open && !s.handles[f]
    ensures Inv(s, 0, 0)
  {
    forall f
      ensures Naming(s.slots, f) == 0
    {
      NoneNamed(s.slots, f);
    }
  }

  lemma {:induction false} NoneNamed(slots: seq<Vmr>, f: int)
    requires forall k :: 0 <= k < |slots| ==> slots[k].refcnt == 0
    ensures Naming(slots, f) == 0
  {
    if slots != [] {
      NoneNamed(slots[..|slots| - 1], f);
    }
  }

  /** The range test in plain numbers. */
  lemma UserRange(m: Memory, vaddr: nat, len: nat)
    requires vaddr < WORD && len < WORD && m.mmapMax < WORD
    ensures m.ValidUserRange(vaddr, len) <==> m.firstUser <= vaddr && vaddr + len <= m.mmapMax
  {
    OverflowTest(vaddr, len);
  }

  /** file_incref. */
  method FileIncref(files: array<OpenFile>, f: nat)
    requires f < files.Length && files[f].refcnt > 0
    modifies files
    ensures files[..] == old(files[..])[f := Incref(old(files[f]))]
  {
    var prev := files[f].refcnt;
    files[f] := files[f].(refcnt := prev + 1);
  }

  /** file_decref: the last reference closes the file. */
  method FileDecref(files: array<OpenFile>, f: nat)
    requires f < files.Length
    modifies files
    ensures files[..] == old(files[..])[f := Decref(old(files[f]))]
  {
    var prev := files[f].refcnt;
    files[f] := files[f].(refcnt := prev - 1);
    if prev == 2 {
      files[f] := OpenFile(0, 0, false);
    }
  }

  /** __vmr_decref. */
  method VmrDecref(m: Memory, k: nat)
    requires m.Base() && k < MAX_VMR && NOFILE <= m.slots[k].file < MAX_FILES
    modifies m.slots, m.files
    ensures m.Base() && m.State() == Dropped(old(m.State()), k)
  {
    m.slots[k] := m.slots[k].(refcnt := m.slots[k].refcnt - 1);
    if m.slots[k].refcnt == 0 {
      if m.slots[k].file != NOFILE {
        FileDecref(m.files, m.slots[k].file);
      }
    }
  }

  /** The kernel has handed out its last page. */
  ghost predicate UsedUp(pt: Pages)
    reads pt
  {
    pt.next == pt.mem.Length0
  }

  /** No walk is possible any more. */
  ghost predicate NoRoot(pt: Pages)
    reads pt
  {
    pt.root == 0 && UsedUp(pt)
  }

  /** Pages were handed out for a root only. */
  twostate predicate NoNewTable(pt: Pages)
    requires old(pt.Valid()) && pt.Valid()
    reads pt, pt.mem
  {
    pt.Filled() == old(pt.Filled()) && pt.Others() == old(pt.Others())
  }

  /** The page of regions, made on the first use. */
  method MaybeCreateVmrs(m: Memory) returns (ok: bool)
    requires m.Valid()
    modifies m`vmrs, m.pt`next, m.pt.mem
    ensures ok ==> m.Valid() && m.vmrs > 0 && Steady(m.pt) && m.State() == old(m.State()).(base := m.vmrs)
    ensures ok <==> old(m.vmrs) != 0 || !old(UsedUp(m.pt))
    ensures m.pt.Valid() && m.pt.Filled() == old(m.pt.Filled()) && m.Others() == old(m.Others())
    ensures !ok ==> UsedUp(m.pt) && m.vmrs == 0
  {
    hide Inv, Pages.Table, Pages.Valid, Pages.Filled, Steady;
    ghost var s := m.State();
    Based(s, 0, 0);
    ok := true;
    Stays(m.pt);
    if m.vmrs == 0 {
      var addr;
      ok, addr := PageAlloc(m.pt);
      if ok {
        PageAddress(m.pt, addr);
        NewBase(s, addr, 0);
        m.vmrs := addr;
        assert m.State() == s.(base := addr);
      }
    }
  }

  twostate lemma Stays(pt: Pages)
    requires old(pt.Valid()) && unchanged(pt) && unchanged(pt.mem)
    ensures pt.Valid() && Steady(pt)
  {
  }

  lemma PageAddress(pt: Pages, addr: nat)
    requires pt.Valid() && pt.Handed(addr)
    ensures addr > 0 && addr % 4 == 0
  {
    var q, r := pt.first / PGSIZE, (addr - pt.first) / PGSIZE;
    assert addr == 4 * (1024 * (q + r));
    RemainderIs(addr, 4, 1024 * (q + r), 0);
  }

  lemma Based(s: K, own: nat, pend: nat)
    requires Inv(s, own, pend)
    ensures s == s.(base := s.base)
  {
  }

  /** __vmr_alloc: a free region record, if there is one, for refcnt references to come. */
  method VmrAlloc(m: Memory, r: Vmr) returns (ok: bool, k: int)
    requires m.Valid() && r.refcnt > 0 && NOFILE <= r.file < MAX_FILES && (r.file > NOFILE ==> m.files[r.file].open)
    modifies m`vmrs, m.pt`next, m.pt.mem, m.slots, m.files
    ensures ok ==> m.Base() && m.vmrs > 0 && Steady(m.pt) && -1 <= k < MAX_VMR
    ensures ok && k < 0 ==> m.Valid() && m.State() == old(m.State()).(base := m.vmrs)
                            && forall j :: 0 <= j < MAX_VMR ==> m.slots[j].refcnt != 0
    ensures ok && k >= 0 ==> m.Pending(k, r.refcnt) && old(m.slots[k]).refcnt == 0
                             && (forall j :: 0 <= j < k ==> old(m.slots[j]).refcnt != 0)
                             && m.State() == Allocated(old(m.State()).(base := m.vmrs), k, r)
    ensures ok <==> old(m.vmrs) != 0 || !old(UsedUp(m.pt))
    ensures m.pt.Valid() && m.pt.Filled() == old(m.pt.Filled()) && m.Others() == old(m.Others())
    ensures !ok ==> UsedUp(m.pt) && m.vmrs == 0
  {
    hide Inv, Pages.Table, Pages.Filled;
    k := -1;
    ok := MaybeCreateVmrs(m);
    if !ok {
      return;
    }
    ghost var s := m.State();
    var i := 0;
    while i < MAX_VMR
      invariant 0 <= i <= MAX_VMR && m.State() == s && m.Valid()
      invariant m.pt.Filled() == old(m.pt.Filled()) && m.Others() == old(m.Others())
      invariant forall j :: 0 <= j < i ==> m.slots[j].refcnt != 0
    {
      if m.slots[i].refcnt == 0 {
        OpenCounted(s, r.file, 0, 0);
        Allocate(s, i, r, 0);
        if r.file != NOFILE {
          FileIncref(m.files, r.file);
        }
        m.slots[i] := r;
        return ok, i;
      }
      i := i + 1;
    }
  }

  lemma OpenCounted(s: K, f: int, own: nat, pend: nat)
    requires Inv(s, own, pend) && NOFILE <= f < MAX_FILES && (f > NOFILE ==> s.files[f].open)
    ensures f > NOFILE ==> s.files[f].refcnt > 0
  {
    if f > NOFILE {
      assert FileOk(s.files[f], s.handles[f], Naming(s.slots, f));
    }
  }

  /** n pages from virtual page v on, all unmapped. */
  ghost predicate Vacant(t: seq<nat>, v: nat, n: nat) {
    v + n <= |t| && forall w :: v <= w < v + n ==> t[w] == 0
  }

  /** __va_avail. */
  method VaAvail(pt: Pages, vaddr: nat) returns (ok: bool, avail: bool)
    requires pt.Valid() && vaddr < WORD
    modifies pt`next, pt`root, pt.mem
    ensures pt.Valid() && pt.Table() == old(pt.Table()) && Steady(pt) && NoNewTable(pt)
    ensures ok <==> !old(NoRoot(pt))
    ensures !ok ==> NoRoot(pt)
    ensures ok ==> pt.root != 0 && (avail <==> pt.Table()[vaddr / PGSIZE] == 0)
  {
    var p;
    ok, p := WalkInternal(pt, vaddr, false);
    avail := p.Null?;
    if ok && p.Word? {
      avail := pt.mem[p.page, p.idx] == 0;
    }
  }

  /** The inner scan of __vm_alloc, backwards from the last page of a window whose first page is
      unmapped: it stops at the highest mapped page, or at the first page if there is none. Where the
      window runs past the last address it does not look at all, and answers the page it wraps to. */
  method ScanBack(pt: Pages, first: nat, npage: nat) returns (a: nat)
    requires pt.Valid() && pt.root != 0 && 0 < npage <= VPNS && first % PGSIZE == 0 && first < WORD
    requires pt.Table()[first / PGSIZE] == 0
    modifies pt`next, pt`root, pt.mem
    ensures pt.Valid() && pt.Table() == old(pt.Table()) && Steady(pt) && NoNewTable(pt)
    ensures first / PGSIZE + npage > VPNS ==> a == first + PGSIZE * (npage - 1) - WORD
    ensures first / PGSIZE + npage <= VPNS ==>
              && a % PGSIZE == 0 && first <= a < first + PGSIZE * npage
              && (a > first ==> pt.Table()[a / PGSIZE] != 0)
              && (a == first ==> Vacant(pt.Table(), first / PGSIZE, npage))
  {
    hide Pages.Valid, Pages.Table, Pages.Filled, Pages.Others;
    ghost var t, v := pt.Table(), first / PGSIZE;
    LastPage(v, npage);
    var last := Add32(first, (npage - 1) * PGSIZE);
    a := last;
    ghost var w := v + npage - 1;
    while a > first
      invariant pt.Valid() && pt.Table() == t && Steady(pt) && NoNewTable(pt)
      invariant v <= w < v + npage && if v + npage > VPNS then a == last else a == PGSIZE * w
      invariant forall u :: w < u < v + npage && u < VPNS ==> t[u] == 0
      decreases a
    {
      var _, avail := VaAvail(pt, a);
      if !avail {
        break;
      }
      a := a - PGSIZE;
      w := w - 1;
    }
  }

  /** The address of the last page of a window. */
  lemma LastPage(v: nat, n: nat)
    requires v < VPNS && 0 < n <= VPNS
    ensures Add32(PGSIZE * v, (n - 1) * PGSIZE)
            == if v + n <= VPNS then PGSIZE * (v + n - 1) else PGSIZE * (v + n - 1) - WORD
  {
  }

  /** No window of n unmapped pages lies between the addresses lo and hi. */
  ghost predicate NoWindow(t: seq<nat>, lo: nat, hi: nat, n: nat) {
    forall v: nat :: lo <= PGSIZE * v && PGSIZE * (v + n) <= hi ==> !Vacant(t, v, n)
  }

  /** The last start __vm_alloc looks at, on uintptr_t. */
  function SearchEnd(mmapMax: nat, n: nat): nat {
    Sub32(mmapMax, Mul32(n, PGSIZE))
  }

  /** As far as there are pages from v on, n of them are unmapped. */
  ghost predicate Bare(t: seq<nat>, v: nat, n: nat)
    ensures Vacant(t, v, n) <==> Bare(t, v, n) && v + n <= |t|
  {
    forall w :: v <= w < v + n && w < |t| ==> t[w] == 0
  }

  /** From brk on, no page before v is the start of n unmapped ones. */
  ghost predicate NoneFrom(t: seq<nat>, brk: nat, v: int, n: nat) {
    forall u: nat :: brk <= PGSIZE * u && u < v ==> !Bare(t, u, n)
  }

  /** The window of a start up to end may reach the last page of all. When that page blocks it, or is
      looked at itself, the search goes on at address 0. */
  predicate Wraps(end: nat, n: nat) {
    end / PGSIZE + n >= VPNS
  }

  /** The search is about to go over the pages from 0 on, in vain if they have been looked at. */
  ghost predicate Endless(t: seq<nat>, brk: nat, end: nat, n: nat) {
    Wraps(end, n) && NoneFrom(t, brk, VPNS, n)
  }

  /** The search came to page v and answered r: the start of a window, or, where that runs past the
      last address, the page its end wraps to. */
  ghost predicate Picked(t: seq<nat>, brk: nat, end: nat, n: nat, v: nat, r: nat) {
    && v < |t| == VPNS && t[v] == 0 && PGSIZE * v <= end
    && (if brk <= PGSIZE * v then NoneFrom(t, brk, v, n) else Endless(t, brk, end, n))
    && if v + n <= VPNS then Vacant(t, v, n) && r == PGSIZE * v else r == PGSIZE * (v + n - 1 - VPNS)
  }

  /** What __vm_alloc answers, 0 if the search came to its end. */
  ghost predicate Searched(t: seq<nat>, brk: nat, end: nat, n: nat, r: nat) {
    || (exists v: nat :: Picked(t, brk, end, n, v, r))
    || (r == 0 && forall u: nat :: brk <= PGSIZE * u <= end ==> !Bare(t, u, n))
  }

  /** __vm_alloc. For a request that fits below mmap_max it answers the lowest window of npage
      unmapped pages at or above brk and below mmap_max, and 0 only if there is none or it starts at 0.
      For a larger one the end of the search wraps around. */
  method VmAlloc(pt: Pages, brk: nat, mmapMax: nat, npage: nat) returns (ok: bool, r: nat)
    requires pt.Valid() && 0 < npage <= VPNS && mmapMax + PGSIZE <= WORD && brk % PGSIZE == 0 && brk < WORD
    modifies pt`next, pt`root, pt.mem
    ensures pt.Valid() && pt.Table() == old(pt.Table()) && Steady(pt) && NoNewTable(pt)
    ensures !ok ==> NoRoot(pt) || Endless(pt.Table(), brk, SearchEnd(mmapMax, npage), npage)
    ensures ok ==> Searched(pt.Table(), brk, SearchEnd(mmapMax, npage), npage, r)
    ensures PGSIZE * npage <= mmapMax ==>
              && (!ok ==> NoRoot(pt))
              && (ok && r != 0 ==>
                    && brk <= r && r % PGSIZE == 0 && r + PGSIZE * npage <= mmapMax
                    && Vacant(pt.Table(), r / PGSIZE, npage)
                    && NoWindow(pt.Table(), brk, r + PGSIZE * (npage - 1), npage))
              && (ok && r == 0 ==>
                    NoWindow(pt.Table(), brk, mmapMax, npage) || (brk == 0 && Vacant(pt.Table(), 0, npage)))
  {
    hide Pages.Valid, Pages.Table, Pages.Filled, Pages.Others, Searched, Endless;
    var end := SearchEnd(mmapMax, npage);
    ok, r := Search(pt, brk, end, npage);
    if PGSIZE * npage <= mmapMax {
      NoEnd(pt.Table(), brk, mmapMax, npage);
      if ok {
        InBounds(pt.Table(), brk, mmapMax, npage, r);
      }
    }
  }

  /** The loop of __vm_alloc. */
  method Search(pt: Pages, brk: nat, end: nat, npage: nat) returns (ok: bool, r: nat)
    requires pt.Valid() && 0 < npage <= VPNS && end < WORD && brk % PGSIZE == 0 && brk < WORD
    modifies pt`next, pt`root, pt.mem
    ensures pt.Valid() && pt.Table() == old(pt.Table()) && Steady(pt) && NoNewTable(pt)
    ensures !ok ==> NoRoot(pt) || Endless(pt.Table(), brk, end, npage)
    ensures ok ==> Searched(pt.Table(), brk, end, npage, r)
  {
    hide Pages.Valid, Pages.Table, Pages.Filled, Pages.Others, Vacant, Bare;
    ghost var t := pt.Table();
    var a: nat := brk;
    var again := false;
    ghost var v: nat := brk / PGSIZE;
    while a <= end
      invariant pt.Valid() && pt.Table() == t && Steady(pt) && NoNewTable(pt)
      invariant a == PGSIZE * v && v < VPNS
      invariant if again then Endless(t, brk, end, npage) else brk <= a && NoneFrom(t, brk, v, npage)
      decreases if again then 0 else 1, WORD - a
    {
      var avail;
      ok, avail := VaAvail(pt, a);
      if !ok {
        return ok, 0;
      }
      if avail {
        var first := a;
        a := ScanBack(pt, first, npage);
        if a <= first {
          assert Picked(t, brk, end, npage, v, a);
          return ok, a;
        }
      }
      Skip(t, v, a / PGSIZE, npage);
      assert a / PGSIZE + 1 == VPNS ==> Wraps(end, npage);
      v := a / PGSIZE + 1;
      a := Add32(a, PGSIZE);
      if a == 0 {
        // the second time all pages have been looked at in vain, and will be for ever
        if again {
          return false, 0;
        }
        again := true;
        v := 0;
      }
    }
    return true, 0;
  }

  /** A request that fits has an end that does not wrap around. */
  lemma NoEnd(t: seq<nat>, brk: nat, mmapMax: nat, n: nat)
    requires 0 < n && PGSIZE * n <= mmapMax && mmapMax + PGSIZE <= WORD
    ensures SearchEnd(mmapMax, n) == mmapMax - PGSIZE * n && !Endless(t, brk, SearchEnd(mmapMax, n), n)
  {
  }

  /** The answer to a request that fits is the lowest window below mmap_max. */
  lemma InBounds(t: seq<nat>, brk: nat, mmapMax: nat, n: nat, r: nat)
    requires 0 < n && PGSIZE * n <= mmapMax && mmapMax + PGSIZE <= WORD
    requires Searched(t, brk, SearchEnd(mmapMax, n), n, r)
    ensures r != 0 ==> brk <= r && r % PGSIZE == 0 && r + PGSIZE * n <= mmapMax && Vacant(t, r / PGSIZE, n)
                       && NoWindow(t, brk, r + PGSIZE * (n - 1), n)
    ensures r == 0 ==> NoWindow(t, brk, mmapMax, n) || (brk == 0 && Vacant(t, 0, n))
  {
    NoEnd(t, brk, mmapMax, n);
    if v: nat :| Picked(t, brk, SearchEnd(mmapMax, n), n, v, r) {
      assert v + n <= VPNS && r == PGSIZE * v && r / PGSIZE == v;
      forall u: nat | brk <= PGSIZE * u && PGSIZE * (u + n) <= r + PGSIZE * (n - 1)
        ensures !Vacant(t, u, n)
      {
        assert !Bare(t, u, n);
      }
    } else {
      forall v: nat | brk <= PGSIZE * v && PGSIZE * (v + n) <= mmapMax
        ensures !Vacant(t, v, n)
      {
        assert !Bare(t, v, n);
      }
    }
  }

  /** A request for more than mmap_max does not fail: with nothing mapped it is answered by brk, although
      its end lies above mmap_max. */
  lemma WrappedRequest(t: seq<nat>, r: nat)
    requires t == seq(VPNS, i => 0)
    ensures var brk, mmapMax, n := 0x100_0000, 0x200_0000, 0x4000;
      && (Searched(t, brk, SearchEnd(mmapMax, n), n, r) <==> r == brk)
      && !Endless(t, brk, SearchEnd(mmapMax, n), n) && brk + PGSIZE * n > mmapMax
  {
    OnlyFirst(t, 0x1000, 0xFE00_0000, 0x4000, r);
  }

  /** A still larger one runs past the last address and is answered by a page below brk. */
  lemma AnswerBelow(t: seq<nat>, r: nat)
    requires t == seq(VPNS, i => 0)
    ensures var brk, mmapMax, n := 0x3000, 0x200_0000, 0xF_FFFF;
      && (Searched(t, brk, SearchEnd(mmapMax, n), n, r) <==> r == 0x1000)
      && !Endless(t, brk, SearchEnd(mmapMax, n), n) && 0x1000 + PGSIZE * n == WORD
  {
    OnlyFirst(t, 3, 0x200_1000, 0xF_FFFF, r);
  }

  /** With nothing mapped the search ends on its first page. */
  lemma OnlyFirst(t: seq<nat>, v: nat, end: nat, n: nat, r: nat)
    requires t == seq(VPNS, i => 0) && v < VPNS && PGSIZE * v <= end && 0 < n <= VPNS
    ensures Searched(t, PGSIZE * v, end, n, r)
            <==> r == if v + n <= VPNS then PGSIZE * v else PGSIZE * (v + n - 1 - VPNS)
    ensures !Endless(t, PGSIZE * v, end, n)
  {
    assert Bare(t, v, n);
    assert r == (if v + n <= VPNS then PGSIZE * v else PGSIZE * (v + n - 1 - VPNS)) ==>
        Picked(t, PGSIZE * v, end, n, v, r);
    if u: nat :| Picked(t, PGSIZE * v, end, n, u, r) {
      assert u == v;
    }
  }

  /** A mapped page inside a window rules out every window from there up to the page itself. */
  lemma Skip(t: seq<nat>, v: nat, b: nat, n: nat)
    requires v <= b < v + n && b < |t| && t[b] != 0
    ensures forall w: nat :: v <= w <= b ==> !Bare(t, w, n)
  {
  }

  /** The table with the pages lo..hi-1 unmapped. */
  ghost function Cleared(t: seq<nat>, lo: nat, hi: nat): (r: seq<nat>)
    ensures |r| == |t|
  {
    seq(|t|, v requires 0 <= v < |t| => if lo <= v < hi then 0 else t[v])
  }

  /** Regions differ in their counts at most. */
  ghost predicate SameRegions(a: seq<Vmr>, b: seq<Vmr>) {
    |a| == |b| && forall k :: 0 <= k < |a| ==> b[k] == a[k].(refcnt := b[k].refcnt)
  }

  /** What unmapping and faulting leave as it was. */
  ghost predicate SameWorld(a: K, b: K) {
    && b.base == a.base && b.handles == a.handles && SameRegions(a.slots, b.slots)
    && |b.files| == |a.files| && |b.t| == |a.t|
  }

  lemma SameWorldTransitive(a: K, b: K, c: K)
    requires SameWorld(a, b) && SameWorld(b, c)
    ensures SameWorld(a, c)
  {
  }

  lemma DroppedWorld(a: K, k: nat, t: seq<nat>)
    requires k < |a.slots| && (NOFILE < a.slots[k].file ==> a.slots[k].file < |a.files|) && |t| == |a.t|
    ensures SameWorld(a, Dropped(a, k).(t := t))
  {
  }

  /** A page fault or an unmapping replaces an entry: the region a lazy entry pointed to loses
      a reference. */
  ghost function Replaced(s: K, own: nat, pend: nat, v: nat, pte: nat): (r: K)
    requires Inv(s, own, pend) && v < VPNS && !Lazy(pte)
    ensures r.t == s.t[v := pte] && SameWorld(s, r) && Inv(r, own, pend)
    ensures forall k :: 0 <= k < MAX_VMR && !(Lazy(s.t[v]) && s.t[v] == Ptr(s.base, k)) ==> r.slots[k] == s.slots[k]
  {
    if Lazy(s.t[v]) then
      Pointed(s, own, pend, v);
      var k := SlotOf(s.base, s.t[v]);
      Unstore(s, own, pend, v, k, pte);
      DroppedWorld(s, k, s.t[v := pte]);
      Dropped(s, k).(t := s.t[v := pte])
    else
      Restore(s, own, pend, v, pte);
      s.(t := s.t[v := pte])
  }

  /** One round of __do_munmap. */
  method UnmapPage(m: Memory, a: nat, ghost own: nat, ghost pend: nat) returns (ok: bool)
    requires m.Pending(own, pend) && a < WORD
    modifies m.pt`next, m.pt`root, m.pt.mem, m.slots, m.files
    ensures ok ==> m.Pending(own, pend) && Steady(m.pt) && m.pt.root != 0
                   && m.State() == Replaced(old(m.State()), own, pend, a / PGSIZE, 0)
    ensures ok <==> !old(NoRoot(m.pt))
    ensures m.pt.Valid() && NoNewTable(m.pt)
  {
    hide Inv, Pages.Table, Pages.Valid, Pages.Get, Pages.Slot, Pages.HasTable, Pages.Filled, Pages.Others;
    ghost var s, v := m.State(), a / PGSIZE;
    Identity(s, own, pend, v);
    var p;
    ok, p := WalkInternal(m.pt, a, false);
    if !ok || p.Null? || m.pt.mem[p.page, p.idx] == 0 {
      return;
    }
    EvenBit(m.pt.mem[p.page, p.idx]);
    if And(m.pt.mem[p.page, p.idx], PTE_V) == 0 {
      Pointed(s, own, pend, v);
      VmrDecref(m, SlotOf(m.vmrs, m.pt.mem[p.page, p.idx]));
    }
    StorePte(m.pt, p, 0, v);
    assert m.Base() && m.State() == Replaced(s, own, pend, v, 0);
  }

  /** Unmapping a page that is not mapped changes nothing. */
  lemma Identity(s: K, own: nat, pend: nat, v: nat)
    requires Inv(s, own, pend) && v < VPNS
    ensures s.t[v] == 0 ==> Replaced(s, own, pend, v, 0) == s
  {
    if s.t[v] == 0 {
      assert s.t[v := 0] == s.t;
    }
  }

  lemma EvenBit(pte: nat)
    ensures And(pte, PTE_V) == pte % 2
  {
    AndZero(pte / 2);
  }

  /** __do_munmap: the pages are unmapped, and the counts still agree with the table. */
  method DoMunmap(m: Memory, addr: nat, len: nat, ghost own: nat, ghost pend: nat) returns (ok: bool)
    requires m.Pending(own, pend) && addr % PGSIZE == 0 && addr + len + PGSIZE <= WORD
    modifies m.pt`next, m.pt`root, m.pt.mem, m.slots, m.files
    ensures ok ==> m.Pending(own, pend) && Steady(m.pt) && SameWorld(old(m.State()), m.State())
                   && m.pt.Table() == Cleared(old(m.pt.Table()), addr / PGSIZE, (addr + len + PGSIZE - 1) / PGSIZE)
    ensures !ok ==> old(NoRoot(m.pt))
    ensures m.pt.Valid() && NoNewTable(m.pt) && (old(m.pt.root) != 0 ==> m.pt.root != 0)
    ensures ok ==> var v, w := addr / PGSIZE, (addr + len + PGSIZE - 1) / PGSIZE;
      forall k :: 0 <= k < MAX_VMR && Elsewhere(old(m.State()), k, v, w) ==> m.slots[k] == old(m.slots[k])
  {
    hide Inv, Pages.Table, Pages.Valid, Pages.Filled, Pages.Others, Cleared;
    ghost var s := m.State();
    ghost var v, lo := addr / PGSIZE, addr / PGSIZE;
    var a := addr;
    ok := true;
    NoneCleared(s.t, lo);
    while a < addr + len
      invariant ok && m.Pending(own, pend) && Steady(m.pt) && SameWorld(s, m.State())
      invariant lo <= v && a == PGSIZE * v && a < addr + len + PGSIZE
      invariant m.pt.Table() == Cleared(s.t, lo, v)
      invariant NoNewTable(m.pt) && (old(m.pt.root) != 0 ==> m.pt.root != 0) && (NoRoot(m.pt) ==> old(NoRoot(m.pt)))
      invariant forall k :: 0 <= k < MAX_VMR && Elsewhere(s, k, lo, v) ==> m.slots[k] == s.slots[k]
    {
      ghost var s1 := m.State();
      ok := UnmapPage(m, a, own, pend);
      if !ok {
        return;
      }
      OneMore(s, s1, m.State(), own, pend, lo, v);
      a := a + PGSIZE;
      v := v + 1;
    }
    assert v == (addr + len + PGSIZE - 1) / PGSIZE || len == 0;
    NoneCleared(s.t, lo);
  }

  /** No page in lo..hi-1 is mapped lazily through region k. */
  ghost predicate Elsewhere(s: K, k: nat, lo: nat, hi: nat)
  {
    forall v :: lo <= v < hi && v < |s.t| ==> s.t[v] != Ptr(s.base, k)
  }

  lemma NoneCleared(t: seq<nat>, lo: nat)
    ensures Cleared(t, lo, lo) == t
  {
  }

  lemma OneMore(s: K, s1: K, s2: K, own: nat, pend: nat, lo: nat, v: nat)
    requires Inv(s1, own, pend) && SameWorld(s, s1) && lo <= v < VPNS && s1.t == Cleared(s.t, lo, v)
    requires forall k :: 0 <= k < MAX_VMR && Elsewhere(s, k, lo, v) ==> s1.slots[k] == s.slots[k]
    requires s2 == Replaced(s1, own, pend, v, 0)
    ensures SameWorld(s, s2) && s2.t == Cleared(s.t, lo, v + 1)
    ensures forall k :: 0 <= k < MAX_VMR && Elsewhere(s, k, lo, v + 1) ==> s2.slots[k] == s.slots[k]
  {
    hide Inv;
    forall k | 0 <= k < MAX_VMR && Elsewhere(s, k, lo, v + 1)
      ensures s2.slots[k] == s.slots[k]
    {
      assert Elsewhere(s, k, lo, v);
      assert s.t[v] != Ptr(s.base, k) && s1.t[v] == s.t[v];
    }
  }

  /** The state after a fault on virtual page v: a lazy entry has become the page itself, with
      the protection of its region, and the region has a reference less. */
  ghost function Faulted(s: K, own: nat, pend: nat, v: nat): (r: K)
    requires Inv(s, own, pend) && v < VPNS
    ensures Inv(r, own, pend) && SameWorld(s, r)
    ensures !Lazy(s.t[v]) ==> r == s
    ensures Lazy(s.t[v]) ==> 0 <= SlotOf(s.base, s.t[v]) < MAX_VMR
                             && r.t == s.t[v := PteCreate(v, s.slots[SlotOf(s.base, s.t[v])].prot, true)]
  {
    if Lazy(s.t[v]) then
      Pointed(s, own, pend, v);
      var pte := PteCreate(v, s.slots[SlotOf(s.base, s.t[v])].prot, true);
      PteCreateIs(v, s.slots[SlotOf(s.base, s.t[v])].prot, true);
      Replaced(s, own, pend, v, pte)
    else
      assert SameWorld(s, s);
      s
  }

  /** A fault on virtual page v has to read from a file that gives nothing. gives tells for each page
      what file_pread answers. */
  ghost predicate Starves(s: K, v: nat, gives: nat -> int)
    requires v < |s.t|
  {
    && Lazy(s.t[v])
    && var k := SlotOf(s.base, s.t[v]); 0 <= k < |s.slots| && s.slots[k].file != NOFILE && gives(v) <= 0
  }

  lemma KernelMapping(v: nat)
    ensures var pte := PteCreate(v, PROT_READ + PROT_WRITE, false);
      && PtePpn(pte) == v && pte % 2 == 1
      && MaskAt(0xAAAA_AAA0, pte) && MaskAt(0x8888_8880, pte) && !MaskAt(0xAAA0, pte)
  {
    PteCreateIs(v, PROT_READ + PROT_WRITE, false);
    SupervisorAccess(v, PROT_READ + PROT_WRITE);
    NoUserAccess(v, PROT_READ + PROT_WRITE);
  }

  /** The loading part of __handle_page_fault, through the word of a lazy entry. The kernel stops
      exactly when the file gives nothing. While the page is filled its entry is mid: the kernel may read
      and write it, and users may not access it. */
  method LoadPage(m: Memory, p: Pointer, v: nat, gives: nat -> int, ghost own: nat, ghost pend: nat)
    returns (ok: bool, ghost mid: nat)
    requires m.Pending(own, pend) && v < VPNS && m.pt.HasTable(v) && p == m.pt.Slot(v) && Lazy(m.pt.Table()[v])
    requires p.page < m.pt.mem.Length0 && p.idx < m.pt.mem.Length1 && m.pt.mem[p.page, p.idx] == m.pt.Table()[v]
    modifies m.pt.mem, m.slots, m.files
    ensures ok ==> m.Pending(own, pend) && Steady(m.pt) && m.State() == Faulted(old(m.State()), own, pend, v)
    ensures ok <==> !Starves(old(m.State()), v, gives)
    ensures PtePpn(mid) == v && mid % 2 == 1
    ensures MaskAt(0xAAAA_AAA0, mid) && MaskAt(0x8888_8880, mid) && !MaskAt(0xAAA0, mid)
    ensures m.pt.Valid() && NoNewTable(m.pt)
  {
    hide Inv, Pages.Table, Pages.Valid, Pages.Get, Pages.Slot, Pages.HasTable, Pages.Filled, Pages.Others,
         PteCreate, MaskAt;
    ghost var s := m.State();
    Pointed(s, own, pend, v);
    var k := SlotOf(m.vmrs, m.pt.mem[p.page, p.idx]);
    StorePte(m.pt, p, PteCreate(v, PROT_READ + PROT_WRITE, false), v);
    mid := m.pt.mem[p.page, p.idx];
    KernelMapping(v);
    if m.slots[k].file != NOFILE {
      var ret := gives(v);
      if ret <= 0 {
        return false, mid;
      }
    }
    VmrDecref(m, k);
    StorePte(m.pt, p, PteCreate(v, m.slots[k].prot, true), v);
    ok := true;
    assert m.Base() && m.State() == Faulted(s, own, pend, v);
  }

  /** __handle_page_fault: 0 if the access may go on, -1 if not. The kernel stops exactly when there is
      no page for a root, or when a file gives nothing. */
  method HandlePageFault(m: Memory, vaddr: nat, prot: nat, gives: nat -> int, ghost own: nat, ghost pend: nat)
    returns (ok: bool, res: int)
    requires m.Pending(own, pend) && vaddr < WORD
    modifies m.pt`next, m.pt`root, m.pt.mem, m.slots, m.files
    ensures ok ==> m.Pending(own, pend) && Steady(m.pt) && m.pt.root != 0
    ensures ok ==> var v := vaddr / PGSIZE;
      if old(m.pt.Table())[v] == 0 || !(m.firstUser <= PGSIZE * v < m.mmapMax)
      then res == -1 && m.State() == old(m.State())
      else m.State() == Faulted(old(m.State()), own, pend, v)
           && res == if Permits(m.pt.Table()[v], prot) then 0 else -1
    ensures var v := vaddr / PGSIZE;
      ok <==> !old(NoRoot(m.pt))
              && !(m.firstUser <= PGSIZE * v < m.mmapMax && Starves(old(m.State()), v, gives))
    ensures m.pt.Valid() && NoNewTable(m.pt)
  {
    hide Inv, Pages.Table, Pages.Valid, Pages.Get, Pages.Slot, Pages.HasTable, Pages.Filled, Pages.Others,
         PteCreate, Permits;
    var vpn := vaddr / PGSIZE;
    var page := vpn * PGSIZE;
    UserRange(m, page, 1);
    var p;
    ok, p := WalkInternal(m.pt, page, false);
    if !ok {
      return ok, -1;
    }
    if p.Null? || m.pt.mem[p.page, p.idx] == 0 || !m.ValidUserRange(page, 1) {
      return ok, -1;
    }
    EvenBit(m.pt.mem[p.page, p.idx]);
    if And(m.pt.mem[p.page, p.idx], PTE_V) == 0 {
      ghost var mid;
      ok, mid := LoadPage(m, p, vpn, gives, own, pend);
      if !ok {
        return ok, -1;
      }
      WordOf(m.pt, vpn);
    }
    res := if Permits(m.pt.mem[p.page, p.idx], prot) then 0 else -1;
  }

  /** The table with the pages lo..hi-1 mapped lazily through a pointer. */
  ghost function Mapped(t: seq<nat>, lo: nat, hi: nat, pte: nat): (r: seq<nat>)
    ensures |r| == |t|
  {
    seq(|t|, v requires 0 <= v < |t| => if lo <= v < hi then pte else t[v])
  }

  /** One round of the mapping loop of __do_mmap: whatever was mapped on the page is replaced by
      a pointer to region k. */
  method MapPage(m: Memory, a: nat, k: nat, ghost pend: nat) returns (ok: bool)
    requires m.Pending(k, pend) && pend > 0 && k < MAX_VMR && a % PGSIZE == 0 && a + 2 * PGSIZE <= WORD
    requires m.pt.Table()[a / PGSIZE] != Ptr(m.vmrs, k)
    modifies m.pt`next, m.pt`root, m.pt.mem, m.slots, m.files
    ensures ok ==> m.Pending(k, pend - 1) && SameWorld(old(m.State()), m.State()) && m.pt.root != 0
                   && m.pt.Table() == old(m.pt.Table())[a / PGSIZE := Ptr(m.vmrs, k)] && m.slots[k] == old(m.slots[k])
    ensures ok <==> old(m.pt.next + m.pt.Wanted(a / PGSIZE, true)) <= m.pt.mem.Length0
    ensures m.pt.Valid() && m.pt.Others() == old(m.pt.Others())
    ensures m.pt.Filled() == old(m.pt.Filled()) + if ok then {a / PGSIZE / PTES} else {}
    ensures !ok ==> UsedUp(m.pt) && a / PGSIZE / PTES !in m.pt.Filled()
  {
    hide Inv, Pages.Table, Pages.Valid, Pages.Get, Pages.Slot, Pages.HasTable, Pages.Filled, Pages.Others;
    ghost var s, v := m.State(), a / PGSIZE;
    var p;
    ok, p := WalkInternal(m.pt, a, true);
    if !ok {
      return;
    }
    ghost var s1 := m.State();
    assert s1 == s;
    if m.pt.mem[p.page, p.idx] != 0 {
      var _ := DoMunmap(m, a, PGSIZE, k, pend);
      OneCleared(s.t, v, (a + PGSIZE + PGSIZE - 1) / PGSIZE);
    }
    ghost var s2 := m.State();
    assert s2.t == s.t[v := 0] && SameWorld(s, s2) && s2.slots[k] == s.slots[k];
    StorePending(s2, k, pend, v);
    StorePte(m.pt, p, Ptr(m.vmrs, k), v);
    assert m.State() == s2.(t := s2.t[v := Ptr(s2.base, k)]);
  }

  lemma OneCleared(t: seq<nat>, v: nat, hi: nat)
    requires v < |t| && hi == v + 1
    ensures Cleared(t, v, hi) == t[v := 0]
  {
  }

  /** The root entries of n pages from virtual page v on. */
  ghost function Roots(v: nat, n: nat): set<nat> {
    set w: nat | v <= w < v + n :: w / PTES
  }

  /** The kernel has no page left for a table that n pages from v on need. */
  ghost predicate LacksTable(pt: Pages, v: nat, n: nat)
    requires pt.Valid()
    reads pt, pt.mem
  {
    UsedUp(pt) && !(Roots(v, n) <= pt.Filled())
  }

  /** Mapping up to the last page of all never ends: the address wraps to 0, below the end. */
  predicate RunsOver(addr: nat, length: nat) {
    addr + length < WORD && addr / PGSIZE + (length + PGSIZE - 1) / PGSIZE == VPNS
  }

  /** The mapping loop of __do_mmap, where its end does not wrap around. */
  method MapPages(m: Memory, addr: nat, length: nat, k: nat, ghost npage: nat) returns (ok: bool)
    requires m.Pending(k, npage) && k < MAX_VMR && addr % PGSIZE == 0 && length > 0 && addr + length < WORD
    requires npage == (length - 1) / PGSIZE + 1 && Elsewhere(m.State(), k, 0, VPNS)
    modifies m.pt`next, m.pt`root, m.pt.mem, m.slots, m.files
    ensures ok ==> m.Pending(k, 0) && SameWorld(old(m.State()), m.State()) && m.slots[k] == old(m.slots[k])
                   && m.pt.root != 0
                   && m.pt.Table() == Mapped(old(m.pt.Table()), addr / PGSIZE, addr / PGSIZE + npage, Ptr(m.vmrs, k))
    ensures m.pt.Valid() && m.pt.Others() == old(m.pt.Others())
    ensures m.pt.Filled() <= old(m.pt.Filled()) + Roots(addr / PGSIZE, npage)
    ensures ok ==> !RunsOver(addr, length)
    ensures !ok ==> RunsOver(addr, length) || LacksTable(m.pt, addr / PGSIZE, npage)
  {
    hide Inv, Pages.Table, Pages.Valid, Pages.Filled, Pages.Others, Roots;
    ghost var s, lo, n := m.State(), addr / PGSIZE, 0;
    var a := addr;
    ok := true;
    NothingMapped(s, lo, k);
    while a < addr + length
      invariant ok && 0 <= n <= npage && a == PGSIZE * (lo + n) && m.Pending(k, npage - n)
      invariant n < npage <==> a < addr + length
      invariant SameWorld(s, m.State()) && m.slots[k] == s.slots[k] && (n > 0 ==> m.pt.root != 0)
      invariant m.pt.Table() == Mapped(s.t, lo, lo + n, Ptr(m.vmrs, k))
      invariant m.pt.Others() == old(m.pt.Others()) && m.pt.Filled() <= old(m.pt.Filled()) + Roots(lo, npage)
      invariant lo + n < VPNS
    {
      if a + PGSIZE == WORD {
        // the next address is 0
        return false;
      }
      ghost var s1 := m.State();
      assert s1.t[lo + n] == s.t[lo + n];
      RootOf(lo, npage, lo + n);
      ok := MapPage(m, a, k, npage - n);
      if !ok {
        return;
      }
      SameWorldTransitive(s, s1, m.State());
      MappedMore(s.t, lo, lo + n, Ptr(m.vmrs, k));
      a := a + PGSIZE;
      n := n + 1;
    }
  }

  lemma RootOf(v: nat, n: nat, w: nat)
    requires v <= w < v + n
    ensures w / PTES in Roots(v, n)
  {
  }

  lemma NothingMapped(s: K, lo: nat, k: nat)
    ensures Mapped(s.t, lo, lo, Ptr(s.base, k)) == s.t && SameWorld(s, s)
  {
  }

  lemma MappedMore(t: seq<nat>, lo: nat, hi: nat, pte: nat)
    requires lo <= hi < |t|
    ensures Mapped(t, lo, hi, pte)[hi := pte] == Mapped(t, lo, hi + 1, pte)
  {
  }

  /** The table with the pages lo..hi-1 present, identity-mapped with a protection. */
  ghost function Present(t: seq<nat>, lo: nat, hi: nat, prot: nat): (r: seq<nat>)
    ensures |r| == |t|
  {
    seq(|t|, v requires 0 <= v < |t| => if lo <= v < hi then PteCreate(v, prot, true) else t[v])
  }

  /** Page v is in the user range, and file gives something for it. */
  ghost predicate Loads(m: Memory, v: nat, file: int, gives: nat -> int) {
    m.firstUser <= PGSIZE * v < m.mmapMax && (file == NOFILE || gives(v) > 0)
  }

  ghost predicate Loadable(m: Memory, lo: nat, hi: nat, file: int, gives: nat -> int) {
    forall v: nat :: lo <= v < hi ==> Loads(m, v, file, gives)
  }

  lemma NoneToLoad(m: Memory, lo: nat, file: int, gives: nat -> int)
    ensures Loadable(m, lo, lo, file, gives)
  {
  }

  lemma LoadableStep(m: Memory, lo: nat, v: nat, hi: nat, file: int, gives: nat -> int)
    requires lo <= v < hi && Loadable(m, lo, v, file, gives)
    ensures if Loads(m, v, file, gives) then Loadable(m, lo, v + 1, file, gives) else !Loadable(m, lo, hi, file, gives)
  {
  }

  /** A fault on a page of region k starves exactly if the file of the region gives nothing. */
  lemma StarvesIs(s: K, k: nat, v: nat, gives: nat -> int)
    requires Inv(s, 0, 0) && s.base > 0 && k < MAX_VMR && v < VPNS && s.t[v] == Ptr(s.base, k)
    ensures Lazy(s.t[v]) && SlotOf(s.base, s.t[v]) == k
    ensures Starves(s, v, gives) <==> s.slots[k].file != NOFILE && gives(v) <= 0
  {
    PointerShape(s, k);
  }

  /** The population loop of __do_mmap: it faults every page of the mapping in. The kernel stops
      exactly if a page is outside the user range or the file gives nothing for it; that the access is
      refused does not happen. */
  method Populate(m: Memory, addr: nat, length: nat, prot: nat, gives: nat -> int, ghost k: nat, ghost npage: nat)
    returns (ok: bool)
    requires m.Valid() && k < MAX_VMR && addr % PGSIZE == 0 && length > 0 && addr + length < WORD
    requires npage == (length - 1) / PGSIZE + 1 && m.slots[k].prot == prot && m.vmrs > 0 && m.pt.root != 0
    requires addr / PGSIZE + npage < VPNS
    requires forall v :: addr / PGSIZE <= v < addr / PGSIZE + npage ==> m.pt.Table()[v] == Ptr(m.vmrs, k)
    modifies m.pt`next, m.pt`root, m.pt.mem, m.slots, m.files
    ensures ok ==> m.Valid() && SameWorld(old(m.State()), m.State())
                   && m.pt.Table() == Present(old(m.pt.Table()), addr / PGSIZE, addr / PGSIZE + npage, prot)
    ensures ok <==> Loadable(m, addr / PGSIZE, addr / PGSIZE + npage, old(m.slots[k]).file, gives)
    ensures m.pt.Valid() && NoNewTable(m.pt)
  {
    hide Inv, Pages.Table, Pages.Valid, Pages.Filled, Pages.Others, PteCreate, Permits, Loadable, Starves, Steady;
    ghost var s, lo, n := m.State(), addr / PGSIZE, 0;
    var a := addr;
    ok := true;
    NonePresent(s, lo, prot);
    NoneToLoad(m, lo, s.slots[k].file, gives);
    while a < addr + length
      invariant ok && 0 <= n <= npage && a == PGSIZE * (lo + n) && m.Valid() && m.pt.root != 0
      invariant n < npage <==> a < addr + length
      invariant SameWorld(s, m.State()) && m.pt.Table() == Present(s.t, lo, lo + n, prot)
      invariant Loadable(m, lo, lo + n, s.slots[k].file, gives) && NoNewTable(m.pt)
    {
      ghost var s1 := m.State();
      assert s1.t[lo + n] == s.t[lo + n] == Ptr(s1.base, k);
      StarvesIs(s1, k, lo + n, gives);
      LoadableStep(m, lo, lo + n, lo + npage, s.slots[k].file, gives);
      PermitsOwn(lo + n, prot);
      var res;
      ok, res := HandlePageFault(m, a, prot, gives, 0, 0);
      if !ok {
        return;
      }
      if res != 0 {
        return false;
      }
      SameWorldTransitive(s, s1, m.State());
      PresentMore(s.t, lo, lo + n, prot);
      a := a + PGSIZE;
      n := n + 1;
    }
  }

  /** A page permits what it was mapped for. */
  lemma PermitsOwn(ppn: nat, prot: nat)
    ensures Permits(PteCreate(ppn, prot, true), prot)
  {
    PermitsRights(ppn, prot, prot);
  }

  lemma NonePresent(s: K, lo: nat, prot: nat)
    ensures Present(s.t, lo, lo, prot) == s.t && SameWorld(s, s)
  {
  }

  lemma PresentMore(t: seq<nat>, lo: nat, hi: nat, prot: nat)
    requires lo <= hi < |t|
    ensures Present(t, lo, hi, prot)[hi := PteCreate(hi, prot, true)] == Present(t, lo, hi + 1, prot)
  {
  }

  lemma PointerShape(s: K, k: nat)
    requires Inv(s, 0, 0) && s.base > 0
    ensures Lazy(Ptr(s.base, k)) && SlotOf(s.base, Ptr(s.base, k)) == k
  {
    hide Inv;
    EvenPtr(s.base, k);
  }

  /** A region all of whose references are still to be stored occurs nowhere in the table. */
  lemma FreshRegion(s: K, k: nat, n: nat)
    requires Inv(s, k, n) && k < MAX_VMR && s.slots[k].refcnt == n && s.base > 0
    ensures Elsewhere(s, k, 0, VPNS)
  {
    assert Held(s, k) == 0;
    forall v | 0 <= v < VPNS
      ensures s.t[v] != Ptr(s.base, k)
    {
      assert s.t[v] in multiset(s.t);
    }
  }

  /** The outcome of a mapping of n pages at address r: a region that was free now describes it,
      and exactly its pages are mapped through it, or present if populated. */
  ghost predicate MappedAt(s: K, t: K, r: nat, n: nat, region: Vmr, k: nat, populate: bool)
    requires |s.slots| == |t.slots| == MAX_VMR
  {
    && k < MAX_VMR && s.slots[k].refcnt == 0 && t.base > 0 && t.handles == s.handles
    && t.slots[k] == region.(refcnt := if populate then t.slots[k].refcnt else n)
    && t.t == (if populate then Present(s.t, r / PGSIZE, r / PGSIZE + n, region.prot)
               else Mapped(s.t, r / PGSIZE, r / PGSIZE + n, Ptr(t.base, k)))
    && forall j :: 0 <= j < MAX_VMR && j != k ==> t.slots[j] == s.slots[j].(refcnt := t.slots[j].refcnt)
  }

  /** The two loops of __do_mmap, for a region just allocated. Where their end wraps around they have
      no round, and the references of the region are never stored. */
  method MapRegion(m: Memory, addr: nat, length: nat, k: nat, populate: bool, gives: nat -> int,
                   ghost s: K, ghost region: Vmr)
    returns (ok: bool)
    requires m.vmrs > 0 && k < MAX_VMR && addr % PGSIZE == 0 && addr < WORD && 0 < length < WORD
    requires region.refcnt == (length - 1) / PGSIZE + 1 && m.Pending(k, region.refcnt)
    requires |s.slots| == MAX_VMR && s.slots[k].refcnt == 0 && NOFILE <= region.file < |s.files|
    requires m.State() == Allocated(s.(base := m.vmrs), k, region)
    modifies m.pt`next, m.pt`root, m.pt.mem, m.slots, m.files
    ensures ok && addr + length < WORD ==> m.Valid() && MappedAt(s, m.State(), addr, region.refcnt, region, k, populate)
    ensures addr + length >= WORD ==> ok && m.Pending(k, region.refcnt) && m.State() == old(m.State())
    ensures m.pt.Valid() && m.pt.Others() == old(m.pt.Others())
    ensures m.pt.Filled() <= old(m.pt.Filled()) + Roots(addr / PGSIZE, region.refcnt)
    ensures !ok ==> || RunsOver(addr, length)
                    || LacksTable(m.pt, addr / PGSIZE, region.refcnt)
                    || (populate && !Loadable(m, addr / PGSIZE, addr / PGSIZE + region.refcnt, region.file, gives))
  {
    hide Inv, Pages.Table, Pages.Valid, Pages.Filled, Pages.Others, PteCreate, Loadable, Roots;
    if Add32(addr, length) <= addr {
      return true;
    }
    ghost var s1 := m.State();
    FreshRegion(s1, k, region.refcnt);
    ok := MapPages(m, addr, length, k, region.refcnt);
    if !ok {
      return;
    }
    ghost var s2 := m.State();
    Settled(s2, k, 0);
    if populate {
      ok := Populate(m, addr, length, m.slots[k].prot, gives, k, region.refcnt);
      PresentMapped(s1.t, addr / PGSIZE, addr / PGSIZE + region.refcnt, Ptr(m.vmrs, k), region.prot);
    }
  }

  lemma PresentMapped(t: seq<nat>, lo: nat, hi: nat, pte: nat, prot: nat)
    ensures Present(Mapped(t, lo, hi, pte), lo, hi, prot) == Present(t, lo, hi, prot)
  {
  }

  /** Why __do_mmap stops: no page for what it has to store, a search or a mapping that never ends, or
      a page to be populated that cannot be. */
  ghost predicate Stops(m: Memory, r: int, length: nat, fixed: bool, populate: bool, f: int, gives: nat -> int)
    requires m.pt.Valid()
    reads m, m.pt, m.pt.mem
  {
    var n := (length - 1) / PGSIZE + 1;
    if r < 0 then
      !fixed && (NoRoot(m.pt) || Endless(m.pt.Table(), m.brk, SearchEnd(m.mmapMax, n), n))
    else
      || (UsedUp(m.pt) && m.vmrs == 0)
      || RunsOver(r, length) || LacksTable(m.pt, r / PGSIZE, n)
      || (populate && !Loadable(m, r / PGSIZE, r / PGSIZE + n, f, gives))
  }

  /** __do_mmap. Old mappings in the way are replaced, and afterwards every region and every
      file is counted exactly once for each reference to it, unless the end of the mapping wraps
      around: then none of the references counted for the new region is ever stored. The answer is -1
      when the range is no user range, when the search answers 0 or when all regions are in use. */
  method DoMmap(m: Memory, addr: nat, length: nat, prot: nat, fixed: bool, populate: bool, f: int, offset: nat,
                gives: nat -> int)
    returns (ok: bool, r: int, ghost k: nat)
    requires m.Valid() && addr < WORD && 0 < length < WORD && m.brk % PGSIZE == 0 && m.brk < WORD
    requires NOFILE <= f < MAX_FILES && (f > NOFILE ==> m.files[f].open)
    modifies m`vmrs, m.pt`next, m.pt`root, m.pt.mem, m.slots, m.files
    ensures -1 <= r < WORD && m.pt.Valid() && m.Others() == old(m.Others())
    ensures m.pt.Filled() <= old(m.pt.Filled()) + if r < 0 then {} else Roots(r / PGSIZE, (length - 1) / PGSIZE + 1)
    ensures !ok ==> Stops(m, r, length, fixed, populate, f, gives)
    ensures r >= 0 ==>
              && r % PGSIZE == 0
              && if fixed then r == addr >= m.firstUser && r + length <= m.mmapMax
                 else r > 0 && Searched(old(m.pt.Table()), m.brk, SearchEnd(m.mmapMax, (length - 1) / PGSIZE + 1),
                                        (length - 1) / PGSIZE + 1, r)
    ensures ok && r == -1 ==>
              && m.Valid() && m.State() == old(m.State()).(base := m.vmrs)
              && if fixed && (addr % PGSIZE != 0 || addr < m.firstUser || addr + length > m.mmapMax) then true
                 else (forall j :: 0 <= j < MAX_VMR ==> m.slots[j].refcnt != 0)
                      || (!fixed && Searched(m.pt.Table(), m.brk, SearchEnd(m.mmapMax, (length - 1) / PGSIZE + 1),
                                             (length - 1) / PGSIZE + 1, 0))
    ensures ok && r >= 0 ==> k < MAX_VMR && forall j :: 0 <= j < k ==> old(m.slots[j]).refcnt != 0
    ensures ok && r >= 0 ==>
              var region := Vmr(r, length, f, offset, (length - 1) / PGSIZE + 1, prot);
              if r + length < WORD then
                m.Valid() && MappedAt(old(m.State()), m.State(), r, region.refcnt, region, k, populate)
              else
                && m.Pending(k, region.refcnt) && k < MAX_VMR && old(m.slots[k]).refcnt == 0
                && m.State() == Allocated(old(m.State()).(base := m.vmrs), k, region)
  {
    hide Inv, Pages.Table, Pages.Valid, Pages.Filled, Pages.Others, Roots, Searched, Endless, Loadable,
         Steady, MappedAt;
    ghost var s := m.State();
    var npage := (length - 1) / PGSIZE + 1;
    r, k, ok := -1, 0, true;
    var at := addr;
    Based(s, 0, 0);
    if fixed {
      UserRange(m, addr, length);
      if addr % PGSIZE != 0 || !m.ValidUserRange(addr, length) {
        return;
      }
    } else {
      ok, at := VmAlloc(m.pt, m.brk, m.mmapMax, npage);
      if !ok || at == 0 {
        return;
      }
      SearchedPage(s.t, m.brk, SearchEnd(m.mmapMax, npage), npage, at);
    }
    ghost var s1 := m.State();
    assert s1 == s;
    var v;
    ok, v := VmrAlloc(m, Vmr(at, length, f, offset, npage, prot));
    if !ok {
      r := at;
      return;
    }
    if v < 0 {
      return;
    }
    k, r := v, at;
    ok := MapRegion(m, at, length, v, populate, gives, s, Vmr(at, length, f, offset, npage, prot));
  }

  /** The search answers an address of a page. */
  lemma SearchedPage(t: seq<nat>, brk: nat, end: nat, n: nat, r: nat)
    requires Searched(t, brk, end, n, r) && 0 < n <= VPNS
    ensures r % PGSIZE == 0 && r < WORD
  {
  }

  /** The references of a mapping whose end wraps around are lost: the counts no longer agree with the
      table. */
  lemma LostReferences(s: K, k: nat, n: nat)
    requires Inv(s, k, n) && k < MAX_VMR && n > 0
    ensures !Inv(s, 0, 0)
  {
    assert s.slots[k].refcnt != (if s.base == 0 then 0 else Held(s, k)) + (if k == 0 then 0 else 0);
  }

  /** do_munmap. */
  method DoMunmapCall(m: Memory, addr: nat, length: nat) returns (ok: bool, res: int)
    requires m.Valid() && addr < WORD && length < WORD
    modifies m.pt`next, m.pt`root, m.pt.mem, m.slots, m.files
    ensures ok ==> m.Valid()
    ensures ok ==> if addr % PGSIZE == 0 && addr >= m.firstUser && addr + length <= m.mmapMax
                   then res == 0 && m.pt.Table() == Cleared(old(m.pt.Table()), addr / PGSIZE,
                                                            (addr + length + PGSIZE - 1) / PGSIZE)
                   else res == -22 && m.State() == old(m.State())
    ensures !ok ==> old(NoRoot(m.pt))
    ensures m.pt.Valid() && NoNewTable(m.pt)
  {
    UserRange(m, addr, length);
    if addr % PGSIZE != 0 || !m.ValidUserRange(addr, length) {
      return true, -EINVAL;
    }
    ok := DoMunmap(m, addr, length, 0, 0);
    res := 0;
  }

  const EINVAL: int := 22

  /** file_get_free and the opening of its FatFs file: the new file has its own reference and
      that of its handle. Without a free record the kernel stops. */
  method FileOpen(m: Memory) returns (ok: bool, f: nat)
    requires m.Valid()
    modifies m`handles, m.files
    ensures ok ==> m.Valid() && f < MAX_FILES && !old(m.handles)[f] && m.handles == old(m.handles)[f := true]
                   && !old(m.files[f]).open && (forall g :: 0 <= g < f ==> old(m.files[g]).open)
                   && m.files[..] == old(m.files[..])[f := OpenFile(2, old(m.files[f]).offset, true)]
    ensures !ok ==> m.Valid() && forall g :: 0 <= g < MAX_FILES ==> m.files[g].open
  {
    hide Pages.Table, Pages.Valid;
    ghost var s := m.State();
    f := 0;
    while f < MAX_FILES
      invariant f <= MAX_FILES && m.State() == s && m.Valid()
      invariant forall g :: 0 <= g < f ==> m.files[g].open
    {
      assert FileOk(s.files[f], s.handles[f], Naming(s.slots, f));
      if m.files[f].refcnt == 0 {
        m.files[f] := m.files[f].(refcnt := 2, open := true);
        m.handles := m.handles[f := true];
        return true, f;
      }
      f := f + 1;
    }
    ok := false;
  }

  /** Closing a handle: file_decref. The FatFs file is closed exactly if no region names it. */
  method FileClose(m: Memory, f: nat)
    requires m.Valid() && f < MAX_FILES && m.handles[f]
    modifies m`handles, m.files
    ensures m.Valid() && m.handles == old(m.handles)[f := false]
    ensures m.files[f].open <==> Naming(m.slots[..], f) > 0
    ensures forall g :: 0 <= g < MAX_FILES && g != f ==> m.files[g] == old(m.files[g])
  {
    hide Pages.Table, Pages.Valid;
    assert FileOk(m.files[f], m.handles[f], Naming(m.slots[..], f));
    FileDecref(m.files, f);
    m.handles := m.handles[f := false];
  }
}
