/** The proxy kernel's virtual memory as a value: page table entries, the regions they may point
    to, the open files these name, and the reference counts that tie them together. */
module VmState {
  import opened Bits
  import opened PageTable

  const MAX_VMR: nat := 170    // a page of 24-byte records
  const MAX_FILES: nat := 32
  const NOFILE: int := -1

  /** vmr_t. */
  datatype Vmr = Vmr(addr: nat, length: nat, file: int, offset: nat, refcnt: int, prot: nat)
  {
    predicate Names(f: int) {
      refcnt > 0 && file == f
    }
  }

  /** file_t: open tells whether its FatFs file object is. */
  datatype OpenFile = OpenFile(refcnt: int, offset: nat, open: bool)

  /** base is the address of the region array, 0 before there is one; handles tells which files
      still have their open handle. */
  datatype K = K(base: nat, t: seq<nat>, slots: seq<Vmr>, files: seq<OpenFile>, handles: seq<bool>)

  /** Region records of 24 bytes fill a page. */
  lemma RecordsOfPage()
    ensures 24 * MAX_VMR <= 4096 < 24 * (MAX_VMR + 1)
  {
  }

  /** The address of region k, which a lazy entry holds. */
  function Ptr(base: nat, k: nat): nat {
    base + 24 * k
  }

  /** An entry that holds a pointer: neither empty nor valid. */
  predicate Lazy(pte: nat) {
    pte != 0 && pte % 2 == 0
  }

  ghost predicate IsPtr(base: nat, pte: nat) {
    exists k: nat :: k < MAX_VMR && pte == Ptr(base, k)
  }

  /** How many regions in use name file f. */
  function Naming(slots: seq<Vmr>, f: int): nat {
    if slots == [] then 0
    else Naming(slots[..|slots| - 1], f) + (if slots[|slots| - 1].Names(f) then 1 else 0)
  }

  lemma {:induction false} NamingUpdate(slots: seq<Vmr>, k: nat, v: Vmr, f: int)
    requires k < |slots|
    ensures Naming(slots[k := v], f)
            == Naming(slots, f) - (if slots[k].Names(f) then 1 else 0) + (if v.Names(f) then 1 else 0)
  {
    var n := |slots| - 1;
    if k == n {
      assert slots[k := v][..n] == slots[..n];
    } else {
      assert slots[k := v][..n] == slots[..n][k := v];
      NamingUpdate(slots[..n], k, v, f);
    }
  }

  lemma {:induction false} NamingPositive(slots: seq<Vmr>, k: nat, f: int)
    requires k < |slots| && slots[k].Names(f)
    ensures Naming(slots, f) > 0
  {
    if k < |slots| - 1 {
      NamingPositive(slots[..|slots| - 1], k, f);
    }
  }

  /** The count of a file: 0 when it is closed, else one, one for the open handle, and one for
      every region in use that names it. */
  predicate FileOk(x: OpenFile, handle: bool, n: nat) {
    && x.open == (handle || n > 0)
    && x.refcnt == if x.open then 1 + (if handle then 1 else 0) + n else 0
  }

  ghost predicate Shape(s: K) {
    && |s.t| == VPNS && |s.slots| == MAX_VMR && |s.files| == |s.handles| == MAX_FILES
    && s.base % 4 == 0
    && (forall v :: 0 <= v < VPNS && Lazy(s.t[v]) ==> s.base > 0 && IsPtr(s.base, s.t[v]))
    && (forall k :: 0 <= k < MAX_VMR && s.slots[k].refcnt > 0 ==> s.base > 0 && NOFILE <= s.slots[k].file < MAX_FILES)
  }

  /** How often an entry occurs in the table. */
  ghost function Held(s: K, k: nat): nat {
    multiset(s.t)[Ptr(s.base, k)]
  }

  /** The counts of the regions, with pend references to region own still to be stored. */
  ghost predicate Counted(s: K, own: nat, pend: nat)
    requires |s.slots| == MAX_VMR
  {
    forall k :: 0 <= k < MAX_VMR ==>
      s.slots[k].refcnt == (if s.base == 0 then 0 else Held(s, k)) + (if k == own then pend else 0)
  }

  ghost predicate FilesOk(s: K)
    requires |s.files| == |s.handles| == MAX_FILES
  {
    forall f :: 0 <= f < MAX_FILES ==> FileOk(s.files[f], s.handles[f], Naming(s.slots, f))
  }

  ghost predicate Inv(s: K, own: nat, pend: nat)
    ensures Inv(s, own, pend) ==> Shape(s)
  {
    Shape(s) && Counted(s, own, pend) && FilesOk(s)
  }

  lemma Update(t: seq<nat>, v: nat, x: nat, y: nat)
    requires v < |t|
    ensures multiset(t[v := x])[y] == multiset(t)[y] - (if t[v] == y then 1 else 0) + (if x == y then 1 else 0)
  {
    assert t[v] in multiset(t);
  }

  /** file_decref. */
  function Decref(x: OpenFile): OpenFile {
    if x.refcnt == 2 then OpenFile(0, 0, false) else x.(refcnt := x.refcnt - 1)
  }

  /** file_incref. */
  function Incref(x: OpenFile): OpenFile {
    x.(refcnt := x.refcnt + 1)
  }

  /** __vmr_decref with 1: the region loses a reference, and with the last one its own to its
      file. */
  function Dropped(s: K, k: nat): K
    requires k < |s.slots| && (NOFILE < s.slots[k].file ==> s.slots[k].file < |s.files|)
  {
    var v := s.slots[k].(refcnt := s.slots[k].refcnt - 1);
    s.(slots := s.slots[k := v],
       files := if v.refcnt == 0 && v.file > NOFILE then s.files[v.file := Decref(s.files[v.file])] else s.files)
  }

  /** Taking a lazy entry out of the table gives its region one reference less. */
  lemma Unstore(s: K, own: nat, pend: nat, v: nat, k: nat, pte: nat)
    requires Inv(s, own, pend) && v < VPNS && k < MAX_VMR && Lazy(s.t[v]) && s.t[v] == Ptr(s.base, k) && !Lazy(pte)
    ensures s.slots[k].refcnt > 0
    ensures Inv(Dropped(s, k).(t := s.t[v := pte]), own, pend)
  {
    var s' := Dropped(s, k).(t := s.t[v := pte]);
    forall j: nat | j < MAX_VMR
      ensures Held(s', j) == Held(s, j) - (if j == k then 1 else 0)
    {
      Update(s.t, v, pte, Ptr(s.base, j));
      Unlazy(s.base, pte, j);
    }
    DroppedFiles(s, k);
  }

  /** A pointer is neither empty nor valid. */
  lemma Unlazy(base: nat, pte: nat, j: nat)
    requires base > 0 && base % 4 == 0 && !Lazy(pte)
    ensures pte != Ptr(base, j)
  {
    EvenPtr(base, j);
  }

  lemma EvenPtr(base: nat, j: nat)
    requires base > 0 && base % 4 == 0
    ensures Lazy(Ptr(base, j))
  {
    var q := base / 4;
    assert Ptr(base, j) == 2 * (2 * q + 12 * j);
    RemainderIs(Ptr(base, j), 2, 2 * q + 12 * j, 0);
  }

  lemma DroppedFiles(s: K, k: nat)
    requires Shape(s) && FilesOk(s) && k < MAX_VMR && s.slots[k].refcnt > 0
    ensures FilesOk(Dropped(s, k))
  {
    var s' := Dropped(s, k);
    forall f | 0 <= f < MAX_FILES
      ensures FileOk(s'.files[f], s.handles[f], Naming(s'.slots, f))
    {
      NamingUpdate(s.slots, k, s'.slots[k], f);
      assert FileOk(s.files[f], s.handles[f], Naming(s.slots, f));
      if s.slots[k].Names(f) {
        NamingPositive(s.slots, k, f);
      }
    }
  }

  /** Replacing an entry that is no pointer by another that is none. */
  lemma Restore(s: K, own: nat, pend: nat, v: nat, pte: nat)
    requires Inv(s, own, pend) && v < VPNS && !Lazy(s.t[v]) && !Lazy(pte)
    ensures Inv(s.(t := s.t[v := pte]), own, pend)
  {
    var s' := s.(t := s.t[v := pte]);
    if s.base > 0 {
      forall j: nat | j < MAX_VMR
        ensures Held(s', j) == Held(s, j)
      {
        Update(s.t, v, pte, Ptr(s.base, j));
        Unlazy(s.base, pte, j);
        Unlazy(s.base, s.t[v], j);
      }
    }
  }

  /** Storing one of the pending pointers in an entry that is none. */
  lemma StorePending(s: K, own: nat, pend: nat, v: nat)
    requires Inv(s, own, pend) && pend > 0 && own < MAX_VMR && v < VPNS && !Lazy(s.t[v])
    ensures s.base > 0
    ensures Inv(s.(t := s.t[v := Ptr(s.base, own)]), own, pend - 1)
  {
    assert s.slots[own].refcnt > 0;
    var s' := s.(t := s.t[v := Ptr(s.base, own)]);
    forall j: nat | j < MAX_VMR
      ensures Held(s', j) == Held(s, j) + (if j == own then 1 else 0)
    {
      Update(s.t, v, Ptr(s.base, own), Ptr(s.base, j));
      Unlazy(s.base, s.t[v], j);
    }
    assert IsPtr(s.base, Ptr(s.base, own));
  }

  /** Nothing pending: the region that had pending references is one like any other. */
  lemma Settled(s: K, own: nat, own': nat)
    requires Inv(s, own, 0)
    ensures Inv(s, own', 0)
  {
  }

  /** __vmr_alloc in a free slot: n references pending. */
  function Allocated(s: K, k: nat, r: Vmr): K
    requires k < |s.slots| && NOFILE <= r.file < |s.files|
  {
    s.(slots := s.slots[k := r],
       files := if r.file > NOFILE then s.files[r.file := Incref(s.files[r.file])] else s.files)
  }

  lemma Allocate(s: K, k: nat, r: Vmr, own: nat)
    requires Inv(s, own, 0) && k < MAX_VMR && s.slots[k].refcnt == 0 && r.refcnt > 0 && s.base > 0
    requires NOFILE <= r.file < MAX_FILES && (r.file > NOFILE ==> s.files[r.file].open)
    ensures Inv(Allocated(s, k, r), k, r.refcnt)
  {
    var s' := Allocated(s, k, r);
    forall f | 0 <= f < MAX_FILES
      ensures FileOk(s'.files[f], s.handles[f], Naming(s'.slots, f))
    {
      NamingUpdate(s.slots, k, r, f);
      assert FileOk(s.files[f], s.handles[f], Naming(s.slots, f));
    }
    forall j: nat | j < MAX_VMR
      ensures Held(s', j) == Held(s, j)
    {
    }
  }

  /** The first region array: no entry is a pointer yet. */
  lemma NewBase(s: K, base: nat, own: nat)
    requires Inv(s, own, 0) && s.base == 0 && base > 0 && base % 4 == 0
    ensures Inv(s.(base := base), own, 0)
  {
    var s' := s.(base := base);
    forall j: nat | j < MAX_VMR
      ensures Held(s', j) == 0
    {
      forall v | 0 <= v < VPNS
        ensures s.t[v] != Ptr(base, j)
      {
        assert !Lazy(s.t[v]);
      }
    }
  }

  /** The region a pointer leads to. */
  function SlotOf(base: nat, pte: nat): int {
    (pte - base) / 24
  }

  /** The region a lazy entry points to is in use, and so is its file. */
  lemma Pointed(s: K, own: nat, pend: nat, v: nat)
    requires Inv(s, own, pend) && v < VPNS && Lazy(s.t[v])
    ensures var k := SlotOf(s.base, s.t[v]);
      && 0 <= k < MAX_VMR && s.t[v] == Ptr(s.base, k) && s.base > 0
      && s.slots[k].refcnt > 0 && NOFILE <= s.slots[k].file < MAX_FILES
      && (s.slots[k].file > NOFILE ==> s.files[s.slots[k].file].open)
  {
    var k: nat :| k < MAX_VMR && s.t[v] == Ptr(s.base, k);
    assert s.t[v] in s.t;
    var f := s.slots[k].file;
    if f > NOFILE {
      NamingPositive(s.slots, k, f);
      assert FileOk(s.files[f], s.handles[f], Naming(s.slots, f));
    }
  }
}
