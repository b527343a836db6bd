/** The cluster allocator of FatFs: stretching and releasing chains on the volume. */
module Allocator {
  import opened Bits
  import opened Disk
  import opened Volume
  import opened Window
  import opened FatTable
  import opened Chains

  /** free_clust is unknown or the number of free entries. */
  ghost predicate CountIs(freeClust: nat, f: seq<nat>) {
    freeClust == NONE || freeClust == |Free(f)|
  }

  ghost predicate CountOk(fs: Fatfs)
    requires fs.Valid()
    reads fs`winsect, fs`wflag, fs`freeClust, fs.win, fs.disk
  {
    CountIs(fs.freeClust, fs.Fat())
  }

  /** How many steps behind start, in cyclic order over 2..n-1, cluster c comes. */
  function Dist(start: nat, c: nat, n: nat): int {
    if c > start then c - start else c - start + n - 2
  }

  /** c is the first cluster behind start that is free or holds the illegal value 1. */
  ghost predicate FirstHit(f: seq<nat>, start: nat, c: nat) {
    && 2 <= c < |f| && f[c] < 2
    && forall d :: 2 <= d < |f| && f[d] < 2 ==> Dist(start, c, |f|) <= Dist(start, d, |f|)
  }

  ghost predicate NoHit(f: seq<nat>) {
    forall d :: 2 <= d < |f| ==> f[d] >= 2
  }

  /** Where the search starts when a new chain is created. */
  function StartPoint(lastClust: nat, n: nat): nat {
    if lastClust == 0 || lastClust >= n then 1 else lastClust
  }

  /** The table after ncl has been taken: marked as the end and, when clst is a cluster,
      linked behind it. */
  ghost function Taken(f: seq<nat>, g: Geometry, clst: nat, ncl: nat): seq<nat>
    requires clst < |f| && ncl < |f|
  {
    var f' := f[ncl := g.Clip(LAST_LINK)];
    if clst == 0 then f' else f'[clst := ncl]
  }

  /** No cluster up to d steps behind start is free or illegal. */
  ghost predicate Passed(f: seq<nat>, start: nat, d: nat) {
    forall c :: 2 <= c < |f| && Dist(start, c, |f|) <= d ==> f[c] >= 2
  }

  lemma OneStep(f: seq<nat>, start: nat, d: nat, c: nat)
    requires 1 <= start < |f| && 2 <= c < |f|
    requires Passed(f, start, d) && Dist(start, c, |f|) == d + 1
    ensures f[c] >= 2 ==> Passed(f, start, d + 1)
    ensures f[c] < 2 ==> FirstHit(f, start, c)
  {
  }

  lemma NonePassed(f: seq<nat>, start: nat)
    requires 1 <= start < |f|
    ensures Passed(f, start, 0)
  {
  }

  lemma AllPassed(f: seq<nat>, start: nat, d: nat)
    requires 1 <= start < |f| && Passed(f, start, d) && d >= |f| - 2
    ensures NoHit(f)
  {
    forall c | 2 <= c < |f|
      ensures f[c] >= 2
    {
      assert Dist(start, c, |f|) <= d;
    }
  }

  /** The outcome of the search for a free cluster behind start. */
  ghost predicate Found(f: seq<nat>, start: nat, ncl: nat) {
    if ncl == 0 then NoHit(f)
    else if ncl == 1 then exists c: nat :: FirstHit(f, start, c) && f[c] == 1
    else FirstHit(f, start, ncl) && f[ncl] == 0
  }

  /** Clusters in cyclic order, from the one behind start on; no two are the same. */
  ghost predicate InOrder(looked: seq<nat>, start: nat, n: nat) {
    && (forall i :: 0 <= i < |looked| ==> 2 <= looked[i] < n && Dist(start, looked[i], n) == i + 1)
    && (forall i, j :: 0 <= i < j < |looked| ==> looked[i] != looked[j])
  }

  lemma InOrderMore(looked: seq<nat>, start: nat, n: nat, c: nat)
    requires InOrder(looked, start, n) && 2 <= c < n && Dist(start, c, n) == |looked| + 1
    ensures InOrder(looked + [c], start, n) && (looked + [c])[|looked|] == c
  {
  }

  lemma NoneLooked(start: nat, n: nat)
    ensures InOrder([], start, n)
  {
  }

  /** The search loop of create_chain, from the cluster behind scl. looked are the clusters it looks at:
      each once at most, in cyclic order. */
  method FindFree(fs: Fatfs, scl: nat) returns (ncl: nat, ghost looked: seq<nat>)
    requires fs.Valid() && 1 <= scl < fs.g.nFatent
    modifies fs`winsect, fs`wflag, fs.win, fs.disk
    ensures Kept(fs) && fs.View() == old(fs.View())
    ensures ncl == NONE ==> fs.disk.faulted
    ensures ncl != NONE ==> Found(old(fs.Fat()), scl, ncl)
    ensures ncl != NONE ==> fs.winsect == old(fs.winsect) || fs.g.InFat(fs.winsect)
    ensures InOrder(looked, scl, fs.g.nFatent)
    ensures 2 <= ncl < NONE ==> looked != [] && looked[|looked| - 1] == ncl
  {
    hide InOrder, Fatfs.View, Fatfs.Valid, Fatfs.Img, Fatfs.Mirrored, Passed, FirstHit, NoHit;
    var n := fs.g.nFatent;
    NoneLooked(scl, n);
    NonePassed(fs.Fat(), scl);
    ncl := scl;
    looked := [];
    ghost var d := 0;
    ghost var f := fs.Fat();
    while true
      invariant Kept(fs) && fs.View() == old(fs.View())
      invariant 0 <= d <= n - 2 && 1 <= ncl < n
      invariant if d == 0 then ncl == scl else ncl >= 2 && d == Dist(scl, ncl, n)
      invariant d == n - 2 ==> scl == 1
      invariant Passed(f, scl, d)
      invariant |looked| == d && InOrder(looked, scl, n)
      invariant fs.winsect == old(fs.winsect) || fs.g.InFat(fs.winsect)
      decreases n - 2 - d
    {
      ncl := ncl + 1;
      if ncl >= n {
        ncl := 2;
        if ncl > scl {
          AllPassed(f, scl, d);
          return 0, looked;
        }
      }
      OneStep(f, scl, d, ncl);
      d := d + 1;
      InOrderMore(looked, scl, n, ncl);
      looked := looked + [ncl];
      var cs := GetFat(fs, ncl);
      if cs == 0 {
        break;
      }
      if cs == NONE || cs == 1 {
        return cs, looked;
      }
      if ncl == scl {
        AllPassed(f, scl, d);
        return 0, looked;
      }
    }
  }

  /** What create_chain answers and leaves behind when no transfer failed: an illegal start,
      the next cluster of a chain that goes on, or the outcome of the search. */
  ghost predicate Outcome(f: seq<nat>, f': seq<nat>, g: Geometry, clst: nat, start: nat, ncl: nat)
    requires |f| == |f'| == g.nFatent
  {
    if clst != 0 && FatValue(f, clst) < 2 then ncl == 1 && f' == f
    else if clst != 0 && FatValue(f, clst) < |f| then ncl == f[clst] && f' == f
    else Found(f, start, ncl) && f' == if ncl >= 2 then Taken(f, g, clst, ncl) else f
  }

  /** The FSINFO data of a volume: last_clust, free_clust, and the bit of fsi_flag that says they have to
      be written back. */
  datatype Info = Info(last: nat, free: nat, dirty: bool)

  function InfoOf(fs: Fatfs): Info
    reads fs`lastClust, fs`freeClust, fs`fsiDirty
  {
    Info(fs.lastClust, fs.freeClust, fs.fsiDirty)
  }

  /** create_chain behind clst, or for a new chain, takes a free cluster. */
  predicate Takes(f: seq<nat>, clst: nat, ncl: nat) {
    2 <= ncl < NONE && (clst == 0 || (2 <= clst < |f| && f[clst] >= |f|))
  }

  /** The FSINFO data after cluster ncl has been taken: it is where the next search starts, and a known
      count is one less and has to be written back. */
  predicate After(x: Info, y: Info, ncl: nat) {
    && y.last == ncl && y.dirty == (x.dirty || x.free != NONE)
    && y.free == if x.free == NONE then NONE else (x.free - 1) % 0x1_0000_0000
  }

  /** The FSINFO data change exactly if a cluster is taken. */
  predicate Recorded(f: seq<nat>, clst: nat, ncl: nat, x: Info, y: Info) {
    if Takes(f, clst, ncl) then After(x, y, ncl) else y == x
  }

  /** c is the first cluster behind last, in cyclic order, whose entry is zero or 1; behind no cluster,
      the first of all. */
  ghost predicate FirstBehind(f: seq<nat>, last: nat, c: nat) {
    && 2 <= c < |f| && f[c] < 2
    && if 2 <= last < |f| && c <= last then
         (forall d :: last < d < |f| ==> f[d] >= 2) && (forall d :: 2 <= d < c ==> f[d] >= 2)
       else
         forall d :: (if 2 <= last < |f| then last < d else 2 <= d) && d < c ==> f[d] >= 2
  }

  /** The search order in plain terms. */
  lemma FirstHitIs(f: seq<nat>, last: nat, c: nat)
    requires |f| >= 3
    ensures FirstHit(f, StartPoint(last, |f|), c) <==> FirstBehind(f, last, c)
    ensures 2 <= last < |f| ==> (FirstHit(f, last, c) <==> FirstBehind(f, last, c))
  {
    if FirstHit(f, StartPoint(last, |f|), c) {
      forall d | 2 <= d < |f| && f[d] < 2
        ensures Dist(StartPoint(last, |f|), c, |f|) <= Dist(StartPoint(last, |f|), d, |f|)
      {
      }
    }
  }

  /** create_chain. A cluster taken becomes last_clust; the count, if known, is one less and has to be
      written back. In every other case the FSINFO data stay. */
  method CreateChain(fs: Fatfs, clst: nat) returns (ncl: nat)
    requires fs.Valid()
    modifies fs`winsect, fs`wflag, fs`lastClust, fs`freeClust, fs`fsiDirty, fs.win, fs.disk
    ensures Kept(fs) && fs.View() == old(fs.View()).(fat := fs.Fat())
    ensures ncl == NONE ==> fs.disk.faulted
    ensures ncl != NONE ==>
              Outcome(old(fs.Fat()), fs.Fat(), fs.g, clst,
                      if clst == 0 then StartPoint(old(fs.lastClust), fs.g.nFatent) else clst, ncl)
    ensures Recorded(old(fs.Fat()), clst, ncl, old(InfoOf(fs)), InfoOf(fs))
    ensures Takes(old(fs.Fat()), clst, ncl) ==>
              && old(fs.Fat())[ncl] == 0 && fs.Fat()[ncl] != 0
              && FirstBehind(old(fs.Fat()), if clst == 0 then old(fs.lastClust) else clst, ncl)
    ensures ncl != NONE && old(CountOk(fs)) ==> CountOk(fs)
    ensures ncl != NONE ==> fs.winsect == old(fs.winsect) || fs.g.InFat(fs.winsect)
    ensures 2 <= ncl < NONE ==> ncl < fs.g.nFatent && fs.g.InFat(fs.winsect)
    ensures ncl == NONE ==> forall c :: 0 <= c < fs.g.nFatent && c != clst && old(fs.Fat())[c] != 0 ==>
              fs.Fat()[c] == old(fs.Fat())[c]
  {
    hide Fatfs.Valid, Fatfs.View, Fatfs.Img, Fatfs.Mirrored, After, Taken;
    var scl;
    if clst == 0 {
      scl := fs.lastClust;
      if scl == 0 || scl >= fs.g.nFatent {
        scl := 1;
      }
    } else {
      var cs := GetFat(fs, clst);
      if cs < 2 {
        return 1;
      }
      if cs == NONE {
        return cs;
      }
      if cs < fs.g.nFatent {
        return cs;
      }
      scl := clst;
    }
    ghost var looked;
    ghost var f := fs.Fat();
    ncl, looked := FindFree(fs, scl);
    if ncl < 2 || ncl == NONE {
      return;
    }
    FirstHitIs(f, if clst == 0 then fs.lastClust else clst, ncl);
    ncl := Claim(fs, clst, ncl);
    TakenEntry(f, fs.g, clst, ncl);
  }

  lemma TakenEntry(f: seq<nat>, g: Geometry, clst: nat, ncl: nat)
    requires |f| == g.nFatent <= g.Range() - 9
    ensures 2 <= ncl < |f| && clst < |f| && clst != ncl ==> Taken(f, g, clst, ncl)[ncl] != 0
  {
    if 2 <= ncl < |f| {
      ClipCluster(g, ncl);
    }
  }

  /** Two calls: a new chain after a cluster has been taken starts with the first free cluster behind that
      one. f is the table between the calls. */
  method CreateTwice(fs: Fatfs, clst: nat) returns (first: nat, second: nat, ghost f: seq<nat>)
    requires fs.Valid()
    modifies fs`winsect, fs`wflag, fs`lastClust, fs`freeClust, fs`fsiDirty, fs.win, fs.disk
    ensures Kept(fs) && |f| == fs.g.nFatent
    ensures Takes(old(fs.Fat()), clst, first) ==>
              && first < |f| && old(fs.Fat())[first] == 0 && f[first] != 0
              && (forall c :: 0 <= c < |f| && c != first && c != clst ==> f[c] == old(fs.Fat())[c])
              && (second == 0 ==> NoHit(f))
              && (2 <= second < NONE ==> second < |f| && f[second] == 0 && FirstBehind(f, first, second))
  {
    hide Fatfs.Valid, Fatfs.View, Fatfs.Img, Fatfs.Mirrored, FirstBehind, FirstHit;
    first := CreateChain(fs, clst);
    f := fs.Fat();
    second := CreateChain(fs, 0);
  }

  /** The end of create_chain: takes the free cluster it found and updates the FSINFO data. */
  method Claim(fs: Fatfs, clst: nat, free: nat) returns (ncl: nat)
    requires fs.Valid() && 2 <= free < fs.g.nFatent && clst < fs.g.nFatent && clst != 1
    requires fs.Fat()[free] == 0 && (clst != 0 ==> fs.Fat()[clst] != 0)
    modifies fs`winsect, fs`wflag, fs`lastClust, fs`freeClust, fs`fsiDirty, fs.win, fs.disk
    ensures Kept(fs) && fs.View() == old(fs.View()).(fat := fs.Fat())
    ensures ncl == free || (ncl == NONE && fs.disk.faulted)
    ensures ncl == free ==> fs.Fat() == Taken(old(fs.Fat()), fs.g, clst, ncl) && fs.g.InFat(fs.winsect)
    ensures ncl == free && old(CountOk(fs)) ==> CountOk(fs)
    ensures if ncl == NONE then InfoOf(fs) == old(InfoOf(fs)) else After(old(InfoOf(fs)), InfoOf(fs), ncl)
    ensures forall c :: 0 <= c < fs.g.nFatent && c != clst && c != free ==> fs.Fat()[c] == old(fs.Fat())[c]
  {
    hide Fatfs.Valid, Fatfs.View, Fatfs.Img, Fatfs.Mirrored, CountIs, Free;
    ghost var f := fs.Fat();
    var res := Take(fs, clst, free);
    ncl := free;
    if res.FR_OK? {
      TakenCount(f, fs.g, clst, free, fs.freeClust);
      CountTaken(fs, ncl);
    } else {
      // put_fat rejects no cluster here, so the source's other answer, 1, is not reached
      ncl := NONE;
    }
  }

  /** The FSINFO data after a cluster has been taken. */
  method CountTaken(fs: Fatfs, ncl: nat)
    modifies fs`lastClust, fs`freeClust, fs`fsiDirty
    ensures fs.lastClust == ncl
    ensures fs.freeClust == if old(fs.freeClust) == NONE then NONE else Sub32(old(fs.freeClust), 1)
    ensures fs.fsiDirty == (old(fs.fsiDirty) || old(fs.freeClust) != NONE)
  {
    fs.lastClust := ncl;
    if fs.freeClust != NONE {
      fs.freeClust := Sub32(fs.freeClust, 1);
      fs.fsiDirty := true;
    }
  }

  lemma TakenCount(f: seq<nat>, g: Geometry, clst: nat, ncl: nat, freeClust: nat)
    requires |f| == g.nFatent <= g.Range() - 9
    requires 2 <= ncl < |f| && f[ncl] == 0 && clst < |f| && clst != 1 && (clst != 0 ==> f[clst] != 0)
    ensures CountIs(freeClust, f) ==>
              CountIs(if freeClust == NONE then NONE else Sub32(freeClust, 1), Taken(f, g, clst, ncl))
  {
    TakenFree(f, g, clst, ncl);
  }

  lemma TakenFree(f: seq<nat>, g: Geometry, clst: nat, ncl: nat)
    requires |f| == g.nFatent <= g.Range() - 9
    requires 2 <= ncl < |f| && f[ncl] == 0 && clst < |f| && clst != 1 && (clst != 0 ==> f[clst] != 0)
    ensures |Free(f)| >= 1 && |Free(Taken(f, g, clst, ncl))| == |Free(f)| - 1
    ensures |Free(f)| <= |f| - 2
  {
    ClipCluster(g, ncl);
    var f' := f[ncl := g.Clip(LAST_LINK)];
    FreeUpdate(f, ncl, g.Clip(LAST_LINK));
    if clst != 0 {
      FreeUpdate(f', clst, ncl);
    }
    FreeBound(f, |f|);
    assert Free(f) == set c | 2 <= c < |f| && f[c] == 0;
  }

  lemma FreeBound(f: seq<nat>, n: nat)
    requires 2 <= n <= |f|
    ensures |set c | 2 <= c < n && f[c] == 0| <= n - 2
  {
    if n > 2 {
      FreeBound(f, n - 1);
      var a, b := set c | 2 <= c < n - 1 && f[c] == 0, set c | 2 <= c < n && f[c] == 0;
      assert b == if f[n - 1] == 0 then a + {n - 1} else a;
    }
  }

  /** The two entries create_chain writes. */
  method Take(fs: Fatfs, clst: nat, ncl: nat) returns (res: FResult)
    requires fs.Valid() && 2 <= ncl < fs.g.nFatent && clst < fs.g.nFatent && clst != 1
    modifies fs`winsect, fs`wflag, fs.win, fs.disk
    ensures Kept(fs) && fs.View() == old(fs.View()).(fat := fs.Fat())
    ensures res.FR_OK? || (res.FR_DISK_ERR? && fs.disk.faulted)
    ensures res.FR_OK? ==> fs.Fat() == Taken(old(fs.Fat()), fs.g, clst, ncl) && fs.g.InFat(fs.winsect)
    ensures forall c :: 0 <= c < fs.g.nFatent && c != clst && c != ncl ==> fs.Fat()[c] == old(fs.Fat())[c]
  {
    ClipCluster(fs.g, ncl);
    res := PutLink(fs, ncl, LAST_LINK);
    if res.FR_OK? && clst != 0 {
      res := PutLink(fs, clst, ncl);
    }
  }

  /** remove_chain. It stops on every table: each round frees an entry in use. */
  method RemoveChain(fs: Fatfs, clst: nat) returns (res: FResult)
    requires fs.Valid()
    modifies fs`winsect, fs`wflag, fs`freeClust, fs`fsiDirty, fs.win, fs.disk
    ensures Kept(fs) && fs.View() == old(fs.View()).(fat := fs.Fat())
    ensures !(2 <= clst < fs.g.nFatent) ==> res.FR_INT_ERR? && fs.View() == old(fs.View())
    ensures res in {FR_OK, FR_INT_ERR} || (res.FR_DISK_ERR? && fs.disk.faulted)
    ensures 2 <= clst < fs.g.nFatent && !res.FR_DISK_ERR? ==>
              && fs.Fat() == Release(old(fs.Fat()), clst)
              && (res.FR_INT_ERR? <==> ReleaseFails(old(fs.Fat()), clst))
    ensures !res.FR_DISK_ERR? && old(CountOk(fs)) ==> CountOk(fs)
    ensures !res.FR_DISK_ERR? ==>
              fs.fsiDirty == (old(fs.fsiDirty) || (old(fs.freeClust) != NONE && fs.Fat() != old(fs.Fat())))
    ensures old(fs.freeClust) == NONE ==> InfoOf(fs) == old(InfoOf(fs))
    ensures res.FR_OK? ==> fs.g.InFat(fs.winsect)
  {
    hide Fatfs.Valid, Fatfs.View, CountIs, Free, Fatfs.Img, Fatfs.Mirrored;
    if clst < 2 || clst >= fs.g.nFatent {
      return FR_INT_ERR;
    }
    res := FR_OK;
    var c := clst;
    while c < fs.g.nFatent
      invariant res.FR_OK? && 2 <= c
      invariant Kept(fs) && fs.View() == old(fs.View()).(fat := fs.Fat())
      invariant Release(fs.Fat(), c) == Release(old(fs.Fat()), clst)
      invariant ReleaseFails(fs.Fat(), c) == ReleaseFails(old(fs.Fat()), clst)
      invariant old(CountOk(fs)) ==> CountOk(fs)
      invariant fs.fsiDirty == (old(fs.fsiDirty) || (old(fs.freeClust) != NONE && fs.Fat() != old(fs.Fat())))
      invariant old(fs.freeClust) == NONE ==> InfoOf(fs) == old(InfoOf(fs))
      invariant fs.freeClust == NONE && old(fs.freeClust) != NONE ==> fs.fsiDirty
      invariant forall d :: 0 <= d < fs.g.nFatent && old(fs.Fat())[d] == 0 ==> fs.Fat()[d] == 0
      invariant c >= fs.g.nFatent ==> fs.g.InFat(fs.winsect)
      decreases |Used(fs.Fat())|
    {
      ghost var f := fs.Fat();
      var nxt := GetFat(fs, c);
      if nxt == 0 {
        break;
      }
      if nxt == 1 {
        res := FR_INT_ERR;
        break;
      }
      if nxt == NONE {
        res := FR_DISK_ERR;
        break;
      }
      res := FreeOne(fs, c);
      if res != FR_OK {
        break;
      }
      UsedShrinks(f, c);
      c := nxt;
    }
  }

  /** Marks one cluster free and updates the FSINFO data. */
  method FreeOne(fs: Fatfs, c: nat) returns (res: FResult)
    requires fs.Valid() && 2 <= c < fs.g.nFatent && fs.Fat()[c] != 0
    modifies fs`winsect, fs`wflag, fs`freeClust, fs`fsiDirty, fs.win, fs.disk
    ensures Kept(fs) && fs.View() == old(fs.View()).(fat := fs.Fat())
    ensures res.FR_OK? || (res.FR_DISK_ERR? && fs.disk.faulted)
    ensures res.FR_OK? ==> fs.Fat() == old(fs.Fat())[c := 0] && fs.g.InFat(fs.winsect)
    ensures res.FR_OK? && old(CountOk(fs)) ==> CountOk(fs)
    ensures res.FR_OK? ==>
              && fs.freeClust == (if old(fs.freeClust) == NONE then NONE else Add32(old(fs.freeClust), 1))
              && fs.fsiDirty == (old(fs.fsiDirty) || old(fs.freeClust) != NONE)
    ensures !res.FR_OK? ==> InfoOf(fs) == old(InfoOf(fs))
  {
    ghost var f := fs.Fat();
    res := PutLink(fs, c, 0);
    if res.FR_OK? {
      FreedCount(f, c, fs.freeClust);
      CountFreed(fs);
    }
  }

  method CountFreed(fs: Fatfs)
    modifies fs`freeClust, fs`fsiDirty
    ensures fs.freeClust == if old(fs.freeClust) == NONE then NONE else Add32(old(fs.freeClust), 1)
    ensures fs.fsiDirty == (old(fs.fsiDirty) || old(fs.freeClust) != NONE)
  {
    if fs.freeClust != NONE {
      fs.freeClust := Add32(fs.freeClust, 1);
      fs.fsiDirty := true;
    }
  }

  lemma FreedCount(f: seq<nat>, c: nat, freeClust: nat)
    requires 2 <= c < |f| < NONE && f[c] != 0
    ensures CountIs(freeClust, f) ==>
              CountIs(if freeClust == NONE then NONE else Add32(freeClust, 1), f[c := 0])
  {
    FreeUpdate(f, c, 0);
    var f' := f[c := 0];
    FreeBound(f', |f'|);
    assert Free(f') == set d | 2 <= d < |f'| && f'[d] == 0;
  }

  /** create_chain on a table that is a partition into chains: it answers a cluster unless none
      is free, the first free one behind the starting point; the chain grows by exactly this
      cluster at its tail, or a chain of its own is made, and every other chain stays. */
  lemma CreateKeepsPartition(f: seq<nat>, f': seq<nat>, g: Geometry, p: set<seq<nat>>, ch: seq<nat>,
                             start: nat, ncl: nat)
    requires |f| == |f'| == g.nFatent <= g.Range() - 9
    requires Partition(f, p) && Owned(ch) <= p
    requires Outcome(f, f', g, if ch == [] then 0 else ch[|ch| - 1], start, ncl)
    ensures ncl != 1 && (ncl == 0 <==> Free(f) == {})
    ensures ncl == 0 ==> f' == f
    ensures ncl != 0 ==> FirstHit(f, start, ncl) && f[ncl] == 0
                         && Partition(f', p - Owned(ch) + {ch + [ncl]}) && Free(f') == Free(f) - {ncl}
  {
    NoIllegal(f, p);
    SearchRuns(f, ch);
    hide IsChain, Partition;
    if ncl == 0 {
      assert Free(f) == {};
    } else {
      assert FirstHit(f, start, ncl) && f[ncl] == 0;
      assert ncl in Free(f);
      TakenPartition(f, g, p, ch, ncl);
    }
  }

  /** Behind the tail of a chain create_chain searches. */
  lemma SearchRuns(f: seq<nat>, ch: seq<nat>)
    requires ch != [] ==> IsChain(f, ch)
    ensures ch != [] ==> FatValue(f, ch[|ch| - 1]) >= |f|
  {
    if ch != [] {
      LinkAt(f, ch, |ch| - 1);
    }
  }

  lemma TakenPartition(f: seq<nat>, g: Geometry, p: set<seq<nat>>, ch: seq<nat>, ncl: nat)
    requires |f| == g.nFatent <= g.Range() - 9
    requires Partition(f, p) && Owned(ch) <= p && ncl in Free(f)
    ensures ch != [] ==> ch[|ch| - 1] < |f|
    ensures var f' := Taken(f, g, if ch == [] then 0 else ch[|ch| - 1], ncl);
      Partition(f', p - Owned(ch) + {ch + [ncl]}) && Free(f') == Free(f) - {ncl}
  {
    var last, end := if ch == [] then 0 else ch[|ch| - 1], g.Clip(LAST_LINK);
    ClipCluster(g, ncl);
    if ch != [] {
      InUse(f, ch);
      assert last in ch;
      GrowChain(f, p, ch, ncl, end);
    } else {
      NewChain(f, p, ncl, end);
      assert ch + [ncl] == [ncl] && p - {} == p;
    }
    hide IsChain, Partition;
    FreeUpdate(f, ncl, end);
    if ch != [] {
      FreeUpdate(f[ncl := end], last, ncl);
    }
  }

  /** remove_chain on a table that is a partition into chains: exactly the clusters of the chain
      become free, every other chain stays. */
  lemma RemoveKeepsPartition(f: seq<nat>, p: set<seq<nat>>, ch: seq<nat>)
    requires Partition(f, p) && ch in p
    ensures !ReleaseFails(f, ch[0]) && Partition(Release(f, ch[0]), p - {ch})
    ensures Free(Release(f, ch[0])) == Free(f) + set c | c in ch
  {
    ReleaseChain(f, ch);
    DropChain(f, p, ch);
    InUse(f, ch);
  }
}
