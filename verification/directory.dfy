/** Directories: the DIR object, random access to an entry (dir_sdi) and stepping to the next
    one (dir_next), with the stretching of a full table. */
module Directory {
  import opened Bits
  import opened Disk
  import opened Volume
  import opened Window
  import opened FatTable
  import opened Chains
  import opened Allocator
  import opened FileSpace
  import opened FileCursor

  /** Where an entry lies: its cluster (0 in a static table), its sector and the offset of its
      first byte in the sector. */
  datatype Spot = Spot(clust: nat, sect: nat, off: nat)

  /** The number of entries a table has room for: a static root, or the chain ch. */
  function Entries(g: Geometry, ch: seq<nat>): nat {
    if ch == [] then g.nRootdir else 16 * Span(|ch|, g.csize)
  }

  ghost predicate HasPlace(g: Geometry, ch: seq<nat>, i: nat) {
    i < Entries(g, ch) && g.csize > 0 && (ch != [] ==> i / 16 / g.csize < |ch| && ch[i / 16 / g.csize] >= 2)
  }

  /** The place of entry i: 16 entries to a sector, csize sectors to a cluster. */
  ghost function Place(g: Geometry, ch: seq<nat>, i: nat): Spot
    requires HasPlace(g, ch, i)
  {
    if ch == [] then Spot(0, g.dirbase + i / 16, i % 16 * 32)
    else
      var c := ch[i / 16 / g.csize];
      Spot(c, ClusterStart(g, c) + i / 16 % g.csize, i % 16 * 32)
  }

  /** The place of entry i in plain numbers: 32 bytes to an entry, 16 entries to a sector, csize sectors to a
      cluster; cluster 2 is the first on the volume. */
  ghost predicate Stands(g: Geometry, ch: seq<nat>, i: nat, at: Spot) {
    && g.csize > 0 && at.off == i % 16 * 32
    && if ch == [] then i < g.nRootdir && at.clust == 0 && at.sect == g.dirbase + i / 16
       else
         && i / (16 * g.csize) < |ch| && at.clust == ch[i / (16 * g.csize)]
         && at.sect == g.database + (at.clust - 2) * g.csize + i / 16 % g.csize
  }

  lemma PlaceStands(g: Geometry, ch: seq<nat>, i: nat)
    requires HasPlace(g, ch, i)
    ensures Stands(g, ch, i, Place(g, ch, i))
  {
    if ch != [] {
      var k, o := i / 16 / g.csize, i / 16 % g.csize;
      assert i / 16 == g.csize * k + o;
      assert 16 * (g.csize * k) == 16 * g.csize * k;
      RemainderIs(i, 16 * g.csize, k, 16 * o + i % 16);
      SpanIsProduct(ch[k] - 2, g.csize);
    }
  }

  lemma EntriesIs(g: Geometry, ch: seq<nat>)
    ensures Entries(g, ch) == if ch == [] then g.nRootdir else 16 * g.csize * |ch|
  {
    SpanIsProduct(|ch|, g.csize);
    assert 16 * (g.csize * |ch|) == 16 * g.csize * |ch|;
  }

  /** Sector j of a chain is sector o of its k-th cluster. */
  lemma Located(csize: nat, k: nat, o: nat, j: nat)
    requires j == Span(k, csize) + o && o < csize
    ensures j / csize == k && j % csize == o
  {
    SpanIsProduct(k, csize);
    RemainderIs(j, csize, k, o);
  }

  lemma InChain(g: Geometry, ch: seq<nat>, i: nat)
    requires g.csize > 0 && i < Entries(g, ch) && ch != []
    ensures i / 16 / g.csize < |ch|
    ensures i / 16 == Span(i / 16 / g.csize, g.csize) + i / 16 % g.csize
  {
    var k := i / 16 / g.csize;
    SpanIsProduct(k, g.csize);
    SpanIsProduct(|ch|, g.csize);
    assert i / 16 == g.csize * k + i / 16 % g.csize;
    if k >= |ch| {
      MulOrder(k, |ch|, g.csize);
      assert false;
    }
  }

  /** The first cluster of a directory: number 0 names the root directory. */
  function Start(g: Geometry, sclust: nat): nat {
    if sclust == 0 && g.fsType.FAT32? then g.dirbase else sclust
  }

  class Dir {
    const fs: Fatfs
    const sclust: nat
    var index: nat
    var clust: nat
    var sect: nat
    var dir: nat     // offset of the entry in the window
    ghost var chain: seq<nat>

    /** The table is that of a directory on the volume. */
    ghost predicate Valid()
      reads `chain, fs`winsect, fs`wflag, fs.win, fs.disk
    {
      && fs.Valid() && fs.g.nRootdir % 16 == 0
      && (if Start(fs.g, sclust) == 0 then chain == []
          else IsChain(fs.Fat(), chain) && chain[0] == Start(fs.g, sclust))
    }

    /** The object stands at entry i. */
    ghost predicate At(i: nat)
      requires Valid()
      reads `chain, `index, `clust, `sect, `dir, fs`winsect, fs`wflag, fs.win, fs.disk
    {
      && index == i < 0x1_0000 && HasPlace(fs.g, chain, i)
      && Spot(clust, sect, dir) == Place(fs.g, chain, i)
    }

    constructor (volume: Fatfs, start: nat, ghost ch: seq<nat>)
      requires volume.Valid() && volume.g.nRootdir % 16 == 0
      requires if start == 0 && !volume.g.fsType.FAT32? then ch == []
               else IsChain(volume.Fat(), ch) && ch[0] == if start == 0 then volume.g.dirbase else start
      ensures fs == volume && sclust == start && chain == ch && Valid()
    {
      fs, sclust, chain := volume, start, ch;
      index, clust, sect, dir := 0, 0, 0, 0;
    }
  }

  /** What the chain of a directory tells about entry i, in terms of cluster k and sector o. */
  lemma PlaceIs(g: Geometry, f: seq<nat>, ch: seq<nat>, i: nat, k: nat, o: nat)
    requires g.csize > 0 && IsChain(f, ch) && k < |ch| && o < g.csize && i / 16 == Span(k, g.csize) + o
    ensures HasPlace(g, ch, i) && Place(g, ch, i) == Spot(ch[k], ClusterStart(g, ch[k]) + o, i % 16 * 32)
  {
    Located(g.csize, k, o, i / 16);
    SpanMono(k, |ch|, g.csize);
  }

  lemma StaticPlace(g: Geometry, len: nat, i: nat)
    requires g.Fits(len) && i < g.nRootdir
    ensures HasPlace(g, [], i) && Place(g, [], i) == Spot(0, g.dirbase + i / 16, i % 16 * 32) && g.dirbase > 0
  {
  }

  lemma HeadInRange(dp: Dir)
    requires dp.Valid()
    ensures dp.sclust == 0 || 2 <= dp.sclust < dp.fs.g.nFatent
  {
  }

  /** dir_sdi. It finds every entry the table has room for and no other. */
  method DirSdi(dp: Dir, idx: nat) returns (res: FResult)
    requires dp.Valid() && idx < 0x1_0000
    modifies dp`index, dp`clust, dp`sect, dp`dir, dp.fs`winsect, dp.fs`wflag, dp.fs.win, dp.fs.disk
    ensures Kept(dp.fs) && dp.fs.View() == old(dp.fs.View()) && dp.Valid()
    ensures res.FR_OK? ==> dp.At(idx) && Stands(dp.fs.g, dp.chain, idx, Spot(dp.clust, dp.sect, dp.dir))
    ensures res.FR_OK? || res.FR_INT_ERR? || (res.FR_DISK_ERR? && dp.fs.disk.faulted)
    ensures res.FR_INT_ERR? ==> idx >= if dp.chain == [] then dp.fs.g.nRootdir else 16 * dp.fs.g.csize * |dp.chain|
  {
    hide Fatfs.Valid, Fatfs.View, Fatfs.Img, Fatfs.Mirrored, Geometry.Fits, Place, HasPlace, Stands, Entries;
    EntriesIs(dp.fs.g, dp.chain);
    HeadInRange(dp);
    dp.index := idx;
    var clst := dp.sclust;
    if clst == 1 || clst >= dp.fs.g.nFatent {
      return FR_INT_ERR;
    }
    if clst == 0 && dp.fs.g.fsType.FAT32? {
      clst := dp.fs.g.dirbase;
    }
    var sect, rest := 0, idx;
    if clst == 0 {
      if idx >= dp.fs.g.nRootdir {
        return FR_INT_ERR;
      }
      StaticPlace(dp.fs.g, |dp.fs.disk.sectors|, idx);
      sect := dp.fs.g.dirbase;
    } else {
      res, clst, rest := FollowTable(dp, clst, idx);
      if res != FR_OK {
        return;
      }
      sect := Clust2Sect(dp.fs.g, clst);
    }
    dp.clust := clst;
    if sect == 0 {
      return FR_INT_ERR;
    }
    dp.sect := sect + rest / 16;
    dp.dir := rest % 16 * 32;
    PlaceStands(dp.fs.g, dp.chain, idx);
    res := FR_OK;
  }

  /** The root directory, which start cluster 0 names on every FAT type: on FAT32 the chain from the root
      cluster of the boot sector on, else the static table behind the FATs. */
  method SeekRoot(fs: Fatfs, ghost ch: seq<nat>) returns (dp: Dir, res: FResult)
    requires fs.Valid() && fs.g.nRootdir % 16 == 0
    requires if fs.g.fsType.FAT32? then IsChain(fs.Fat(), ch) && ch[0] == fs.g.dirbase else ch == []
    modifies fs`winsect, fs`wflag, fs.win, fs.disk
    ensures Kept(fs) && fs.View() == old(fs.View()) && fresh(dp) && dp.fs == fs && dp.sclust == 0 && dp.Valid()
    ensures !fs.disk.faulted ==> res.FR_OK?
    ensures res.FR_OK? && fs.g.fsType.FAT32? ==>
              dp.clust == fs.g.dirbase && dp.sect == fs.g.database + (fs.g.dirbase - 2) * fs.g.csize && dp.dir == 0
    ensures res.FR_OK? && !fs.g.fsType.FAT32? ==> dp.clust == 0 && dp.sect == fs.g.dirbase && dp.dir == 0
  {
    hide Fatfs.Valid, Fatfs.View, Fatfs.Img, Fatfs.Mirrored, Geometry.Fits, Stands;
    dp := new Dir(fs, 0, ch);
    res := DirSdi(dp, 0);
    FirstEntry(fs.g, |fs.disk.sectors|, ch);
    if res.FR_OK? {
      FirstStands(fs.g, ch, Spot(dp.clust, dp.sect, dp.dir));
    }
  }

  lemma FirstEntry(g: Geometry, len: nat, ch: seq<nat>)
    requires g.Fits(len) && (ch == [] ==> !g.fsType.FAT32?)
    ensures 0 < if ch == [] then g.nRootdir else 16 * g.csize * |ch|
  {
    if ch != [] {
      MulOrder(|ch|, 1, 16 * g.csize);
    }
  }

  lemma FirstStands(g: Geometry, ch: seq<nat>, at: Spot)
    requires Stands(g, ch, 0, at)
    ensures at.off == 0
    ensures if ch == [] then at.clust == 0 && at.sect == g.dirbase
            else at.clust == ch[0] && at.sect == g.database + (ch[0] - 2) * g.csize
  {
    if ch != [] {
      RemainderIs(0, 16 * g.csize, 0, 0);
    }
  }

  /** The loop of dir_sdi along the chain. */
  method FollowTable(dp: Dir, start: nat, idx: nat) returns (res: FResult, clst: nat, rest: nat)
    requires dp.Valid() && start != 0 && start == Start(dp.fs.g, dp.sclust)
    modifies dp.fs`winsect, dp.fs`wflag, dp.fs.win, dp.fs.disk
    ensures Kept(dp.fs) && dp.fs.View() == old(dp.fs.View()) && dp.Valid()
    ensures res.FR_OK? || (res.FR_DISK_ERR? && dp.fs.disk.faulted)
            || (res.FR_INT_ERR? && idx >= Entries(dp.fs.g, dp.chain))
    ensures res.FR_OK? ==> HasPlace(dp.fs.g, dp.chain, idx) && rest % 16 == idx % 16 && Clust2Sect(dp.fs.g, clst) != 0
                           && Place(dp.fs.g, dp.chain, idx)
                              == Spot(clst, Clust2Sect(dp.fs.g, clst) + rest / 16, rest % 16 * 32)
  {
    hide Fatfs.Valid, Fatfs.View, Fatfs.Img, Fatfs.Mirrored, Geometry.Fits, Place, HasPlace;
    ghost var f, ch := dp.fs.Fat(), dp.chain;
    ghost var k := 0;
    var ic := 16 * dp.fs.g.csize;
    res, clst, rest := FR_OK, start, idx;
    while rest >= ic
      invariant Kept(dp.fs) && dp.fs.View() == old(dp.fs.View())
      invariant k < |ch| && clst == ch[k] && idx == 16 * Span(k, dp.fs.g.csize) + rest
    {
      clst := GetFat(dp.fs, clst);
      if clst == NONE {
        return FR_DISK_ERR, clst, rest;
      }
      LinkAt(f, ch, k);
      if clst < 2 || clst >= dp.fs.g.nFatent {
        InUse(f, ch);
        return FR_INT_ERR, clst, rest;
      }
      rest := rest - ic;
      k := k + 1;
    }
    Clust2SectExact(dp.fs.g, |dp.fs.disk.sectors|, clst);
    SixteenTo(idx, Span(k, dp.fs.g.csize), rest);
    PlaceIs(dp.fs.g, f, ch, idx, k, rest / 16);
  }

  lemma SixteenTo(idx: nat, s: nat, rest: nat)
    requires idx == 16 * s + rest
    ensures idx / 16 == s + rest / 16 && idx % 16 == rest % 16
  {
    RemainderIs(idx, 16, s + rest / 16, rest % 16);
  }

  /** A sector of zeros. */
  function Blank(): Sector {
    seq<byte>(512, i => 0)
  }

  /** The second FAT equals the first on the device. */
  ghost predicate Twins(sectors: seq<Sector>, g: Geometry) {
    g.nFats == 2 ==> forall s :: g.InFat(s) && s + g.fsize < |sectors| ==> sectors[s + g.fsize] == sectors[s]
  }

  /** One round of the clearing loop of dir_next: marks the window dirty and writes it. */
  method ClearSector(fs: Fatfs) returns (res: FResult)
    requires fs.g.Fits(|fs.disk.sectors|) && fs.win.Length == SS && fs.win[..] == Blank()
    requires fs.g.FatEnd() <= fs.winsect < |fs.disk.sectors|
    modifies fs`wflag, fs.disk
    ensures fs.Valid() && |fs.disk.sectors| == |old(fs.disk.sectors)|
    ensures res.FR_OK? || (res.FR_DISK_ERR? && fs.disk.faulted)
    ensures res.FR_OK? ==> !fs.wflag && Agree(old(fs.disk.sectors)[fs.winsect := Blank()], fs.disk.sectors, fs.g)
    ensures old(fs.disk.faulted) ==> fs.disk.faulted
    ensures !fs.disk.faulted && Twins(old(fs.disk.sectors), fs.g) ==> Twins(fs.disk.sectors, fs.g)
    ensures !fs.disk.faulted && Twins(old(fs.disk.sectors), fs.g) ==> fs.Mirrored()
  {
    fs.wflag := true;
    res := SyncWindow(fs);
  }

  /** The image with the first c sectors from start on cleared. */
  ghost predicate Cleared(a: seq<Sector>, b: seq<Sector>, g: Geometry, start: nat, c: nat) {
    && |a| == |b|
    && forall s :: 0 <= s < |a| && !g.InMirror(s) ==> b[s] == if start <= s < start + c then Blank() else a[s]
  }

  lemma ClearedView(a: seq<Sector>, b: seq<Sector>, g: Geometry, start: nat)
    requires g.Fits(|a|) && g.FatEnd() <= start && start + g.csize <= |a| && Cleared(a, b, g, start, g.csize)
    ensures ViewOf(b, g)
         == ViewOf(a, g).(body := Splice(ViewOf(a, g).body, start - g.FatEnd(), seq(g.csize, i => Blank())))
  {
    SameFat(a, b, g);
    assert b[..g.fatbase] == a[..g.fatbase];
    assert b[g.FatEnd()..] == Splice(a[g.FatEnd()..], start - g.FatEnd(), seq(g.csize, i => Blank()));
  }

  /** Clears the cluster a directory has been stretched by. */
  method ClearCluster(fs: Fatfs, clst: nat) returns (res: FResult)
    requires fs.Valid() && 2 <= clst < fs.g.nFatent
    modifies fs`winsect, fs`wflag, fs.win, fs.disk
    ensures Kept(fs)
    ensures res.FR_OK? || (res.FR_DISK_ERR? && fs.disk.faulted)
    ensures res.FR_OK? ==>
              && fs.g.FatEnd() <= ClusterStart(fs.g, clst) == fs.winsect
              && fs.g.FatEnd() + |old(fs.View()).body| >= ClusterStart(fs.g, clst) + fs.g.csize
              && fs.View() == old(fs.View()).(body := Splice(old(fs.View()).body, fs.winsect - fs.g.FatEnd(),
                                                             seq(fs.g.csize, i => Blank())))
  {
    Clust2SectExact(fs.g, |fs.disk.sectors|, clst);
    res := SyncWindow(fs);
    if res != FR_OK {
      return FR_DISK_ERR;
    }
    MemSet(fs.win, 0);
    fs.winsect := Clust2Sect(fs.g, clst);
    res := ClearLoop(fs, fs.disk.sectors);
  }

  /** The clearing loop, over the sectors of the cluster from winsect on. */
  method ClearLoop(fs: Fatfs, ghost was: seq<Sector>) returns (res: FResult)
    requires fs.g.Fits(|fs.disk.sectors|) && fs.win.Length == SS && fs.win[..] == Blank() && was == fs.disk.sectors
    requires fs.g.FatEnd() <= fs.winsect && fs.winsect + fs.g.csize <= |was| && !fs.wflag
    modifies fs`winsect, fs`wflag, fs.disk
    ensures fs.Valid() && |fs.disk.sectors| == |was|
    ensures res.FR_OK? || (res.FR_DISK_ERR? && fs.disk.faulted)
    ensures old(fs.disk.faulted) ==> fs.disk.faulted
    ensures !fs.disk.faulted && Twins(was, fs.g) ==> fs.Mirrored()
    ensures res.FR_OK? ==> fs.winsect == old(fs.winsect)
                           && fs.View() == ViewOf(was, fs.g).(body := Splice(ViewOf(was, fs.g).body,
                                              fs.winsect - fs.g.FatEnd(), seq(fs.g.csize, i => Blank())))
  {
    hide Geometry.Fits, ViewOf;
    ghost var start := fs.winsect;
    var c := 0;
    res := FR_OK;
    while c < fs.g.csize
      invariant 0 <= c <= fs.g.csize && fs.winsect == start + c && !fs.wflag && res.FR_OK?
      invariant Cleared(was, fs.disk.sectors, fs.g, start, c)
      invariant old(fs.disk.faulted) ==> fs.disk.faulted
      invariant !fs.disk.faulted && Twins(was, fs.g) ==> Twins(fs.disk.sectors, fs.g)
    {
      res := ClearSector(fs);
      if res != FR_OK {
        return FR_DISK_ERR;
      }
      fs.winsect := fs.winsect + 1;
      c := c + 1;
    }
    fs.winsect := fs.winsect - c;
    ClearedView(was, fs.disk.sectors, fs.g, start);
  }

  /** The view after a directory with the last cluster last has got cluster ncl, cleared. */
  ghost function Stretched(v: View, g: Geometry, last: nat, ncl: nat): View
    requires last < |v.fat| && 2 <= ncl < |v.fat|
    requires g.FatEnd() <= ClusterStart(g, ncl) && ClusterStart(g, ncl) + g.csize <= g.FatEnd() + |v.body|
  {
    v.(fat := Taken(v.fat, g, last, ncl),
       body := Splice(v.body, ClusterStart(g, ncl) - g.FatEnd(), seq(g.csize, i => Blank())))
  }

  /** What the step to the next cluster leaves behind. */
  ghost predicate Continues(g: Geometry, v: View, v': View, ch: seq<nat>, ch': seq<nat>, k: nat, clst: nat,
                            stretch: bool)
    requires |v.fat| == g.nFatent && IsChain(v.fat, ch)
  {
    && k + 1 < |ch'| && ch'[k + 1] == clst && 2 <= clst < |v.fat|
    && if k + 1 < |ch| then ch' == ch && v' == v
       else
         && stretch && ch' == ch + [clst] && v.fat[clst] == 0
         && g.FatEnd() <= ClusterStart(g, clst) && ClusterStart(g, clst) + g.csize <= g.FatEnd() + |v.body|
         && v' == Stretched(v, g, ch[|ch| - 1], clst)
  }

  /** The stretching part of dir_next: a new cluster behind the last one, filled with zeros. */
  method StretchTable(dp: Dir) returns (res: FResult, clst: nat)
    requires dp.Valid() && dp.chain != [] && dp.clust == dp.chain[|dp.chain| - 1]
    modifies dp.fs`winsect, dp.fs`wflag, dp.fs`lastClust, dp.fs`freeClust, dp.fs`fsiDirty, dp.fs.win, dp.fs.disk
    modifies dp`chain
    ensures Kept(dp.fs)
    ensures res.FR_OK? ==> Booked(old(dp.chain), old(InfoOf(dp.fs)), dp.chain, InfoOf(dp.fs))
    ensures res.FR_OK? || (res.FR_DENIED? && NoHit(dp.fs.Fat())) || (res.FR_INT_ERR? && Illegal(dp.fs.Fat()))
            || (res.FR_DISK_ERR? && dp.fs.disk.faulted)
    ensures res.FR_OK? ==>
              && dp.Valid() && (old(CountOk(dp.fs)) ==> CountOk(dp.fs))
              && Continues(dp.fs.g, old(dp.fs.View()), dp.fs.View(), old(dp.chain), dp.chain,
                           |old(dp.chain)| - 1, clst, true)
  {
    hide Fatfs.Valid, Fatfs.View, Fatfs.Img, Fatfs.Mirrored, Geometry.Fits;
    ghost var f, ch := dp.fs.Fat(), dp.chain;
    LinkAt(f, ch, |ch| - 1);
    clst := CreateChain(dp.fs, dp.clust);
    res := FR_OK;
    if clst == 0 {
      return FR_DENIED, clst;
    }
    if clst == 1 {
      return FR_INT_ERR, clst;
    }
    if clst == NONE {
      return FR_DISK_ERR, clst;
    }
    TakenByTable(f, dp.fs.g, ch, clst);
    res := ClearCluster(dp.fs, clst);
    if res.FR_OK? {
      dp.chain := dp.chain + [clst];
    }
  }

  lemma TakenByTable(f: seq<nat>, g: Geometry, ch: seq<nat>, ncl: nat)
    requires |f| == g.nFatent <= g.Range() - 9 && 2 <= ncl < |f| && f[ncl] == 0 && IsChain(f, ch)
    ensures IsChain(Taken(f, g, ch[|ch| - 1], ncl), ch + [ncl]) && (ch + [ncl])[0] == ch[0]
  {
    GrownChain(f, g, ch, ncl);
  }

  /** dir_next on a cluster boundary: the next cluster of the table. */
  method NextTable(dp: Dir, stretch: bool, ghost k: nat) returns (res: FResult, clst: nat)
    requires dp.Valid() && k < |dp.chain| && dp.clust == dp.chain[k]
    modifies dp.fs`winsect, dp.fs`wflag, dp.fs`lastClust, dp.fs`freeClust, dp.fs`fsiDirty, dp.fs.win, dp.fs.disk
    modifies dp`chain
    ensures Kept(dp.fs)
    ensures res.FR_OK? ==> Booked(old(dp.chain), old(InfoOf(dp.fs)), dp.chain, InfoOf(dp.fs))
    ensures res.FR_OK? || (res.FR_INT_ERR? && Illegal(dp.fs.Fat())) || (res.FR_DISK_ERR? && dp.fs.disk.faulted)
            || (res.FR_NO_FILE? && !stretch && k + 1 == |dp.chain| && dp.fs.View() == old(dp.fs.View()))
            || (res.FR_DENIED? && stretch && NoHit(dp.fs.Fat()))
    ensures !stretch ==> dp.chain == old(dp.chain)
    ensures res.FR_OK? ==>
              && dp.Valid() && (old(CountOk(dp.fs)) ==> CountOk(dp.fs))
              && Continues(dp.fs.g, old(dp.fs.View()), dp.fs.View(), old(dp.chain), dp.chain, k, clst, stretch)
  {
    hide Fatfs.Valid, Fatfs.View, Fatfs.Img, Fatfs.Mirrored, Geometry.Fits;
    ghost var f, ch := dp.fs.Fat(), dp.chain;
    LinkAt(f, ch, k);
    InUse(f, ch);
    assert ch[k] in ch;
    clst := GetFat(dp.fs, dp.clust);
    res := FR_OK;
    if clst <= 1 {
      return FR_INT_ERR, clst;
    }
    if clst == NONE {
      return FR_DISK_ERR, clst;
    }
    if clst >= dp.fs.g.nFatent {
      if !stretch {
        return FR_NO_FILE, clst;
      }
      res, clst := StretchTable(dp);
    }
  }

  /** Entry i + 1 in the sector of entry i. */
  lemma StepInSector(g: Geometry, ch: seq<nat>, i: nat)
    requires HasPlace(g, ch, i) && (i + 1) % 16 != 0 && g.nRootdir % 16 == 0
    ensures HasPlace(g, ch, i + 1) && Place(g, ch, i + 1) == Place(g, ch, i).(off := (i + 1) % 16 * 32)
  {
    assert (i + 1) / 16 == i / 16;
  }

  /** Entry i + 1 in the next sector of a static table, if the table goes on. */
  lemma StepInRoot(g: Geometry, i: nat)
    requires HasPlace(g, [], i) && (i + 1) % 16 == 0 && i + 1 < g.nRootdir
    ensures HasPlace(g, [], i + 1) && Place(g, [], i + 1) == Spot(0, Place(g, [], i).sect + 1, 0)
  {
    assert (i + 1) / 16 == i / 16 + 1;
  }

  /** The next sector: in the same cluster, or the first of the next one. */
  lemma StepInChain(g: Geometry, ch: seq<nat>, i: nat) returns (k: nat, o: nat)
    requires ch != [] && HasPlace(g, ch, i) && (i + 1) % 16 == 0 && g.csize in CSIZES
    ensures k == i / 16 / g.csize < |ch| && o == i / 16 % g.csize
    ensures (i + 1) / 16 == Span(k, g.csize) + o + 1
    ensures And((i + 1) / 16, g.csize - 1) == 0 <==> o + 1 == g.csize
  {
    k, o := i / 16 / g.csize, i / 16 % g.csize;
    InChain(g, ch, i);
    assert (i + 1) / 16 == i / 16 + 1;
    MaskCsize((i + 1) / 16, g.csize);
    Boundary(g.csize, k, (i + 1) / 16);
  }

  lemma SectorExists(g: Geometry, len: nat, ch: seq<nat>, i: nat)
    requires g.Fits(len) && HasPlace(g, ch, i)
    ensures Place(g, ch, i).sect > 0
  {
  }

  /** dir_next. A step leads to the place of entry i + 1; without stretching it fails exactly at
      the end of the table, or at the last index an entry can have. */
  method DirNext(dp: Dir, stretch: bool, ghost i: nat) returns (res: FResult)
    requires dp.Valid() && dp.At(i)
    modifies dp`index, dp`clust, dp`sect, dp`dir, dp`chain
    modifies dp.fs`winsect, dp.fs`wflag, dp.fs`lastClust, dp.fs`freeClust, dp.fs`fsiDirty, dp.fs.win, dp.fs.disk
    ensures Kept(dp.fs)
    ensures res.FR_OK? ==> Booked(old(dp.chain), old(InfoOf(dp.fs)), dp.chain, InfoOf(dp.fs))
    ensures res.FR_OK? ==> dp.Valid() && dp.At(i + 1) && (old(CountOk(dp.fs)) ==> CountOk(dp.fs))
    ensures res.FR_OK? ==> if i + 1 < Entries(dp.fs.g, old(dp.chain))
                           then dp.chain == old(dp.chain) && dp.fs.View() == old(dp.fs.View())
                           else stretch && old(dp.chain) != [] && GrewBy(dp, |old(dp.chain)|)
    ensures res in {FR_OK, FR_NO_FILE} || (res.FR_DISK_ERR? && dp.fs.disk.faulted)
            || (res.FR_INT_ERR? && Illegal(dp.fs.Fat())) || (res.FR_DENIED? && stretch && NoHit(dp.fs.Fat()))
    ensures res.FR_NO_FILE? ==> i + 1 == 0x1_0000 || i + 1 == Entries(dp.fs.g, old(dp.chain))
    ensures !stretch ==> dp.chain == old(dp.chain)
  {
    hide Fatfs.Valid, Fatfs.View, Fatfs.Img, Fatfs.Mirrored, Geometry.Fits, Place, HasPlace, Continues;
    SectorExists(dp.fs.g, |dp.fs.disk.sectors|, dp.chain, i);
    var i' := dp.index + 1;
    if i' == 0x1_0000 || dp.sect == 0 {
      return FR_NO_FILE;
    }
    res := FR_OK;
    if i' % 16 == 0 {
      res := NextSector(dp, i', stretch);
      if res != FR_OK {
        return;
      }
    } else {
      StepInSector(dp.fs.g, dp.chain, i);
    }
    dp.index := i';
    dp.dir := i' % 16 * 32;
  }

  /** The directory got one more cluster, which was free and is now filled with zeros. */
  twostate predicate GrewBy(dp: Dir, k: nat)
    requires old(dp.fs.Valid()) && dp.fs.Valid() && old(dp.Valid())
    reads dp`chain, dp.fs`winsect, dp.fs`wflag, dp.fs.win, dp.fs.disk
  {
    && 0 < k == |old(dp.chain)| == |dp.chain| - 1 && dp.chain[..k] == old(dp.chain)
    && Continues(dp.fs.g, old(dp.fs.View()), dp.fs.View(), old(dp.chain), dp.chain, k - 1, dp.chain[k], true)
  }

  /** dir_next behind the last entry of a sector. */
  method NextSector(dp: Dir, i': nat, stretch: bool) returns (res: FResult)
    requires i' > 0 && dp.Valid() && dp.At(i' - 1) && i' % 16 == 0
    modifies dp`clust, dp`sect, dp`chain
    modifies dp.fs`winsect, dp.fs`wflag, dp.fs`lastClust, dp.fs`freeClust, dp.fs`fsiDirty, dp.fs.win, dp.fs.disk
    ensures Kept(dp.fs)
    ensures res.FR_OK? ==> Booked(old(dp.chain), old(InfoOf(dp.fs)), dp.chain, InfoOf(dp.fs))
    ensures res.FR_OK? ==> dp.Valid() && HasPlace(dp.fs.g, dp.chain, i') && (old(CountOk(dp.fs)) ==> CountOk(dp.fs))
    ensures res.FR_OK? ==> Place(dp.fs.g, dp.chain, i') == Spot(dp.clust, dp.sect, 0)
    ensures res.FR_OK? ==> if i' < Entries(dp.fs.g, old(dp.chain))
                           then dp.chain == old(dp.chain) && dp.fs.View() == old(dp.fs.View())
                           else stretch && old(dp.chain) != [] && GrewBy(dp, |old(dp.chain)|)
    ensures res in {FR_OK, FR_NO_FILE} || (res.FR_DISK_ERR? && dp.fs.disk.faulted)
            || (res.FR_INT_ERR? && Illegal(dp.fs.Fat())) || (res.FR_DENIED? && stretch && NoHit(dp.fs.Fat()))
    ensures res.FR_NO_FILE? ==> i' == Entries(dp.fs.g, old(dp.chain))
    ensures !stretch ==> dp.chain == old(dp.chain)
  {
    hide Fatfs.Valid, Fatfs.View, Fatfs.Img, Fatfs.Mirrored, Geometry.Fits;
    ghost var f, ch := dp.fs.Fat(), dp.chain;
    res := FR_OK;
    dp.sect := dp.sect + 1;
    if dp.clust == 0 {
      if i' >= dp.fs.g.nRootdir {
        return FR_NO_FILE;
      }
      StepInRoot(dp.fs.g, i' - 1);
    } else {
      ghost var k, o := StepInChain(dp.fs.g, ch, i' - 1);
      if And(i' / 16, dp.fs.g.csize - 1) == 0 {
        res := EnterNext(dp, i', stretch, k);
      } else {
        PlaceIs(dp.fs.g, f, ch, i', k, o + 1);
      }
    }
  }

  method EnterNext(dp: Dir, ghost i': nat, stretch: bool, ghost k: nat) returns (res: FResult)
    requires dp.Valid() && k < |dp.chain| && dp.clust == dp.chain[k]
    requires i' == 16 * Span(k + 1, dp.fs.g.csize)
    modifies dp`clust, dp`sect, dp`chain
    modifies dp.fs`winsect, dp.fs`wflag, dp.fs`lastClust, dp.fs`freeClust, dp.fs`fsiDirty, dp.fs.win, dp.fs.disk
    ensures Kept(dp.fs)
    ensures res.FR_OK? ==> Booked(old(dp.chain), old(InfoOf(dp.fs)), dp.chain, InfoOf(dp.fs))
    ensures res.FR_OK? ==> dp.Valid() && HasPlace(dp.fs.g, dp.chain, i') && (old(CountOk(dp.fs)) ==> CountOk(dp.fs))
    ensures res.FR_OK? ==> Place(dp.fs.g, dp.chain, i') == Spot(dp.clust, dp.sect, 0)
    ensures res.FR_OK? ==> if i' < Entries(dp.fs.g, old(dp.chain))
                           then dp.chain == old(dp.chain) && dp.fs.View() == old(dp.fs.View())
                           else stretch && GrewBy(dp, |old(dp.chain)|)
    ensures res in {FR_OK, FR_NO_FILE} || (res.FR_DISK_ERR? && dp.fs.disk.faulted)
            || (res.FR_INT_ERR? && Illegal(dp.fs.Fat())) || (res.FR_DENIED? && stretch && NoHit(dp.fs.Fat()))
    ensures res.FR_NO_FILE? ==> i' == Entries(dp.fs.g, old(dp.chain))
    ensures !stretch ==> dp.chain == old(dp.chain)
  {
    hide Fatfs.Valid, Fatfs.View, Fatfs.Img, Fatfs.Mirrored, Geometry.Fits, Place, HasPlace,
         Stretched, IsChain, Illegal, NoHit;
    if k + 1 < |dp.chain| {
      SpanMono(k + 1, |dp.chain|, dp.fs.g.csize);
    }
    var clst;
    res, clst := NextTable(dp, stretch, k);
    if res.FR_OK? {
      dp.clust := clst;
      dp.sect := Clust2Sect(dp.fs.g, clst);
      Clust2SectExact(dp.fs.g, |dp.fs.disk.sectors|, clst);
      PlaceIs(dp.fs.g, dp.fs.Fat(), dp.chain, i', k + 1, 0);
    }
  }

  /** dir_sdi(0) and n steps. */
  method Walk(dp: Dir, n: nat) returns (res: FResult)
    requires dp.Valid() && n < 0x1_0000
    modifies dp`index, dp`clust, dp`sect, dp`dir, dp`chain
    modifies dp.fs`winsect, dp.fs`wflag, dp.fs`lastClust, dp.fs`freeClust, dp.fs`fsiDirty, dp.fs.win, dp.fs.disk
    ensures Kept(dp.fs) && dp.chain == old(dp.chain)
    ensures res.FR_OK? ==> dp.Valid() && dp.At(n) && dp.fs.View() == old(dp.fs.View())
    ensures res.FR_OK? || (res.FR_DISK_ERR? && dp.fs.disk.faulted) || Illegal(dp.fs.Fat())
            || n >= Entries(dp.fs.g, dp.chain)
  {
    hide Fatfs.Valid, Fatfs.View, Fatfs.Img, Fatfs.Mirrored, Geometry.Fits, Place, GrewBy, Illegal;
    res := DirSdi(dp, 0);
    var i := 0;
    while res.FR_OK? && i < n
      invariant i <= n && Kept(dp.fs) && dp.chain == old(dp.chain)
      invariant res.FR_OK? ==> dp.Valid() && dp.At(i) && dp.fs.View() == old(dp.fs.View())
      invariant res.FR_OK? || (res.FR_DISK_ERR? && dp.fs.disk.faulted) || Illegal(dp.fs.Fat())
                || n >= Entries(dp.fs.g, dp.chain)
    {
      res := DirNext(dp, false, i);
      i := i + 1;
    }
  }

  /** Stepping is the same as random access: n steps from the first entry lead to the same
      cluster, sector and offset as dir_sdi(n), and one gets there exactly when the other
      does, which is for the entries the table has room for. */
  method WalkAndSeek(a: Dir, b: Dir, n: nat) returns (ra: FResult, rb: FResult)
    requires a != b && a.fs == b.fs && a.sclust == b.sclust && a.chain == b.chain
    requires a.Valid() && b.Valid() && n < 0x1_0000
    modifies a, b
    modifies a.fs`winsect, a.fs`wflag, a.fs`lastClust, a.fs`freeClust, a.fs`fsiDirty, a.fs.win, a.fs.disk
    ensures Kept(a.fs)
    ensures ra.FR_OK? && rb.FR_OK? ==>
              && a.index == b.index == n && a.clust == b.clust && a.sect == b.sect && a.dir == b.dir
              && Stands(a.fs.g, a.chain, n, Spot(a.clust, a.sect, a.dir))
    ensures !a.fs.disk.faulted && !Illegal(a.fs.Fat()) ==>
              (ra.FR_OK? <==> rb.FR_OK?)
              && (ra.FR_OK? <==> n < if a.chain == [] then a.fs.g.nRootdir else 16 * a.fs.g.csize * |a.chain|)
  {
    hide Fatfs.Valid, Fatfs.View, Fatfs.Img, Fatfs.Mirrored, Geometry.Fits, Place, GrewBy, Illegal, Stands;
    EntriesIs(a.fs.g, a.chain);
    rb := DirSdi(b, n);
    ra := Walk(a, n);
  }
}
