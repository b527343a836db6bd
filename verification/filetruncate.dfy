/** Cutting an open file at its position: f_truncate. */
module FileTruncate {
  import opened Bits
  import opened Disk
  import opened Volume
  import opened FatTable
  import opened Chains
  import opened Allocator
  import opened FileSpace
  import opened FileCursor
  import opened FileIO

  /** How many clusters cover the bytes before the position. */
  function Covering(a: Cursor): nat {
    if a.fptr == 0 then 0 else a.ck + 1
  }

  /** In plain numbers, with clusters of 512 * csize bytes. */
  lemma CoveringIs(a: Cursor)
    requires a.Placed() && a.g.csize > 0
    ensures Covering(a) == (a.fptr + 512 * a.g.csize - 1) / (512 * a.g.csize)
  {
    var n := 512 * a.g.csize;
    if a.fptr == 0 {
      RemainderIs(n - 1, n, 0, n - 1);
    } else {
      SpanIsProduct(a.ck, a.g.csize);
      var j := (a.fptr - 1) / 512;
      assert n * a.ck == 512 * (a.ck * a.g.csize);
      RemainderIs(a.fptr + n - 1, n, a.ck + 1, a.fptr - 1 - n * a.ck);
    }
  }

  /** The table with the clusters behind the position released. A chain that ends there
      already keeps its end mark. */
  ghost function CutFat(a: Cursor): seq<nat>
    requires a.Linked() && a.Placed()
  {
    if a.fptr == 0 then Freed(a.fat, a.chain)
    else if a.ck + 1 < |a.chain| then Cut(a.fat, a.chain, a.ck + 1, a.g.Clip(LAST_LINK))
    else a.fat
  }

  /** The file cut at its position, the buffer written back wherever its sector belongs now. */
  ghost function Truncated(a: Cursor, y: Info): Cursor
    requires a.Linked() && a.Base() && a.Placed()
  {
    var k := Covering(a);
    Flushed(a).(fat := CutFat(a), chain := a.chain[..k], sects := FileSectors(a.g, a.chain[..k]),
                sclust := if k == 0 then 0 else a.sclust, fsize := a.fptr, info := y)
  }

  /** The sectors of a chain's beginning are the beginning of its sectors. */
  lemma {:induction false} SectorsPrefix(g: Geometry, ch: seq<nat>, k: nat)
    requires ValidChain(g, ch) && k <= |ch|
    ensures FileSectors(g, ch[..k]) <= FileSectors(g, ch)
    ensures |FileSectors(g, ch[..k])| == Span(k, g.csize)
    decreases |ch|
  {
    FileSectorsLength(g, ch[..k]);
    if k < |ch| {
      var init := ch[..|ch| - 1];
      assert init[..k] == ch[..k];
      SectorsPrefix(g, init, k);
    } else {
      assert ch[..k] == ch;
    }
  }

  lemma CutTable(a: Cursor)
    requires a.Linked() && a.Placed() && a.fptr < a.fsize <= SS * |a.sects|
    ensures |CutFat(a)| == |a.fat| && Covering(a) <= |a.chain|
    ensures Covering(a) > 0 ==> IsChain(CutFat(a), a.chain[..Covering(a)])
    ensures forall c :: 0 <= c < |a.fat| && c !in a.chain ==> CutFat(a)[c] == a.fat[c]
  {
    var k := Covering(a);
    if k > 0 {
      assert a.chain[k - 1] in a.chain && a.chain[k - 1] < a.g.nFatent;
      if k < |a.chain| {
        ClipCluster(a.g, a.chain[k - 1]);
        CutKeeps(a.fat, a.chain, k, a.g.Clip(LAST_LINK));
        Split(a.chain, k);
      } else {
        assert a.chain[..k] == a.chain;
      }
    }
  }

  /** Nothing outside the file changed. */
  ghost predicate Outside(a: Cursor, b: Cursor) {
    && a.g == b.g && a.margin == b.margin && |a.body| == |b.body| && |a.fat| == |b.fat|
    && (forall c :: 0 <= c < |a.fat| && c !in a.chain ==> b.fat[c] == a.fat[c])
    && (forall s :: a.g.FatEnd() <= s < a.End() && s !in a.sects ==> b.At(s) == a.At(s))
  }

  /** The kept sectors: they cover the position. */
  lemma KeptSectors(a: Cursor)
    requires a.Linked() && a.Placed() && a.fptr < a.fsize
    ensures var b := FileSectors(a.g, a.chain[..Covering(a)]);
      b <= a.sects && a.fptr <= SS * |b| && (a.fptr % SS != 0 ==> a.fptr / SS < |b|)
  {
    SectorsPrefix(a.g, a.chain, Covering(a));
  }

  lemma TruncatedLinked(a: Cursor, y: Info)
    requires a.Linked() && a.Base() && a.Placed() && a.fptr < a.fsize
    ensures Truncated(a, y).Linked() && Truncated(a, y).Laid()
  {
    var k := Covering(a);
    CutTable(a);
    FileSectorsDistinct(a.g, a.End(), a.chain[..k]);
    if k > 0 {
      assert a.chain[..k][0] == a.chain[0];
    }
  }

  lemma TruncatedOutside(a: Cursor, y: Info)
    requires a.Linked() && a.Base() && a.Placed() && a.fptr < a.fsize
    ensures Outside(a, Truncated(a, y))
  {
    hide Cursor.Placed, CutFat, FileSectors;
    CutTable(a);
  }

  /** The cut file is sound and holds exactly the bytes before the position. */
  lemma TruncatedOk(a: Cursor, y: Info)
    requires a.Ok() && a.fptr < a.fsize
    ensures var b := Truncated(a, y); b.Ok() && b.Bytes() == a.Bytes()[..a.fptr] && b.sects <= a.sects
    ensures Outside(a, Truncated(a, y)) && Covering(a) <= |a.chain|
  {
    TruncatedLinked(a, y);
    TruncatedOutside(a, y);
    KeptSectors(a);
    TruncatedBytes(a, Truncated(a, y));
  }

  lemma TruncatedBytes(a: Cursor, b: Cursor)
    requires a.Base() && a.Placed() && a.fptr < a.fsize && b.Laid() && b.sects <= a.sects
    requires a.fptr <= SS * |b.sects| && (a.fptr % SS != 0 ==> a.fptr / SS < |b.sects|)
    requires b == Flushed(a).(fat := b.fat, chain := a.chain[..Covering(a)], sects := b.sects, sclust := b.sclust,
                              fsize := a.fptr, info := b.info)
    ensures b.Base() && b.Placed() && b.Bytes() == a.Bytes()[..a.fptr]
  {
    forall j: nat | j < |b.sects|
      ensures b.SectorAt(j) == a.SectorAt(j)
    {
      assert a.sects[j] == b.sects[j];
    }
    assert b.Bytes() == a.Bytes()[..a.fptr];
  }

  /** The partition into chains after a cut: the file's chain is replaced by its beginning, or
      gone; every other chain stays. */
  lemma TruncatedPartition(a: Cursor, p: set<seq<nat>>)
    requires a.Linked() && a.Placed() && a.fptr < a.fsize <= SS * |a.sects|
    requires Partition(a.fat, p) && a.chain in p
    ensures var k := Covering(a);
      Partition(CutFat(a), p - {a.chain} + if k == 0 then {} else {a.chain[..k]})
  {
    var k := Covering(a);
    if k == 0 {
      DropChain(a.fat, p, a.chain);
      assert p - {a.chain} + {} == p - {a.chain};
    } else if k < |a.chain| {
      ClipCluster(a.g, a.chain[k - 1]);
      CutChain(a.fat, p, a.chain, k, a.g.Clip(LAST_LINK));
    } else {
      assert a.chain[..k] == a.chain;
      assert p - {a.chain} + {a.chain} == p;
    }
  }

  /** Marking a cluster in use as the end of its chain leaves the count of free ones. */
  lemma EndCount(f: seq<nat>, g: Geometry, ch: seq<nat>, k: nat)
    requires |f| == g.nFatent <= g.Range() - 9 && IsChain(f, ch) && k < |ch|
    ensures ch[k] < |f| && |Free(f[ch[k] := g.Clip(LAST_LINK)])| == |Free(f)|
  {
    InUse(f, ch);
    assert ch[k] in ch;
    ClipCluster(g, ch[k]);
    FreeUpdate(f, ch[k], g.Clip(LAST_LINK));
  }

  /** Releases the clusters behind the position, those of a whole chain or of its rest. */
  method CutClusters(fs: Fatfs, fptr: nat, sclust: nat, clust: nat, ghost a: Cursor) returns (res: FResult)
    requires fs.Valid() && a.g == fs.g && a.fat == fs.Fat()
    requires a.Ok() && a.fptr < a.fsize && fptr == a.fptr && sclust == a.sclust && clust == a.clust
    modifies fs`winsect, fs`wflag, fs`freeClust, fs`fsiDirty, fs.win, fs.disk
    ensures Kept(fs) && fs.View() == old(fs.View()).(fat := fs.Fat())
    ensures res.FR_OK? || (res.FR_DISK_ERR? && fs.disk.faulted)
    ensures res.FR_OK? ==> fs.Fat() == CutFat(a) && fs.winsect < fs.g.FatEnd()
    ensures res.FR_OK? && old(CountOk(fs)) ==> CountOk(fs)
    ensures res.FR_OK? ==>
              fs.fsiDirty == (old(fs.fsiDirty) || (old(fs.freeClust) != NONE && fs.Fat() != old(fs.Fat())))
    ensures old(fs.freeClust) == NONE ==> InfoOf(fs) == old(InfoOf(fs))
  {
    hide Fatfs.Valid, Fatfs.View, Fatfs.Img, Fatfs.Mirrored, Geometry.Fits;
    if fptr == 0 {
      ReleaseChain(a.fat, a.chain);
      res := RemoveChain(fs, sclust);
    } else {
      LinkAt(a.fat, a.chain, a.ck);
      var ncl := GetFat(fs, clust);
      res := FR_OK;
      if ncl == NONE {
        res := FR_DISK_ERR;
      }
      if ncl == 1 {
        res := FR_INT_ERR;
      }
      if res.FR_OK? && ncl < fs.g.nFatent {
        res := CutRest(fs, clust, ncl, a);
      }
    }
  }

  lemma CutFreesNext(f: seq<nat>, ch: seq<nat>, k: nat, end: nat)
    requires IsChain(f, ch) && 0 < k < |ch|
    ensures f[ch[k]] != 0 && f[ch[k - 1] := end][ch[k]] != 0 && Cut(f, ch, k, end)[ch[k]] == 0
  {
    InUse(f, ch);
    assert ch[k] in ch && ch[k] in ch[k..];
  }

  /** A cut frees clusters exactly if the chain gets shorter. */
  lemma CutChanges(a: Cursor)
    requires a.Linked() && a.Base() && a.Placed() && a.fptr < a.fsize
    ensures Covering(a) <= |a.chain|
    ensures CutFat(a) != a.fat <==> a.chain[..Covering(a)] != a.chain
  {
    CutTable(a);
    InUse(a.fat, a.chain);
    if a.fptr == 0 {
      assert a.chain[0] in a.chain;
      assert CutFat(a)[a.chain[0]] == 0;
    } else if a.ck + 1 < |a.chain| {
      CutFreesNext(a.fat, a.chain, a.ck + 1, a.g.Clip(LAST_LINK));
    }
  }

  method CutRest(fs: Fatfs, clust: nat, ncl: nat, ghost a: Cursor) returns (res: FResult)
    requires fs.Valid() && a.g == fs.g && a.fat == fs.Fat()
    requires a.Linked() && a.ck + 1 < |a.chain| && clust == a.chain[a.ck] && ncl == a.chain[a.ck + 1]
    modifies fs`winsect, fs`wflag, fs`freeClust, fs`fsiDirty, fs.win, fs.disk
    ensures Kept(fs) && fs.View() == old(fs.View()).(fat := fs.Fat())
    ensures res.FR_OK? || (res.FR_DISK_ERR? && fs.disk.faulted)
    ensures res.FR_OK? ==> fs.Fat() == Cut(a.fat, a.chain, a.ck + 1, a.g.Clip(LAST_LINK)) && fs.winsect < fs.g.FatEnd()
    ensures res.FR_OK? && old(CountOk(fs)) ==> CountOk(fs)
    ensures res.FR_OK? ==>
              fs.fsiDirty == (old(fs.fsiDirty) || (old(fs.freeClust) != NONE && fs.Fat() != old(fs.Fat())))
    ensures old(fs.freeClust) == NONE ==> InfoOf(fs) == old(InfoOf(fs))
  {
    hide Fatfs.Valid, Fatfs.View, Fatfs.Img, Fatfs.Mirrored, Geometry.Fits;
    res := PutLink(fs, clust, LAST_LINK);
    if res.FR_OK? {
      EndCount(a.fat, a.g, a.chain, a.ck);
      ReleaseCut(a.fat, a.chain, a.ck + 1, a.g.Clip(LAST_LINK));
      CutFreesNext(a.fat, a.chain, a.ck + 1, a.g.Clip(LAST_LINK));
      res := RemoveChain(fs, ncl);
    }
  }

  /** The effect of f_truncate: the file ends at the position, its chain is cut to the clusters
      covering it, and nothing outside the file changed. A file that ends at the position
      already is left alone, spare clusters included. */
  twostate predicate CutShort(fp: Fil)
    requires old(fp.Valid())
    reads fp, fp.buf, fp.fs`winsect, fp.fs`wflag, fp.fs`lastClust, fp.fs`freeClust, fp.fs`fsiDirty, fp.fs.win,
          fp.fs.disk
  {
    && fp.Valid() && fp.fptr == fp.fsize == old(fp.fptr)
    && fp.Bytes() == old(fp.Bytes())[..old(fp.fptr)]
    && Outside(old(fp.Cur()), fp.Cur())
    && if old(fp.fptr) < old(fp.fsize) then
         Covering(old(fp.Cur())) <= |old(fp.chain)| && fp.chain == old(fp.chain)[..Covering(old(fp.Cur()))]
         && fp.fs.Fat() == CutFat(old(fp.Cur()))
       else fp.Cur() == old(fp.Cur())
  }

  /** The FSINFO data after f_truncate: a known count has to be written back if clusters were freed. */
  twostate predicate Unbooked(fp: Fil)
    reads fp, fp.fs`lastClust, fp.fs`freeClust, fp.fs`fsiDirty
  {
    && fp.fs.lastClust == old(fp.fs.lastClust)
    && fp.fs.fsiDirty == (old(fp.fs.fsiDirty) || (old(fp.fs.freeClust) != NONE && fp.chain != old(fp.chain)))
    && (old(fp.fs.freeClust) == NONE ==> fp.fs.freeClust == NONE)
  }

  /** f_truncate. Only a failed transfer makes it fail. */
  method FTruncate(fp: Fil) returns (res: FResult)
    requires fp.Ready()
    modifies fp.fs`winsect, fp.fs`wflag, fp.fs`freeClust, fp.fs`fsiDirty, fp.fs.win, fp.fs.disk
    modifies fp`sclust, fp`chain, fp`sects, fp`dirty, fp`fsize, fp`written, fp`err
    ensures Kept(fp.fs) && fp.Ready()
    ensures !old(fp.err).FR_OK? ==> res == old(fp.err)
    ensures old(fp.err).FR_OK? && !fp.writable ==> res.FR_DENIED?
    ensures !old(fp.err).FR_OK? || !fp.writable ==> fp.Cur() == old(fp.Cur())
    ensures old(fp.err).FR_OK? && fp.writable ==>
              fp.err == res && (res.FR_OK? || (res.FR_DISK_ERR? && fp.fs.disk.faulted))
    ensures res.FR_OK? ==> CutShort(fp) && Unbooked(fp) && (old(CountOk(fp.fs)) ==> CountOk(fp.fs))
    ensures fp.written == (old(fp.written) || (old(fp.err).FR_OK? && fp.writable && old(fp.fptr) < old(fp.fsize)))
  {
    hide Fatfs.Valid, Fatfs.View, Fatfs.Img, Fatfs.Mirrored, Fil.Cur, Geometry.Fits;
    ghost var a := fp.Cur();
    res := fp.err;
    if res.FR_OK? && !fp.writable {
      res := FR_DENIED;
    }
    if res.FR_OK? {
      if fp.fsize > fp.fptr {
        fp.written := true;
        res := CutFile(fp);
      } else {
        Untouched(a);
      }
      if res != FR_OK {
        fp.err := res;
      }
    }
  }

  lemma Untouched(a: Cursor)
    requires a.Base() && a.fptr == a.fsize
    ensures a.Bytes() == a.Bytes()[..a.fptr] && Outside(a, a)
  {
  }

  method CutFile(fp: Fil) returns (res: FResult)
    requires fp.Valid() && fp.fptr < fp.fsize
    modifies fp.fs`winsect, fp.fs`wflag, fp.fs`freeClust, fp.fs`fsiDirty, fp.fs.win, fp.fs.disk
    modifies fp`sclust, fp`chain, fp`sects, fp`dirty, fp`fsize
    ensures Kept(fp.fs)
    ensures res.FR_OK? || (res.FR_DISK_ERR? && fp.fs.disk.faulted)
    ensures res.FR_OK? ==> CutShort(fp) && Unbooked(fp) && (old(CountOk(fp.fs)) ==> CountOk(fp.fs))
  {
    hide Fatfs.Valid, Fatfs.View, Fatfs.Img, Fatfs.Mirrored, Fil.Cur, Geometry.Fits,
         Cursor.Linked, Cursor.Placed, CutFat, Outside, Covering;
    ghost var a := fp.Cur();
    TruncatedOk(a, a.info);
    res := CutSpace(fp);
    if res.FR_OK? && fp.dirty {
      var ok := WriteBuf(fp);
      if !ok {
        res := FR_DISK_ERR;
      }
    }
    if res.FR_OK? {
      CutThenFlushed(a, fp.Cur(), InfoOf(fp.fs));
      TruncatedOk(a, InfoOf(fp.fs));
      CutChanges(a);
      Recut(fp, a, InfoOf(fp.fs));
    }
  }

  lemma CutThenFlushed(a: Cursor, d: Cursor, y: Info)
    requires a.Ok() && |CutFat(a)| == |a.fat|
    requires var c := a.(fat := CutFat(a), fsize := a.fptr, sclust := if a.fptr == 0 then 0 else a.sclust, info := y);
      d == if c.dirty then c.(body := c.body[c.dsect - c.g.FatEnd() := c.buf], dirty := false) else c
    ensures d == Truncated(a, y).(chain := a.chain, sects := a.sects)
  {
  }

  /** The file keeps the clusters covering the position. */
  ghost method Recut(fp: Fil, a: Cursor, y: Info)
    requires fp.fs.Valid() && fp.buf != fp.fs.win && fp.fptr < WORD && fp.fsize < WORD
    requires a.Ok() && a.fptr < a.fsize && fp.fs.winsect < fp.fs.g.FatEnd()
    requires fp.Cur() == Truncated(a, y).(chain := a.chain, sects := a.sects)
    modifies fp`chain, fp`sects
    ensures fp.Cur() == Truncated(a, y) && fp.Valid()
  {
    hide Fatfs.Valid, Fatfs.View, Fatfs.Img, Fatfs.Mirrored, Geometry.Fits, Truncated;
    ghost var b := Truncated(a, y);
    TruncatedOk(a, y);
    fp.chain, fp.sects := b.chain, b.sects;
    FatApart(b, fp.fs.winsect);
  }

  /** The new size, the table and the start cluster. */
  method CutSpace(fp: Fil) returns (res: FResult)
    requires fp.Valid() && fp.fptr < fp.fsize
    modifies fp.fs`winsect, fp.fs`wflag, fp.fs`freeClust, fp.fs`fsiDirty, fp.fs.win, fp.fs.disk
    modifies fp`sclust, fp`fsize
    ensures Kept(fp.fs)
    ensures res.FR_OK? || (res.FR_DISK_ERR? && fp.fs.disk.faulted)
    ensures res.FR_OK? ==> fp.fs.winsect < fp.fs.g.FatEnd() && (old(CountOk(fp.fs)) ==> CountOk(fp.fs))
    ensures res.FR_OK? ==>
              fp.fs.fsiDirty
              == (old(fp.fs.fsiDirty) || (old(fp.fs.freeClust) != NONE && CutFat(old(fp.Cur())) != old(fp.fs.Fat())))
    ensures old(fp.fs.freeClust) == NONE ==> InfoOf(fp.fs) == old(InfoOf(fp.fs))
    ensures res.FR_OK? ==> fp.Cur() == old(fp.Cur()).(fat := CutFat(old(fp.Cur())), fsize := fp.fptr,
                                                      sclust := if fp.fptr == 0 then 0 else old(fp.sclust),
                                                      info := InfoOf(fp.fs))
  {
    hide Fatfs.Valid, Fatfs.View, Fatfs.Img, Fatfs.Mirrored, Geometry.Fits, Cursor.Linked, Cursor.Base, Cursor.Placed;
    ghost var a := fp.Cur();
    fp.fsize := fp.fptr;
    res := CutClusters(fp.fs, fp.fptr, fp.sclust, fp.clust, a);
    if fp.fptr == 0 {
      fp.sclust := 0;
    }
  }
}
