/** Open files: the FIL object with its private sector buffer, f_read and f_write. */
module FileIO {
  import opened Bits
  import opened Disk
  import opened Volume
  import opened Window
  import opened FatTable
  import opened Chains
  import opened Allocator
  import opened FileSpace
  import opened FileCursor

  /** A file opened on a mounted volume. */
  class Fil {
    const fs: Fatfs
    const buf: array<byte>
    const readable: bool   // FA_READ
    const writable: bool   // FA_WRITE
    var err: FResult       // abort flag
    var dirty: bool        // FA__DIRTY
    var written: bool      // FA__WRITTEN
    var fptr: nat
    var fsize: nat
    var sclust: nat
    var clust: nat
    var dsect: nat
    ghost var chain: seq<nat>
    ghost var sects: seq<nat>
    ghost var ck: nat

    ghost function Cur(): (c: Cursor)
      requires fs.Valid()
      reads this, buf, fs`winsect, fs`wflag, fs`lastClust, fs`freeClust, fs`fsiDirty, fs.win, fs.disk
      ensures c.g == fs.g && c.fat == fs.Fat() && c.body == fs.View().body
      ensures c.margin == Margin(fs.View().head, fs.View().reserved)
      ensures c.chain == chain && c.sects == sects && c.ck == ck
      ensures c.dirty == dirty && c.dsect == dsect && c.buf == buf[..]
      ensures c.sclust == sclust && c.clust == clust && c.fptr == fptr && c.fsize == fsize && c.info == InfoOf(fs)
    {
      Cursor(fs.g, Margin(fs.View().head, fs.View().reserved), fs.Fat(), fs.View().body, chain, sects, ck,
             dirty, dsect, buf[..], sclust, clust, fptr, fsize, InfoOf(fs))
    }

    /** Holds at every point of an operation: the file is laid out and the volume's window
        holds none of its sectors. */
    ghost predicate Mid()
      reads this, buf, fs`winsect, fs`wflag, fs`lastClust, fs`freeClust, fs`fsiDirty, fs.win, fs.disk
      ensures Mid() ==> fs.Valid() && fptr < WORD && fsize < WORD && Cur().Base()
    {
      && fs.Valid() && buf != fs.win && fptr < WORD && fsize < WORD
      && Cur().Linked() && Cur().Base()
      && fs.winsect !in sects
    }

    ghost predicate Valid()
      reads this, buf, fs`winsect, fs`wflag, fs`lastClust, fs`freeClust, fs`fsiDirty, fs.win, fs.disk
      ensures Valid() ==> Mid() && Cur().Placed() && fptr <= fsize
    {
      Mid() && Cur().Placed() && fptr <= fsize
    }

    /** What a caller may call with: an open file that is sound unless an error stopped it. */
    ghost predicate Ready()
      reads this, buf, fs`winsect, fs`wflag, fs`lastClust, fs`freeClust, fs`fsiDirty, fs.win, fs.disk
    {
      fs.Valid() && buf.Length == SS && buf != fs.win && (err.FR_OK? ==> Valid())
    }

    /** The end of f_open: a file whose directory entry names first cluster start and size
        bytes; ch is the chain that starts there, long enough for the size. */
    constructor (volume: Fatfs, start: nat, size: nat, read: bool, write: bool, ghost ch: seq<nat>)
      requires volume.Valid() && size < WORD
      requires if start == 0 then ch == [] else IsChain(volume.Fat(), ch) && ch[0] == start
      requires size <= SS * Span(|ch|, volume.g.csize)
      requires volume.winsect !in FileSectors(volume.g, ch)
      ensures Valid() && fs == volume && readable == read && writable == write && err.FR_OK?
      ensures fptr == 0 && fsize == size && chain == ch && !dirty && !written && fresh(buf)
      ensures sects == FileSectors(volume.g, ch)
    {
      fs := volume;
      buf := new byte[SS](i => 0);
      readable, writable, err := read, write, FR_OK;
      dirty, written := false, false;
      fptr, fsize, sclust, clust, dsect := 0, size, start, 0, 0;
      chain, ck := ch, 0;
      sects := FileSectors(volume.g, ch);
      new;
      hide *;
      OpenedValid(this);
    }

    /** The contents of the file. */
    ghost function Bytes(): (r: seq<byte>)
      requires Mid()
      reads this, buf, fs`winsect, fs`wflag, fs`lastClust, fs`freeClust, fs`fsiDirty, fs.win, fs.disk
      ensures |r| == fsize
    {
      Cur().Bytes()
    }
  }

  lemma OpenedValid(fp: Fil)
    requires fp.fs.Valid() && fp.buf.Length == SS && fp.buf != fp.fs.win && fp.fsize < WORD && fp.fptr == 0
    requires if fp.sclust == 0 then fp.chain == [] else IsChain(fp.fs.Fat(), fp.chain) && fp.chain[0] == fp.sclust
    requires fp.sects == FileSectors(fp.fs.g, fp.chain) && fp.fsize <= SS * Span(|fp.chain|, fp.fs.g.csize)
    requires fp.fs.winsect !in fp.sects && fp.dsect == 0 && !fp.dirty
    ensures fp.Valid()
  {
    hide Fatfs.Valid, Fatfs.View, Fatfs.Img, Fatfs.Mirrored, Geometry.Fits;
    Opened(fp.Cur());
  }

  /** The chain of a file follows the links of the table from its start cluster. */
  lemma ChainOnDisk(fp: Fil, k: nat)
    requires fp.Valid() && k < |fp.chain|
    ensures 2 <= fp.chain[k] < |fp.fs.Fat()|
    ensures fp.chain[k] == if k == 0 then fp.sclust else fp.fs.Fat()[fp.chain[k - 1]]
    ensures k == |fp.chain| - 1 ==> fp.fs.Fat()[fp.chain[k]] >= |fp.fs.Fat()|
  {
    hide Fatfs.Valid, Fatfs.View, Fil.Cur;
    assert fp.Cur().Linked();
    if k > 0 {
      LinkAt(fp.fs.Fat(), fp.chain, k - 1);
    }
  }

  /** Where byte i of a file is, in plain numbers: in sector i / 512 % csize of its cluster number
      i / (512 * csize), cluster 2 being the first on the volume; or in the file's own buffer, if that holds
      the sector dirty. */
  lemma ByteOnDisk(fp: Fil, i: nat) returns (k: nat, c: nat, s: nat)
    requires fp.Valid() && i < fp.fsize
    ensures fp.fs.g.csize > 0
    ensures k == i / (512 * fp.fs.g.csize) && k < |fp.chain| && c == fp.chain[k] >= 2
    ensures s == fp.fs.g.database + (c - 2) * fp.fs.g.csize + i / 512 % fp.fs.g.csize
    ensures s < |fp.fs.Img()|
    ensures fp.Bytes()[i] == if fp.dirty && fp.dsect == s then fp.buf[i % 512] else fp.fs.Img()[s][i % 512]
  {
    hide Fatfs.Valid, Fatfs.View, Fatfs.Img, Fatfs.Mirrored, Fil.Cur, Geometry.Fits, FileSectors;
    ghost var g, a := fp.fs.g, fp.Cur();
    SectorPlace(g, a.chain, i / 512);
    Nested(i, g.csize);
    k := i / 512 / g.csize;
    c := fp.chain[k];
    s := fp.sects[i / 512];
    BodyOfImg(fp.fs);
    CursorByte(a, i);
  }

  lemma BodyOfImg(fs: Fatfs)
    requires fs.Valid()
    ensures fs.View().body == fs.Img()[fs.g.FatEnd()..] && |fs.Img()| == |fs.disk.sectors|
  {
  }

  lemma CursorByte(a: Cursor, i: nat)
    requires a.Base() && i < a.fsize
    ensures a.g.FatEnd() <= a.sects[i / 512] < a.End()
    ensures a.Bytes()[i] == if a.dirty && a.dsect == a.sects[i / 512] then a.buf[i % 512]
                            else a.body[a.sects[i / 512] - a.g.FatEnd()][i % 512]
  {
    assert a.Bytes()[i] == a.ByteAt(i);
  }

  lemma Nested(i: nat, csize: nat)
    requires csize > 0
    ensures i / (512 * csize) == i / 512 / csize
  {
    var k, o := i / 512 / csize, i / 512 % csize;
    assert i / 512 == csize * k + o;
    assert i == 512 * (csize * k + o) + i % 512;
    assert 512 * (csize * k) == 512 * csize * k;
    RemainderIs(i, 512 * csize, k, 512 * o + i % 512);
  }

  /** Writes sectors behind the FATs, past the window. */
  method WriteData(fs: Fatfs, sect: nat, data: seq<Sector>) returns (ok: bool)
    requires fs.Valid() && fs.g.FatEnd() <= sect && sect + |data| <= |fs.disk.sectors|
    requires !(sect <= fs.winsect < sect + |data|)
    modifies fs.disk
    ensures Kept(fs)
    ensures !ok ==> fs.disk.faulted
    ensures ok ==> fs.View() == old(fs.View()).(body := Splice(old(fs.View().body), sect - fs.g.FatEnd(), data))
  {
    hide Geometry.Fits, Entry, Reserved, FatByte, Splice;
    ghost var img := fs.Img();
    ok := fs.disk.Write(sect, data);
    if ok {
      assert fs.Img() == Splice(img, sect, data);
      SpliceView(img, fs.Img(), fs.g, sect, data);
    }
  }

  lemma SpliceView(a: seq<Sector>, b: seq<Sector>, g: Geometry, sect: nat, data: seq<Sector>)
    requires g.Fits(|a|) && g.FatEnd() <= sect && sect + |data| <= |a|
    requires b == Splice(a, sect, data)
    ensures ViewOf(b, g) == ViewOf(a, g).(body := Splice(ViewOf(a, g).body, sect - g.FatEnd(), data))
  {
    SameFat(a, b, g);
    assert b[..g.fatbase] == a[..g.fatbase];
    assert b[g.FatEnd()..] == Splice(a[g.FatEnd()..], sect - g.FatEnd(), data);
  }

  lemma Tail<T>(s: seq<T>, lo: nat, a: nat, n: nat)
    requires lo <= a && a + n <= |s|
    ensures s[lo..][a - lo..a - lo + n] == s[a..a + n]
    ensures n == 1 ==> s[lo..][a - lo] == s[a..a + n][0]
  {
  }

  lemma SpliceOne<T>(s: seq<T>, k: nat, t: T)
    requires k < |s|
    ensures Splice(s, k, [t]) == s[k := t]
  {
  }

  /** Reads sectors behind the FATs, past the window. */
  method ReadData(fs: Fatfs, sect: nat, n: nat) returns (ok: bool, data: seq<Sector>)
    requires fs.Valid() && fs.g.FatEnd() <= sect
    requires !(sect <= fs.winsect < sect + n)
    modifies fs.disk`faulted
    ensures Kept(fs) && fs.View() == old(fs.View())
    ensures !ok ==> fs.disk.faulted
    ensures |data| == n
    ensures ok ==> sect + n <= |fs.disk.sectors|
                   && data == fs.View().body[sect - fs.g.FatEnd()..sect - fs.g.FatEnd() + n]
    ensures ok && n == 1 ==> data[0] == fs.View().body[sect - fs.g.FatEnd()]
  {
    ok, data := fs.disk.Read(sect, n);
    if ok {
      Tail(fs.Img(), fs.g.FatEnd(), sect, n);
      assert data == fs.Img()[sect..sect + n];
    }
  }

  /** Writes a dirty sector buffer back. */
  method FlushBuf(fp: Fil) returns (ok: bool)
    requires fp.Mid()
    modifies fp`dirty, fp.fs.disk
    ensures Kept(fp.fs)
    ensures !ok ==> fp.fs.disk.faulted
    ensures ok ==> fp.Mid() && !fp.dirty && Step(old(fp.Cur()), fp.Cur()) && fp.Cur() == Flushed(old(fp.Cur()))
  {
    hide Fatfs.Valid, Fatfs.View, Fatfs.Img, Fatfs.Mirrored, Fil.Cur, Geometry.Fits;
    ghost var a := fp.Cur();
    ok := true;
    if fp.dirty {
      ok := WriteBuf(fp);
      if ok {
        Flush(a, fp.Cur());
      }
    }
  }

  method WriteBuf(fp: Fil) returns (ok: bool)
    requires fp.fs.Valid() && fp.buf.Length == SS && fp.dirty
    requires fp.fs.g.FatEnd() <= fp.dsect < |fp.fs.disk.sectors| && fp.dsect != fp.fs.winsect
    modifies fp`dirty, fp.fs.disk
    ensures Kept(fp.fs)
    ensures !ok ==> fp.fs.disk.faulted
    ensures ok ==> fp.Cur() == old(fp.Cur()).(body := old(fp.Cur()).body[fp.dsect - fp.fs.g.FatEnd() := fp.buf[..]],
                                              dirty := false)
  {
    hide Fatfs.Valid, Fatfs.View, Fatfs.Img, Fatfs.Mirrored, Geometry.Fits, Splice;
    SpliceOne(fp.fs.View().body, fp.dsect - fp.fs.g.FatEnd(), fp.buf[..]);
    ok := WriteData(fp.fs, fp.dsect, [fp.buf[..]]);
    if ok {
      fp.dirty := false;
    }
  }

  /** Fills a clean sector buffer with sector j of the file. */
  method FillBuf(fp: Fil, sect: nat, ghost j: nat) returns (ok: bool)
    requires fp.Mid() && !fp.dirty && j < |fp.sects| && sect == fp.sects[j]
    modifies fp`dsect, fp.buf, fp.fs.disk`faulted
    ensures Kept(fp.fs) && fp.fs.View() == old(fp.fs.View())
    ensures !ok ==> fp.fs.disk.faulted
    ensures ok ==> fp.Mid() && Step(old(fp.Cur()), fp.Cur())
                   && fp.Cur() == old(fp.Cur()).(dsect := sect, buf := old(fp.Cur()).At(sect))
  {
    hide Fatfs.Valid, Fatfs.View, Fatfs.Img, Fatfs.Mirrored, Fil.Cur, Geometry.Fits;
    ghost var a := fp.Cur();
    ok := ReadBuf(fp, sect);
    if ok {
      Load(a, fp.Cur(), j);
    }
  }

  method ReadBuf(fp: Fil, sect: nat) returns (ok: bool)
    requires fp.fs.Valid() && fp.buf.Length == SS && fp.buf != fp.fs.win
    requires fp.fs.g.FatEnd() <= sect != fp.fs.winsect
    modifies fp`dsect, fp.buf, fp.fs.disk`faulted
    ensures Kept(fp.fs) && fp.fs.View() == old(fp.fs.View())
    ensures !ok ==> fp.fs.disk.faulted
    ensures ok ==> sect < |fp.fs.disk.sectors|
                   && fp.Cur() == old(fp.Cur()).(dsect := sect, buf := old(fp.fs.View().body)[sect - fp.fs.g.FatEnd()])
  {
    var data;
    ok, data := ReadData(fp.fs, sect, 1);
    CopySector(fp.buf, data[0]);
    if ok {
      fp.dsect := sect;
    }
  }

  /** create_chain behind cluster clst of the file, or for a file without clusters. */
  method Stretch(fp: Fil, clst: nat, ghost k: nat) returns (ncl: nat)
    requires fp.Mid() && StretchFrom(fp.Cur(), clst) && k == NextIndex(fp.Cur(), clst)
    modifies fp.fs`winsect, fp.fs`wflag, fp.fs`lastClust, fp.fs`freeClust, fp.fs`fsiDirty, fp.fs.win, fp.fs.disk
    modifies fp`sclust, fp`chain, fp`sects
    ensures Kept(fp.fs)
    ensures ncl <= NONE && (ncl == NONE ==> fp.fs.disk.faulted)
    ensures ncl != NONE ==> fp.Mid() && (old(CountOk(fp.fs)) ==> CountOk(fp.fs))
    ensures ncl < 2 ==> fp.Cur() == old(fp.Cur())
    ensures ncl == 0 ==> NoHit(fp.fs.Fat()) && k == |fp.chain|
    ensures ncl == 1 ==> Illegal(fp.fs.Fat())
    ensures 2 <= ncl < NONE ==>
              && Step(old(fp.Cur()), fp.Cur())
              && NextIs(fp.Cur(), k, ncl)
              && fp.Cur() == old(fp.Cur()).(fat := fp.fs.Fat(), sclust := fp.sclust, chain := fp.chain,
                                            sects := fp.sects, info := InfoOf(fp.fs))
  {
    hide Fatfs.Valid, Fatfs.View, Fatfs.Img, Fatfs.Mirrored, Fil.Cur, Geometry.Fits;
    ghost var a := fp.Cur();
    ghost var start;
    ncl, start := CreateFor(fp, clst);
    if ncl == NONE {
      return;
    }
    FatApart(a, fp.fs.winsect);
    if ncl < 2 {
      StretchNone(a, fp.fs.Fat(), start, clst, ncl);
      return;
    }
    Adopt(fp, a, start, clst, ncl);
  }

  /** The file takes the cluster create_chain answered as its next one. */
  method Adopt(fp: Fil, ghost a: Cursor, ghost start: nat, ghost clst: nat, ncl: nat)
    requires fp.fs.Valid() && fp.buf != fp.fs.win && fp.fptr < WORD && fp.fsize < WORD
    requires a.Linked() && a.Base() && StretchFrom(a, clst)
    requires fp.Cur() == a.(fat := fp.fs.Fat(), info := InfoOf(fp.fs))
    requires Recorded(a.fat, clst, ncl, a.info, InfoOf(fp.fs))
    requires 2 <= ncl < fp.fs.g.nFatent && fp.fs.winsect < fp.fs.g.FatEnd()
    requires Outcome(a.fat, fp.fs.Fat(), a.g, clst, start, ncl)
    modifies fp`sclust, fp`chain, fp`sects
    ensures fp.Mid() && Step(a, fp.Cur()) && NextIs(fp.Cur(), NextIndex(a, clst), ncl)
    ensures fp.Cur() == a.(fat := fp.fs.Fat(), sclust := fp.sclust, chain := fp.chain, sects := fp.sects,
                           info := InfoOf(fp.fs))
  {
    hide Fatfs.Valid, Fatfs.View, Fatfs.Img, Fatfs.Mirrored, Geometry.Fits, Fil.Cur, Frame, SameSectors, Outcome,
         NextIs, NextIndex;
    ghost var b := if clst != 0 && a.ck + 1 < |a.chain| then a else Grown(a, ncl, InfoOf(fp.fs));
    SameInfo(a, clst, ncl, InfoOf(fp.fs));
    StretchedOk(a, b, fp.fs.Fat(), start, clst, ncl);
    SetChain(fp, b.chain, b.sects, ncl);
    assert fp.Cur() == b;
    FatApart(b, fp.fs.winsect);
  }

  /** Going on to a cluster the file has already leaves the FSINFO data alone. */
  lemma SameInfo(a: Cursor, clst: nat, ncl: nat, y: Info)
    requires a.Linked() && StretchFrom(a, clst) && Recorded(a.fat, clst, ncl, a.info, y)
    ensures clst != 0 && a.ck + 1 < |a.chain| ==> y == a.info
  {
    if clst != 0 {
      LinkAt(a.fat, a.chain, a.ck);
    }
  }

  /** create_chain as the file sees it: only the table and the FSINFO data change. */
  method CreateFor(fp: Fil, clst: nat) returns (ncl: nat, ghost start: nat)
    requires fp.fs.Valid() && fp.buf != fp.fs.win
    modifies fp.fs`winsect, fp.fs`wflag, fp.fs`lastClust, fp.fs`freeClust, fp.fs`fsiDirty, fp.fs.win, fp.fs.disk
    ensures Kept(fp.fs)
    ensures ncl == NONE ==> fp.fs.disk.faulted
    ensures ncl == NONE || ncl < fp.fs.g.Range()
    ensures fp.Cur() == old(fp.Cur()).(fat := fp.fs.Fat(), info := InfoOf(fp.fs))
    ensures Recorded(old(fp.fs.Fat()), clst, ncl, old(InfoOf(fp.fs)), InfoOf(fp.fs))
    ensures ncl != NONE ==>
              && Outcome(old(fp.fs.Fat()), fp.fs.Fat(), fp.fs.g, clst, start, ncl)
              && (ncl >= 2 ==> ncl < fp.fs.g.nFatent && fp.fs.winsect < fp.fs.g.FatEnd())
              && (fp.fs.winsect == old(fp.fs.winsect) || fp.fs.winsect < fp.fs.g.FatEnd())
              && (old(CountOk(fp.fs)) ==> CountOk(fp.fs))
  {
    start := if clst == 0 then StartPoint(fp.fs.lastClust, fp.fs.g.nFatent) else clst;
    ncl := CreateChain(fp.fs, clst);
  }

  /** Sets the start cluster on the first allocation. */
  method SetChain(fp: Fil, ghost chain: seq<nat>, ghost sects: seq<nat>, ncl: nat)
    requires fp.fs.Valid()
    modifies fp`sclust, fp`chain, fp`sects
    ensures fp.Cur() == old(fp.Cur()).(chain := chain, sects := sects,
                                       sclust := if old(fp.sclust) == 0 then ncl else old(fp.sclust))
  {
    fp.chain, fp.sects := chain, sects;
    if fp.sclust == 0 {
      fp.sclust := ncl;
    }
  }

  /** f_write on a cluster boundary: finds the cluster of the byte at fptr, allocating it if
      the chain ends there. */
  method ClusterForWrite(fp: Fil) returns (res: FResult, full: bool)
    requires fp.Mid() && fp.Cur().Placed() && fp.fptr % SS == 0 && Csect(fp.fptr, fp.fs.g.csize) == 0
    modifies fp.fs`winsect, fp.fs`wflag, fp.fs`lastClust, fp.fs`freeClust, fp.fs`fsiDirty, fp.fs.win, fp.fs.disk
    modifies fp`sclust, fp`chain, fp`sects, fp`clust, fp`ck
    ensures Kept(fp.fs)
    ensures res.FR_OK? || (res.FR_DISK_ERR? && fp.fs.disk.faulted) || (res.FR_INT_ERR? && Illegal(fp.fs.Fat()))
    ensures res.FR_OK? ==> fp.Mid() && Step(old(fp.Cur()), fp.Cur()) && (old(CountOk(fp.fs)) ==> CountOk(fp.fs))
    ensures res.FR_OK? && full ==> fp.Cur() == old(fp.Cur()) && NoHit(fp.fs.Fat())
    ensures res.FR_OK? && !full ==> Settled(fp.Cur()) && fp.fptr == SS * Span(fp.ck, fp.fs.g.csize)
  {
    hide Fatfs.Valid, Fatfs.View, Fatfs.Img, Fatfs.Mirrored, Fil.Cur, Geometry.Fits, Frame, SameSectors;
    ghost var a := fp.Cur();
    SelfMoved(a);
    ghost var k;
    var clst;
    clst, k := PickForWrite(fp);
    res, full := FR_OK, clst == 0;
    if clst == 1 {
      res := FR_INT_ERR;
    } else if clst == NONE {
      res := FR_DISK_ERR;
    } else if !full {
      ghost var b := fp.Cur();
      EnterCluster(fp, clst, k);
      StepTransitive(a, b, fp.Cur());
    }
  }

  method EnterCluster(fp: Fil, clst: nat, ghost k: nat)
    requires fp.Mid() && NextIs(fp.Cur(), k, clst) && fp.fptr == SS * Span(k, fp.fs.g.csize)
    modifies fp`clust, fp`ck
    ensures fp.Mid() && Step(old(fp.Cur()), fp.Cur()) && Settled(fp.Cur())
    ensures fp.Cur() == old(fp.Cur()).(clust := clst, ck := k)
  {
    hide Fatfs.Valid, Fatfs.View, Fatfs.Img, Fatfs.Mirrored, Fil.Cur, Geometry.Fits;
    ghost var b := fp.Cur();
    fp.clust, fp.ck := clst, k;
    Enter(b, fp.Cur(), k, clst);
  }

  /** The cluster f_write goes on in, on a cluster boundary: 0 when the volume is full, 1 or
      NONE on an error. It is the k-th of the file. */
  method PickForWrite(fp: Fil) returns (clst: nat, ghost k: nat)
    requires fp.Mid() && fp.Cur().Placed() && fp.fptr % SS == 0 && Csect(fp.fptr, fp.fs.g.csize) == 0
    modifies fp.fs`winsect, fp.fs`wflag, fp.fs`lastClust, fp.fs`freeClust, fp.fs`fsiDirty, fp.fs.win, fp.fs.disk
    modifies fp`sclust, fp`chain, fp`sects
    ensures Kept(fp.fs)
    ensures clst <= NONE && (clst == NONE ==> fp.fs.disk.faulted)
    ensures clst != NONE ==> fp.Mid() && (old(CountOk(fp.fs)) ==> CountOk(fp.fs))
    ensures clst < 2 ==> fp.Cur() == old(fp.Cur())
    ensures clst == 0 ==> NoHit(fp.fs.Fat())
    ensures clst == 1 ==> Illegal(fp.fs.Fat())
    ensures 2 <= clst < NONE ==> Step(old(fp.Cur()), fp.Cur()) && NextIs(fp.Cur(), k, clst)
    ensures fp.fptr == SS * Span(k, fp.fs.g.csize)
  {
    hide Fatfs.Valid, Fatfs.View, Fatfs.Img, Fatfs.Mirrored, Fil.Cur, Geometry.Fits;
    ghost var a := fp.Cur();
    k := 0;
    if fp.fptr == 0 && fp.sclust != 0 {
      First(a);
      return fp.sclust, 0;
    }
    var from := 0;
    if fp.fptr > 0 {
      Cross(a);
      from, k := fp.clust, fp.ck + 1;
    }
    clst := Stretch(fp, from, k);
  }

  /** f_write on a sector boundary: finds the cluster, writes the dirty buffer back and
      computes the sector of the byte at fptr. */
  method SectorForWrite(fp: Fil) returns (res: FResult, full: bool, sect: nat)
    requires fp.Mid() && fp.Cur().Placed() && fp.fptr % SS == 0
    modifies fp.fs`winsect, fp.fs`wflag, fp.fs`lastClust, fp.fs`freeClust, fp.fs`fsiDirty, fp.fs.win, fp.fs.disk
    modifies fp`sclust, fp`chain, fp`sects, fp`clust, fp`ck, fp`dirty
    ensures Kept(fp.fs)
    ensures res.FR_OK? || (res.FR_DISK_ERR? && fp.fs.disk.faulted) || (res.FR_INT_ERR? && Illegal(fp.fs.Fat()))
    ensures res.FR_OK? ==> fp.Mid() && Step(old(fp.Cur()), fp.Cur()) && (old(CountOk(fp.fs)) ==> CountOk(fp.fs))
    ensures res.FR_OK? && full ==> fp.Cur() == old(fp.Cur()) && NoHit(fp.fs.Fat())
    ensures res.FR_OK? && !full ==> Settled(fp.Cur()) && !fp.dirty && sect == fp.sects[fp.fptr / SS]
                                    && fp.fptr / SS == Span(fp.ck, fp.fs.g.csize) + Csect(fp.fptr, fp.fs.g.csize)
  {
    hide Fatfs.Valid, Fatfs.View, Fatfs.Img, Fatfs.Mirrored, Fil.Cur, Geometry.Fits, Frame, SameSectors;
    ghost var a := fp.Cur();
    sect := 0;
    var csect := Csect(fp.fptr, fp.fs.g.csize);
    res, full := SameOrNextCluster(fp, csect);
    if res.FR_OK? && !full {
      ghost var b := fp.Cur();
      res, sect := FlushAndLocate(fp, csect);
      if res.FR_OK? {
        StepTransitive(a, b, fp.Cur());
      }
    }
  }

  method FlushAndLocate(fp: Fil, csect: nat) returns (res: FResult, sect: nat)
    requires fp.Mid() && Settled(fp.Cur()) && fp.fptr % SS == 0
    requires fp.fptr / SS == Span(fp.ck, fp.fs.g.csize) + csect
    modifies fp`dirty, fp.fs.disk
    ensures Kept(fp.fs)
    ensures res.FR_OK? || (res.FR_DISK_ERR? && fp.fs.disk.faulted)
    ensures res.FR_OK? ==> fp.Mid() && fp.Cur() == Flushed(old(fp.Cur())) && Step(old(fp.Cur()), fp.Cur())
                           && Settled(fp.Cur()) && sect == fp.sects[fp.fptr / SS]
  {
    hide Fatfs.Valid, Fatfs.View, Fatfs.Img, Fatfs.Mirrored, Fil.Cur, Geometry.Fits;
    res, sect := FR_OK, 0;
    var ok := FlushBuf(fp);
    if !ok {
      res := FR_DISK_ERR;
      return;
    }
    SectorOfCluster(fp.Cur());
    sect := Clust2Sect(fp.fs.g, fp.clust);
    if sect == 0 {
      res := FR_INT_ERR;
      return;
    }
    sect := sect + csect;
  }

  method SameOrNextCluster(fp: Fil, csect: nat) returns (res: FResult, full: bool)
    requires fp.Mid() && fp.Cur().Placed() && fp.fptr % SS == 0 && csect == Csect(fp.fptr, fp.fs.g.csize)
    modifies fp.fs`winsect, fp.fs`wflag, fp.fs`lastClust, fp.fs`freeClust, fp.fs`fsiDirty, fp.fs.win, fp.fs.disk
    modifies fp`sclust, fp`chain, fp`sects, fp`clust, fp`ck
    ensures Kept(fp.fs)
    ensures res.FR_OK? || (res.FR_DISK_ERR? && fp.fs.disk.faulted) || (res.FR_INT_ERR? && Illegal(fp.fs.Fat()))
    ensures res.FR_OK? ==> fp.Mid() && Step(old(fp.Cur()), fp.Cur()) && (old(CountOk(fp.fs)) ==> CountOk(fp.fs))
    ensures res.FR_OK? && full ==> fp.Cur() == old(fp.Cur()) && NoHit(fp.fs.Fat())
    ensures res.FR_OK? && !full ==> Settled(fp.Cur()) && fp.fptr / SS == Span(fp.ck, fp.fs.g.csize) + csect
  {
    hide Fatfs.Valid, Fatfs.View, Fatfs.Img, Fatfs.Mirrored, Fil.Cur, Geometry.Fits;
    if csect == 0 {
      res, full := ClusterForWrite(fp);
    } else {
      Stay(fp.Cur());
      res, full := FR_OK, false;
    }
  }

  /** The direct transfer of f_write: cc whole sectors of w, inside the cluster. The buffer
      is refilled if its sector was overwritten. */
  method WriteDirect(fp: Fil, sect: nat, w: seq<byte>, cc: nat) returns (ok: bool)
    requires fp.Mid() && Settled(fp.Cur()) && !fp.dirty && fp.fptr % SS == 0 && sect == fp.sects[fp.fptr / SS]
    requires 0 < cc && SS * cc <= |w| && fp.fptr + |w| < WORD
    requires fp.fptr / SS + cc <= Span(fp.ck, fp.fs.g.csize) + fp.fs.g.csize
    modifies fp`fptr, fp.buf, fp.fs.disk
    ensures Kept(fp.fs)
    ensures !ok ==> fp.fs.disk.faulted
    ensures ok ==> fp.Mid() && fp.Cur().Placed() && Chunk(old(fp.Cur()), fp.Cur(), w[..SS * cc])
                   && fp.fs.Fat() == old(fp.fs.Fat())
  {
    hide Fatfs.Valid, Fatfs.View, Fatfs.Img, Fatfs.Mirrored, Fil.Cur, Geometry.Fits;
    ghost var a := fp.Cur();
    RestOfCluster(a, fp.fs.winsect, cc);
    ok := WriteRun(fp, sect, ToSectors(w, cc));
    if ok {
      ToSectorsFlat(w, cc);
      DirectChunk(a, fp.Cur(), ToSectors(w, cc), w[..SS * cc]);
    }
  }

  /** A copy of a whole sector. */
  method CopySector(buf: array<byte>, s: Sector)
    requires buf.Length == SS
    modifies buf
    ensures buf[..] == s
  {
    MemCpy(buf, 0, s);
  }

  /** disk_write of whole sectors, the refill of the sector buffer and the new position. */
  method WriteRun(fp: Fil, sect: nat, data: seq<Sector>) returns (ok: bool)
    requires fp.fs.Valid() && fp.buf.Length == SS && fp.buf != fp.fs.win && fp.dsect < WORD
    requires fp.fs.g.FatEnd() <= sect && sect + |data| <= |fp.fs.disk.sectors|
    requires !(sect <= fp.fs.winsect < sect + |data|)
    modifies fp`fptr, fp.buf, fp.fs.disk
    ensures Kept(fp.fs)
    ensures !ok ==> fp.fs.disk.faulted
    ensures ok ==> fp.Cur() == WrittenAt(old(fp.Cur()), sect, data)
  {
    hide Fatfs.Valid, Fatfs.View, Fatfs.Img, Fatfs.Mirrored, Geometry.Fits, Splice, Sub32, FlatBytes;
    ghost var a := fp.Cur();
    RangeTest(fp.dsect, sect, |data|);
    ok := WriteData(fp.fs, sect, data);
    if ok {
      if Sub32(fp.dsect, sect) < |data| {
        CopySector(fp.buf, data[fp.dsect - sect]);
      }
      assert fp.buf[..] == if sect <= fp.dsect < sect + |data| then data[fp.dsect - sect] else a.buf;
      fp.fptr := fp.fptr + SS * |data|;
    }
  }

  /** The partial transfer of f_write into the sector buffer. */
  method WritePartial(fp: Fil, sect: nat, d: seq<byte>)
    requires fp.Mid() && Settled(fp.Cur()) && sect == fp.sects[fp.fptr / SS]
    requires 0 < |d| && fp.fptr % SS + |d| <= SS && fp.fptr + |d| < WORD
    requires fp.dsect == sect || (!fp.dirty && fp.fptr % SS == 0 && fp.fptr >= fp.fsize)
    modifies fp`dsect, fp`dirty, fp`fptr, fp.buf
    ensures Kept(fp.fs) && fp.fs.View() == old(fp.fs.View())
    ensures fp.Mid() && fp.Cur().Placed() && Chunk(old(fp.Cur()), fp.Cur(), d)
  {
    hide Fatfs.Valid, Fatfs.View, Fatfs.Img, Fatfs.Mirrored, Fil.Cur, Geometry.Fits;
    ghost var a := fp.Cur();
    PatchBuf(fp, sect, d);
    PatchChunk(a, fp.Cur(), d);
  }

  method PatchBuf(fp: Fil, sect: nat, d: seq<byte>)
    requires fp.fs.Valid() && fp.buf.Length == SS && fp.buf != fp.fs.win && fp.fptr % SS + |d| <= SS
    modifies fp`dsect, fp`dirty, fp`fptr, fp.buf
    ensures Kept(fp.fs) && fp.fs.View() == old(fp.fs.View())
    ensures fp.Cur() == old(fp.Cur()).(dsect := sect, dirty := true, fptr := old(fp.fptr) + |d|,
                                       buf := Splice(old(fp.buf[..]), old(fp.fptr) % SS, d))
  {
    fp.dsect := sect;
    MemCpy(fp.buf, fp.fptr % SS, d);
    fp.dirty := true;
    fp.fptr := fp.fptr + |d|;
  }

  /** One round of the loop of f_write: writes the first n bytes of w, none when the volume is
      full. */
  method WriteSome(fp: Fil, w: seq<byte>) returns (res: FResult, n: nat)
    requires fp.Mid() && fp.Cur().Placed() && |w| > 0 && fp.fptr + |w| < WORD
    modifies fp.fs`winsect, fp.fs`wflag, fp.fs`lastClust, fp.fs`freeClust, fp.fs`fsiDirty, fp.fs.win, fp.fs.disk
    modifies fp`sclust, fp`chain, fp`sects, fp`clust, fp`ck, fp`dirty, fp`dsect, fp`fptr, fp.buf
    ensures Kept(fp.fs)
    ensures res.FR_OK? || (res.FR_DISK_ERR? && fp.fs.disk.faulted) || (res.FR_INT_ERR? && Illegal(fp.fs.Fat()))
    ensures res.FR_OK? ==> fp.Mid() && fp.Cur().Placed() && n <= |w| && Chunk(old(fp.Cur()), fp.Cur(), w[..n])
    ensures res.FR_OK? && old(CountOk(fp.fs)) ==> CountOk(fp.fs)
    ensures res.FR_OK? && n == 0 ==> NoHit(fp.fs.Fat())
  {
    hide Fatfs.Valid, Fatfs.View, Fatfs.Img, Fatfs.Mirrored, Fil.Cur, Geometry.Fits;
    if fp.fptr % SS == 0 {
      res, n := WriteAligned(fp, w);
    } else {
      Inside(fp.Cur());
      res, n := FR_OK, SS - fp.fptr % SS;
      if n > |w| {
        n := |w|;
      }
      WritePartial(fp, fp.dsect, w[..n]);
    }
  }

  method WriteAligned(fp: Fil, w: seq<byte>) returns (res: FResult, n: nat)
    requires fp.Mid() && fp.Cur().Placed() && |w| > 0 && fp.fptr + |w| < WORD && fp.fptr % SS == 0
    modifies fp.fs`winsect, fp.fs`wflag, fp.fs`lastClust, fp.fs`freeClust, fp.fs`fsiDirty, fp.fs.win, fp.fs.disk
    modifies fp`sclust, fp`chain, fp`sects, fp`clust, fp`ck, fp`dirty, fp`dsect, fp`fptr, fp.buf
    ensures Kept(fp.fs)
    ensures res.FR_OK? || (res.FR_DISK_ERR? && fp.fs.disk.faulted) || (res.FR_INT_ERR? && Illegal(fp.fs.Fat()))
    ensures res.FR_OK? ==> fp.Mid() && fp.Cur().Placed() && n <= |w| && Chunk(old(fp.Cur()), fp.Cur(), w[..n])
    ensures res.FR_OK? && old(CountOk(fp.fs)) ==> CountOk(fp.fs)
    ensures res.FR_OK? && n == 0 ==> NoHit(fp.fs.Fat())
  {
    hide Fatfs.Valid, Fatfs.View, Fatfs.Img, Fatfs.Mirrored, Fil.Cur, Geometry.Fits;
    ghost var a := fp.Cur();
    var full, sect;
    n := 0;
    res, full, sect := SectorForWrite(fp);
    if res != FR_OK {
      return;
    }
    ghost var b := fp.Cur();
    if full {
      StepIsChunk(a, b);
      assert w[..0] == [];
      return;
    }
    var ok;
    ok, n := WriteAt(fp, sect, w);
    if ok {
      StepThenChunk(a, b, fp.Cur(), w[..n]);
    } else {
      res := FR_DISK_ERR;
    }
  }

  /** f_write on a sector boundary with the sector known and the buffer clean: whole sectors go
      to the volume directly, the rest into the buffer. */
  method WriteAt(fp: Fil, sect: nat, w: seq<byte>) returns (ok: bool, n: nat)
    requires fp.Mid() && Settled(fp.Cur()) && !fp.dirty && fp.fptr % SS == 0 && sect == fp.sects[fp.fptr / SS]
    requires fp.fptr / SS == Span(fp.ck, fp.fs.g.csize) + Csect(fp.fptr, fp.fs.g.csize)
    requires |w| > 0 && fp.fptr + |w| < WORD
    modifies fp.fs.disk, fp`dirty, fp`dsect, fp`fptr, fp.buf
    ensures Kept(fp.fs)
    ensures !ok ==> fp.fs.disk.faulted
    ensures ok ==> fp.Mid() && fp.Cur().Placed() && 0 < n <= |w| && Chunk(old(fp.Cur()), fp.Cur(), w[..n])
                   && fp.fs.Fat() == old(fp.fs.Fat())
  {
    hide Fatfs.Valid, Fatfs.View, Fatfs.Img, Fatfs.Mirrored, Fil.Cur, Geometry.Fits, Cursor.Linked,
         Cursor.Placed, Chunk, Frame, SameSectors;
    ghost var a := fp.Cur();
    var csect := Csect(fp.fptr, fp.fs.g.csize);
    Clipped(a, csect);
    var cc := |w| / SS;
    if cc > 0 {
      if csect + cc > fp.fs.g.csize {
        cc := fp.fs.g.csize - csect;
      }
      n := SS * cc;
      ok := WriteDirect(fp, sect, w, cc);
      return;
    }
    n := |w|;
    ok := true;
    if fp.dsect != sect && fp.fptr < fp.fsize {
      ok := FillBuf(fp, sect, fp.fptr / SS);
    }
    if ok {
      ghost var b := fp.Cur();
      assert w[..n] == w;
      WritePartial(fp, sect, w);
      StepThenChunk(a, b, fp.Cur(), w);
    }
  }

  /** f_write. On FR_OK exactly the first bw bytes of wbuff have replaced the contents from the
      position on; bw falls short only when the volume is full. */
  method FWrite(fp: Fil, wbuff: seq<byte>) returns (res: FResult, bw: nat)
    requires fp.Ready() && |wbuff| < WORD
    modifies fp.fs`winsect, fp.fs`wflag, fp.fs`lastClust, fp.fs`freeClust, fp.fs`fsiDirty, fp.fs.win, fp.fs.disk
    modifies fp`sclust, fp`chain, fp`sects, fp`clust, fp`ck, fp`dirty, fp`dsect, fp`fptr, fp`fsize, fp`written,
             fp`err, fp.buf
    ensures Kept(fp.fs) && fp.Ready()
    ensures !old(fp.err).FR_OK? ==> res == old(fp.err)
    ensures old(fp.err).FR_OK? && !fp.writable ==> res.FR_DENIED?
    ensures !old(fp.err).FR_OK? || !fp.writable ==>
              fp.Cur() == old(fp.Cur()) && bw == 0 && fp.err == old(fp.err)
    ensures old(fp.err).FR_OK? && fp.writable ==>
              && (res.FR_OK? || (res.FR_DISK_ERR? && fp.fs.disk.faulted) || (res.FR_INT_ERR? && Illegal(fp.fs.Fat())))
              && fp.err == res
    ensures res.FR_OK? ==> Written(fp, wbuff, bw)
    ensures fp.written == (old(fp.written) || res.FR_OK?)
    ensures res.FR_OK? && old(CountOk(fp.fs)) ==> CountOk(fp.fs)
    ensures res.FR_OK? ==> if old(fp.fptr) + |wbuff| >= WORD then bw == 0
                           else bw == |wbuff| || NoHit(fp.fs.Fat())
  {
    hide Fatfs.Valid, Fatfs.View, Fatfs.Img, Fatfs.Mirrored, Fil.Cur, Geometry.Fits, Chunk,
         Cursor.Base, Cursor.Linked, Cursor.Placed;
    bw := 0;
    if fp.err != FR_OK {
      return fp.err, 0;
    }
    if !fp.writable {
      return FR_DENIED, 0;
    }
    var btw := |wbuff|;
    OverflowTest(fp.fptr, btw);
    if Add32(fp.fptr, btw) < fp.fptr {
      btw := 0;
    }
    res, bw := WriteAll(fp, wbuff[..btw]);
    fp.err := res;
    assert bw <= btw ==> wbuff[..btw][..bw] == wbuff[..bw];
  }

  /** f_write behind its access checks. */
  method WriteAll(fp: Fil, w: seq<byte>) returns (res: FResult, bw: nat)
    requires fp.Valid() && fp.fptr + |w| < WORD
    modifies fp.fs`winsect, fp.fs`wflag, fp.fs`lastClust, fp.fs`freeClust, fp.fs`fsiDirty, fp.fs.win, fp.fs.disk
    modifies fp`sclust, fp`chain, fp`sects, fp`clust, fp`ck, fp`dirty, fp`dsect, fp`fptr, fp`fsize, fp`written, fp.buf
    ensures Kept(fp.fs)
    ensures res.FR_OK? || (res.FR_DISK_ERR? && fp.fs.disk.faulted) || (res.FR_INT_ERR? && Illegal(fp.fs.Fat()))
    ensures res.FR_OK? ==> Written(fp, w, bw)
    ensures fp.written == (old(fp.written) || res.FR_OK?)
    ensures res.FR_OK? && old(CountOk(fp.fs)) ==> CountOk(fp.fs)
    ensures res.FR_OK? && bw < |w| ==> NoHit(fp.fs.Fat())
  {
    hide Fatfs.Valid, Fatfs.View, Fatfs.Img, Fatfs.Mirrored, Fil.Cur, Geometry.Fits, Chunk,
         Cursor.Base, Cursor.Linked, Cursor.Placed;
    ghost var a := fp.Cur();
    res, bw := WriteLoop(fp, w);
    if res.FR_OK? {
      Finish(fp, a, w[..bw]);
    }
  }

  /** The effect of a write of the first bw bytes of w. */
  twostate predicate Written(fp: Fil, w: seq<byte>, bw: nat)
    requires old(fp.Valid())
    reads fp, fp.buf, fp.fs`winsect, fp.fs`wflag, fp.fs`lastClust, fp.fs`freeClust, fp.fs`fsiDirty, fp.fs.win,
          fp.fs.disk
  {
    && fp.Valid() && bw <= |w|
    && fp.Bytes() == Overwrite(old(fp.Bytes()), old(fp.fptr), w[..bw])
    && fp.fptr == old(fp.fptr) + bw
    && Frame(old(fp.Cur()), fp.Cur())
    && fp.written
  }

  /** The end of f_write: the new size and the change flag. */
  method Finish(fp: Fil, ghost a: Cursor, ghost d: seq<byte>)
    requires fp.Mid() && fp.Cur().Placed() && Chunk(a, fp.Cur(), d) && a.fptr <= a.fsize
    modifies fp`fsize, fp`written
    ensures fp.Valid() && fp.written && Frame(a, fp.Cur())
    ensures fp.Bytes() == Overwrite(a.Bytes(), a.fptr, d)
  {
    hide Fatfs.Valid, Fatfs.View, Fatfs.Img, Fatfs.Mirrored, Fil.Cur, Geometry.Fits,
         Chunk, Cursor.Base, Cursor.Linked, Cursor.Placed;
    ghost var c := fp.Cur();
    if fp.fptr > fp.fsize {
      fp.fsize := fp.fptr;
    }
    fp.written := true;
    ChunkBytes(a, c, d, fp.Cur());
    Resized(c, fp.Cur());
  }

  /** The loop of f_write. */
  method WriteLoop(fp: Fil, w: seq<byte>) returns (res: FResult, bw: nat)
    requires fp.Mid() && fp.Cur().Placed() && fp.fptr + |w| < WORD
    modifies fp.fs`winsect, fp.fs`wflag, fp.fs`lastClust, fp.fs`freeClust, fp.fs`fsiDirty, fp.fs.win, fp.fs.disk
    modifies fp`sclust, fp`chain, fp`sects, fp`clust, fp`ck, fp`dirty, fp`dsect, fp`fptr, fp.buf
    ensures Kept(fp.fs)
    ensures res.FR_OK? || (res.FR_DISK_ERR? && fp.fs.disk.faulted) || (res.FR_INT_ERR? && Illegal(fp.fs.Fat()))
    ensures res.FR_OK? ==> fp.Mid() && fp.Cur().Placed() && bw <= |w| && Chunk(old(fp.Cur()), fp.Cur(), w[..bw])
    ensures res.FR_OK? && old(CountOk(fp.fs)) ==> CountOk(fp.fs)
    ensures res.FR_OK? && bw < |w| ==> NoHit(fp.fs.Fat())
  {
    hide Fatfs.Valid, Fatfs.View, Fatfs.Img, Fatfs.Mirrored, Fil.Cur, Geometry.Fits, Chunk,
         Cursor.Base, Cursor.Linked, Cursor.Placed;
    res, bw := FR_OK, 0;
    ghost var a := fp.Cur();
    ChunkNothing(a);
    assert w[..0] == [];
    var n := 1;
    while bw < |w| && n > 0
      invariant res.FR_OK? && 0 <= bw <= |w| && fp.fptr + |w| - bw < WORD
      invariant Kept(fp.fs)
      invariant fp.Mid() && fp.Cur().Placed() && Chunk(a, fp.Cur(), w[..bw])
      invariant old(CountOk(fp.fs)) ==> CountOk(fp.fs)
      invariant n == 0 ==> NoHit(fp.fs.Fat())
      decreases |w| - bw, n
    {
      res, n := WriteRound(fp, w, bw, a);
      if res != FR_OK {
        return;
      }
      bw := bw + n;
    }
  }

  /** One round of the loop, in terms of the whole write. */
  method WriteRound(fp: Fil, w: seq<byte>, bw: nat, ghost a: Cursor) returns (res: FResult, n: nat)
    requires fp.Mid() && fp.Cur().Placed() && bw < |w| && fp.fptr + |w| - bw < WORD
    requires Chunk(a, fp.Cur(), w[..bw])
    modifies fp.fs`winsect, fp.fs`wflag, fp.fs`lastClust, fp.fs`freeClust, fp.fs`fsiDirty, fp.fs.win, fp.fs.disk
    modifies fp`sclust, fp`chain, fp`sects, fp`clust, fp`ck, fp`dirty, fp`dsect, fp`fptr, fp.buf
    ensures Kept(fp.fs)
    ensures res.FR_OK? || (res.FR_DISK_ERR? && fp.fs.disk.faulted) || (res.FR_INT_ERR? && Illegal(fp.fs.Fat()))
    ensures res.FR_OK? ==> bw + n <= |w| && fp.fptr == old(fp.fptr) + n
                           && fp.Mid() && fp.Cur().Placed() && Chunk(a, fp.Cur(), w[..bw + n])
    ensures res.FR_OK? && old(CountOk(fp.fs)) ==> CountOk(fp.fs)
    ensures res.FR_OK? && n == 0 ==> NoHit(fp.fs.Fat())
  {
    hide Fatfs.Valid, Fatfs.View, Fatfs.Img, Fatfs.Mirrored, Fil.Cur, Geometry.Fits, Chunk,
         Cursor.Base, Cursor.Linked, Cursor.Placed;
    ghost var b := fp.Cur();
    res, n := WriteSome(fp, w[bw..]);
    if res.FR_OK? {
      assert w[..bw] + w[bw..][..n] == w[..bw + n];
      ChunkTransitive(a, b, fp.Cur(), w[..bw], w[bw..][..n]);
    }
  }

  /** get_fat for the file: the cluster behind the ck-th, which exists. */
  method NextForRead(fp: Fil) returns (clst: nat)
    requires fp.Mid() && fp.ck + 1 < |fp.chain| && fp.clust == fp.chain[fp.ck]
    modifies fp.fs`winsect, fp.fs`wflag, fp.fs.win, fp.fs.disk
    ensures Kept(fp.fs) && fp.fs.View() == old(fp.fs.View())
    ensures clst == NONE ==> fp.fs.disk.faulted
    ensures clst != NONE ==> fp.Mid() && fp.Cur() == old(fp.Cur()) && clst == fp.chain[fp.ck + 1]
  {
    ghost var a := fp.Cur();
    LinkAt(a.fat, a.chain, a.ck);
    hide Fatfs.Valid, Fatfs.View, Fatfs.Img, Fatfs.Mirrored, Geometry.Fits;
    clst := GetFat(fp.fs, fp.clust);
    FatApart(a, fp.fs.winsect);
  }

  /** f_read on a cluster boundary: the cluster of the byte at fptr. */
  method ClusterForRead(fp: Fil) returns (res: FResult)
    requires fp.Mid() && fp.Cur().Placed() && fp.fptr % SS == 0 && Csect(fp.fptr, fp.fs.g.csize) == 0
    requires fp.fptr < fp.fsize
    modifies fp.fs`winsect, fp.fs`wflag, fp.fs.win, fp.fs.disk, fp`clust, fp`ck
    ensures Kept(fp.fs) && fp.fs.View() == old(fp.fs.View())
    ensures res.FR_OK? || (res.FR_DISK_ERR? && fp.fs.disk.faulted)
    ensures res.FR_OK? ==> fp.Mid() && Step(old(fp.Cur()), fp.Cur()) && Settled(fp.Cur())
                           && fp.fptr == SS * Span(fp.ck, fp.fs.g.csize)
  {
    hide Fatfs.Valid, Fatfs.View, Fatfs.Img, Fatfs.Mirrored, Fil.Cur, Geometry.Fits;
    ghost var k := 0;
    var clst;
    ReadIndex(fp.Cur());
    if fp.fptr == 0 {
      clst := fp.sclust;
    } else {
      k := fp.ck + 1;
      clst := NextForRead(fp);
    }
    res := FR_OK;
    if clst < 2 {
      res := FR_INT_ERR;
    } else if clst == NONE {
      res := FR_DISK_ERR;
    } else {
      EnterCluster(fp, clst, k);
    }
  }

  /** f_read on a sector boundary: the sector of the byte at fptr. */
  method SectorForRead(fp: Fil) returns (res: FResult, sect: nat)
    requires fp.Mid() && fp.Cur().Placed() && fp.fptr % SS == 0 && fp.fptr < fp.fsize
    modifies fp.fs`winsect, fp.fs`wflag, fp.fs.win, fp.fs.disk, fp`clust, fp`ck
    ensures Kept(fp.fs) && fp.fs.View() == old(fp.fs.View())
    ensures res.FR_OK? || (res.FR_DISK_ERR? && fp.fs.disk.faulted)
    ensures res.FR_OK? ==> fp.Mid() && Step(old(fp.Cur()), fp.Cur()) && Settled(fp.Cur())
                           && sect == fp.sects[fp.fptr / SS]
                           && fp.fptr / SS == Span(fp.ck, fp.fs.g.csize) + Csect(fp.fptr, fp.fs.g.csize)
  {
    hide Fatfs.Valid, Fatfs.View, Fatfs.Img, Fatfs.Mirrored, Fil.Cur, Geometry.Fits;
    ghost var a := fp.Cur();
    var csect := Csect(fp.fptr, fp.fs.g.csize);
    res, sect := FR_OK, 0;
    if csect == 0 {
      res := ClusterForRead(fp);
      if res != FR_OK {
        return;
      }
    } else {
      Stay(a);
      StepMoved(a, a);
    }
    SectorOfCluster(fp.Cur());
    sect := Clust2Sect(fp.fs.g, fp.clust);
    if sect == 0 {
      res := FR_INT_ERR;
      return;
    }
    sect := sect + csect;
  }

  /** disk_read of cc sectors into the caller's buffer, with the dirty sector buffer laid over
      its own sector. */
  method ReadDirect(fp: Fil, sect: nat, cc: nat, buff: array<byte>, off: nat) returns (ok: bool)
    requires fp.Mid() && Settled(fp.Cur()) && fp.fptr % SS == 0 && sect == fp.sects[fp.fptr / SS]
    requires 0 < cc && fp.fptr / SS + cc <= Span(fp.ck, fp.fs.g.csize) + fp.fs.g.csize
    requires off + SS * cc <= buff.Length && buff != fp.buf && buff != fp.fs.win
    modifies fp.fs.disk`faulted, buff
    ensures Kept(fp.fs) && fp.fs.View() == old(fp.fs.View()) && fp.Mid() && fp.Cur() == old(fp.Cur())
    ensures fp.fptr + SS * cc <= SS * |fp.sects|
    ensures !ok ==> fp.fs.disk.faulted
    ensures ok ==> buff[..] == Splice(old(buff[..]), off, Slice(fp.Cur(), fp.fptr, SS * cc))
  {
    hide Fatfs.Valid, Fatfs.View, Fatfs.Img, Fatfs.Mirrored, Geometry.Fits, Slice, Splice, FlatBytes,
         Cursor.Linked, Cursor.Placed;
    ghost var a := fp.Cur();
    RestOfCluster(a, fp.fs.winsect, cc);
    var data;
    ok, data := ReadData(fp.fs, sect, cc);
    if ok {
      CopyRun(fp, sect, data, buff, off);
      DirectSlice(a, data, Overlaid(a, sect, data));
    }
  }

  /** What lands in the caller's buffer: the sectors read, overlaid by the dirty buffer. */
  function Overlaid(a: Cursor, sect: nat, data: seq<Sector>): seq<byte>
    requires |a.buf| == SS
  {
    if a.dirty && sect <= a.dsect < sect + |data| then Splice(FlatBytes(data), SS * (a.dsect - sect), a.buf)
    else FlatBytes(data)
  }

  /** A copy into the caller's buffer, in the words of the specification. */
  method CopyOut(buff: array<byte>, off: nat, src: seq<byte>)
    requires off + |src| <= buff.Length
    modifies buff
    ensures buff[..] == Splice(old(buff[..]), off, src)
  {
    MemCpy(buff, off, src);
  }

  method CopyRun(fp: Fil, sect: nat, data: seq<Sector>, buff: array<byte>, off: nat)
    requires fp.fs.Valid() && fp.buf.Length == SS && fp.dsect < WORD && sect + |data| <= WORD
    requires off + SS * |data| <= buff.Length && buff != fp.buf && buff != fp.fs.win
    modifies buff
    ensures buff[..] == Splice(old(buff[..]), off, Overlaid(fp.Cur(), sect, data))
  {
    hide Fatfs.Valid, Fatfs.View, Fatfs.Img, Fatfs.Mirrored, Geometry.Fits, FlatBytes, Splice, Sub32,
         Fil.Cur;
    ghost var was, a, d := buff[..], fp.Cur(), FlatBytes(data);
    RangeTest(fp.dsect, sect, |data|);
    CopyOut(buff, off, FlatBytes(data));
    if fp.dirty && Sub32(fp.dsect, sect) < |data| {
      SpliceInner(was, off, FlatBytes(data), SS * (fp.dsect - sect), fp.buf[..]);
      CopyOut(buff, off + SS * (fp.dsect - sect), fp.buf[..]);
      assert Overlaid(a, sect, data) == Splice(d, SS * (fp.dsect - sect), fp.buf[..]);
    } else {
      assert Overlaid(a, sect, data) == d;
    }
    assert fp.Cur() == a;
  }

  lemma SpliceInner<T>(s: seq<T>, off: nat, x: seq<T>, d: nat, y: seq<T>)
    requires off + |x| <= |s| && d + |y| <= |x|
    ensures Splice(Splice(s, off, x), off + d, y) == Splice(s, off, Splice(x, d, y))
  {
  }

  /** One round of the loop of f_read: n of the btr bytes, into buff from off on. */
  method ReadSome(fp: Fil, btr: nat, buff: array<byte>, off: nat) returns (res: FResult, n: nat)
    requires fp.Mid() && fp.Cur().Placed() && 0 < btr && fp.fptr + btr <= fp.fsize
    requires off + btr <= buff.Length && buff != fp.buf && buff != fp.fs.win
    modifies fp.fs`winsect, fp.fs`wflag, fp.fs.win, fp.fs.disk
    modifies fp`clust, fp`ck, fp`dirty, fp`dsect, fp`fptr, fp.buf, buff
    ensures Kept(fp.fs) && (res.FR_OK? ==> fp.fs.Fat() == old(fp.fs.Fat()))
    ensures res.FR_OK? || (res.FR_DISK_ERR? && fp.fs.disk.faulted)
    ensures res.FR_OK? ==> fp.Mid() && fp.Cur().Placed() && 0 < n <= btr && Moved(old(fp.Cur()), fp.Cur(), n)
    ensures res.FR_OK? ==> old(fp.fptr) + n <= SS * |old(fp.sects)|
                           && buff[..] == Splice(old(buff[..]), off, Slice(old(fp.Cur()), old(fp.fptr), n))
  {
    hide Fatfs.Valid, Fatfs.View, Fatfs.Img, Fatfs.Mirrored, Fil.Cur, Geometry.Fits;
    if fp.fptr % SS == 0 {
      res, n := ReadAligned(fp, btr, buff, off);
    } else {
      Inside(fp.Cur());
      StepMoved(fp.Cur(), fp.Cur());
      res := FR_OK;
      n := ReadPartial(fp, btr, buff, off);
    }
  }

  /** The partial transfer of f_read, out of the sector buffer. */
  method ReadPartial(fp: Fil, btr: nat, buff: array<byte>, off: nat) returns (n: nat)
    requires fp.Mid() && Settled(fp.Cur()) && fp.dsect == fp.sects[fp.fptr / SS]
    requires 0 < btr && fp.fptr + btr <= fp.fsize
    requires off + btr <= buff.Length && buff != fp.buf && buff != fp.fs.win
    modifies fp`fptr, buff
    ensures Kept(fp.fs) && fp.fs.View() == old(fp.fs.View())
    ensures fp.Mid() && fp.Cur().Placed() && 0 < n <= btr && Moved(old(fp.Cur()), fp.Cur(), n)
    ensures old(fp.fptr) + n <= SS * |fp.sects|
    ensures buff[..] == Splice(old(buff[..]), off, Slice(old(fp.Cur()), old(fp.fptr), n))
  {
    hide Fatfs.Valid, Fatfs.View, Fatfs.Img, Fatfs.Mirrored, Geometry.Fits, Slice, Splice,
         Cursor.Linked, Frame, SameSectors, Settled, Cursor.Placed;
    ghost var a := fp.Cur();
    n := SS - fp.fptr % SS;
    if n > btr {
      n := btr;
    }
    BufferSlice(a, n);
    CopyOut(buff, off, fp.buf[fp.fptr % SS..fp.fptr % SS + n]);
    AdvanceInSector(a, a.(fptr := a.fptr + n), n);
    fp.fptr := fp.fptr + n;
  }

  /** f_read on a sector boundary. */
  method ReadAligned(fp: Fil, btr: nat, buff: array<byte>, off: nat) returns (res: FResult, n: nat)
    requires fp.Mid() && fp.Cur().Placed() && 0 < btr && fp.fptr + btr <= fp.fsize && fp.fptr % SS == 0
    requires off + btr <= buff.Length && buff != fp.buf && buff != fp.fs.win
    modifies fp.fs`winsect, fp.fs`wflag, fp.fs.win, fp.fs.disk
    modifies fp`clust, fp`ck, fp`dirty, fp`dsect, fp`fptr, fp.buf, buff
    ensures Kept(fp.fs) && (res.FR_OK? ==> fp.fs.Fat() == old(fp.fs.Fat()))
    ensures res.FR_OK? || (res.FR_DISK_ERR? && fp.fs.disk.faulted)
    ensures res.FR_OK? ==> fp.Mid() && fp.Cur().Placed() && 0 < n <= btr && Moved(old(fp.Cur()), fp.Cur(), n)
    ensures res.FR_OK? ==> old(fp.fptr) + n <= SS * |old(fp.sects)|
                           && buff[..] == Splice(old(buff[..]), off, Slice(old(fp.Cur()), old(fp.fptr), n))
  {
    hide Fatfs.Valid, Fatfs.View, Fatfs.Img, Fatfs.Mirrored, Fil.Cur, Geometry.Fits,
         Frame, SameSectors, Slice, Splice;
    ghost var a := fp.Cur();
    var sect, ok;
    n := 0;
    res, sect := SectorForRead(fp);
    if res.FR_OK? {
      ghost var b := fp.Cur();
      StepMoved(a, b);
      ok, n := ReadAt(fp, sect, btr, buff, off);
      if ok {
        MovedTransitive(a, b, fp.Cur(), 0, n);
        MovedSlice(a, b, 0, a.fptr, n);
      } else {
        res := FR_DISK_ERR;
      }
    }
  }

  /** f_read on a sector boundary with the sector known: whole sectors go to the caller's
      buffer directly, the rest through the sector buffer. */
  method ReadAt(fp: Fil, sect: nat, btr: nat, buff: array<byte>, off: nat) returns (ok: bool, n: nat)
    requires fp.Mid() && Settled(fp.Cur()) && fp.fptr % SS == 0 && sect == fp.sects[fp.fptr / SS]
    requires fp.fptr / SS == Span(fp.ck, fp.fs.g.csize) + Csect(fp.fptr, fp.fs.g.csize)
    requires 0 < btr && fp.fptr + btr <= fp.fsize
    requires off + btr <= buff.Length && buff != fp.buf && buff != fp.fs.win
    modifies fp`dirty, fp`dsect, fp`fptr, fp.buf, fp.fs.disk, buff
    ensures Kept(fp.fs) && (ok ==> fp.fs.Fat() == old(fp.fs.Fat()))
    ensures !ok ==> fp.fs.disk.faulted
    ensures ok ==> fp.Mid() && fp.Cur().Placed() && 0 < n <= btr && Moved(old(fp.Cur()), fp.Cur(), n)
    ensures ok ==> old(fp.fptr) + n <= SS * |fp.sects| && fp.sects == old(fp.sects)
                   && buff[..] == Splice(old(buff[..]), off, Slice(old(fp.Cur()), old(fp.fptr), n))
  {
    hide Fatfs.Valid, Fatfs.View, Fatfs.Img, Fatfs.Mirrored, Fil.Cur, Geometry.Fits,
         Frame, SameSectors, Slice, Splice, Cursor.Linked, Cursor.Placed, Cursor.Base;
    var csect := Csect(fp.fptr, fp.fs.g.csize);
    Clipped(fp.Cur(), csect);
    var cc := btr / SS;
    if cc > 0 {
      if csect + cc > fp.fs.g.csize {
        cc := fp.fs.g.csize - csect;
      }
      n := SS * cc;
      ok := ReadRun(fp, sect, cc, buff, off);
    } else {
      n := 0;
      ghost var b := fp.Cur();
      ok := HoldSector(fp, sect);
      if ok {
        ghost var c := fp.Cur();
        StepMoved(b, c);
        n := ReadPartial(fp, btr, buff, off);
        MovedTransitive(b, c, fp.Cur(), 0, n);
        MovedSlice(b, c, 0, b.fptr, n);
      }
    }
  }

  /** Direct transfer and the move of the position. */
  method ReadRun(fp: Fil, sect: nat, cc: nat, buff: array<byte>, off: nat) returns (ok: bool)
    requires fp.Mid() && Settled(fp.Cur()) && fp.fptr % SS == 0 && sect == fp.sects[fp.fptr / SS]
    requires 0 < cc && fp.fptr / SS + cc <= Span(fp.ck, fp.fs.g.csize) + fp.fs.g.csize
    requires fp.fptr + SS * cc <= fp.fsize
    requires off + SS * cc <= buff.Length && buff != fp.buf && buff != fp.fs.win
    modifies fp.fs.disk`faulted, fp`fptr, buff
    ensures Kept(fp.fs) && fp.fs.View() == old(fp.fs.View())
    ensures !ok ==> fp.fs.disk.faulted
    ensures ok ==> fp.Mid() && fp.Cur().Placed() && Moved(old(fp.Cur()), fp.Cur(), SS * cc)
    ensures ok ==> old(fp.fptr) + SS * cc <= SS * |fp.sects|
                   && buff[..] == Splice(old(buff[..]), off, Slice(old(fp.Cur()), old(fp.fptr), SS * cc))
  {
    hide Fatfs.Valid, Fatfs.View, Fatfs.Img, Fatfs.Mirrored, Geometry.Fits, Slice, Splice,
         Cursor.Linked, Frame, SameSectors, Settled, Cursor.Placed;
    ghost var a := fp.Cur();
    ok := ReadDirect(fp, sect, cc, buff, off);
    if ok {
      AdvanceRun(a, a.(fptr := a.fptr + SS * cc), cc);
      fp.fptr := fp.fptr + SS * cc;
    }
  }

  /** Brings a sector into the buffer, writing a dirty one back first. */
  method HoldSector(fp: Fil, sect: nat) returns (ok: bool)
    requires fp.Mid() && Settled(fp.Cur()) && sect == fp.sects[fp.fptr / SS]
    modifies fp`dirty, fp`dsect, fp.buf, fp.fs.disk
    ensures Kept(fp.fs)
    ensures !ok ==> fp.fs.disk.faulted
    ensures ok ==> fp.Mid() && Settled(fp.Cur()) && fp.dsect == sect == fp.sects[fp.fptr / SS]
                   && Step(old(fp.Cur()), fp.Cur()) && fp.fs.Fat() == old(fp.fs.Fat())
  {
    hide Fatfs.Valid, Fatfs.View, Fatfs.Img, Fatfs.Mirrored, Fil.Cur, Geometry.Fits, Frame, SameSectors;
    ghost var a := fp.Cur();
    StepMoved(a, a);
    SelfMoved(a);
    ok := true;
    if fp.dsect != sect {
      ok := FlushBuf(fp);
      if ok {
        ghost var b := fp.Cur();
        ok := FillBuf(fp, sect, fp.fptr / SS);
        if ok {
          StepTransitive(a, b, fp.Cur());
        }
      }
    }
  }

  /** One round of the loop, in terms of the whole read. */
  method ReadRound(fp: Fil, btr: nat, buff: array<byte>, br: nat, ghost a: Cursor, ghost was: seq<byte>)
    returns (res: FResult, n: nat)
    requires fp.Mid() && fp.Cur().Placed() && br < btr <= buff.Length == |was|
    requires a.fptr + btr <= a.fsize && buff != fp.buf && buff != fp.fs.win
    requires Moved(a, fp.Cur(), br) && buff[..] == Splice(was, 0, Slice(a, a.fptr, br))
    modifies fp.fs`winsect, fp.fs`wflag, fp.fs.win, fp.fs.disk
    modifies fp`clust, fp`ck, fp`dirty, fp`dsect, fp`fptr, fp.buf, buff
    ensures Kept(fp.fs) && (res.FR_OK? ==> fp.fs.Fat() == old(fp.fs.Fat()))
    ensures res.FR_OK? || (res.FR_DISK_ERR? && fp.fs.disk.faulted)
    ensures res.FR_OK? ==> 0 < n && br + n <= btr && fp.Mid() && fp.Cur().Placed()
                           && Moved(a, fp.Cur(), br + n) && buff[..] == Splice(was, 0, Slice(a, a.fptr, br + n))
  {
    hide Fatfs.Valid, Fatfs.View, Fatfs.Img, Fatfs.Mirrored, Fil.Cur, Geometry.Fits, Slice, Splice,
         Moved, Cursor.Placed;
    ghost var b := fp.Cur();
    res, n := ReadSome(fp, btr - br, buff, br);
    if res.FR_OK? {
      ReadMore(a, b, fp.Cur(), br, n, was, buff[..]);
    }
  }

  /** The loop of f_read. */
  method ReadLoop(fp: Fil, btr: nat, buff: array<byte>) returns (res: FResult, br: nat)
    requires fp.Mid() && fp.Cur().Placed() && fp.fptr + btr <= fp.fsize
    requires btr <= buff.Length && buff != fp.buf && buff != fp.fs.win
    modifies fp.fs`winsect, fp.fs`wflag, fp.fs.win, fp.fs.disk
    modifies fp`clust, fp`ck, fp`dirty, fp`dsect, fp`fptr, fp.buf, buff
    ensures Kept(fp.fs) && (res.FR_OK? ==> fp.fs.Fat() == old(fp.fs.Fat()))
    ensures res.FR_OK? || (res.FR_DISK_ERR? && fp.fs.disk.faulted)
    ensures res.FR_OK? ==> br == btr && fp.Mid() && fp.Cur().Placed() && Moved(old(fp.Cur()), fp.Cur(), btr)
    ensures res.FR_OK? ==> buff[..] == Splice(old(buff[..]), 0, Slice(old(fp.Cur()), old(fp.fptr), btr))
  {
    hide Fatfs.Valid, Fatfs.View, Fatfs.Img, Fatfs.Mirrored, Fil.Cur, Geometry.Fits, Slice, Splice,
         Moved, Cursor.Placed;
    ghost var a, was := fp.Cur(), buff[..];
    NothingRead(a, was);
    res, br := FR_OK, 0;
    while br < btr
      invariant res.FR_OK? && 0 <= br <= btr
      invariant Kept(fp.fs) && fp.fs.Fat() == old(fp.fs.Fat())
      invariant fp.Mid() && fp.Cur().Placed() && Moved(a, fp.Cur(), br)
      invariant buff[..] == Splice(was, 0, Slice(a, a.fptr, br))
    {
      var n;
      res, n := ReadRound(fp, btr, buff, br, a, was);
      if res != FR_OK {
        return;
      }
      br := br + n;
    }
  }

  /** The effect of a read of br bytes into buff. */
  twostate predicate DoneReading(fp: Fil, br: nat, buff: array<byte>)
    requires old(fp.Valid())
    reads fp, fp.buf, fp.fs`winsect, fp.fs`wflag, fp.fs`lastClust, fp.fs`freeClust, fp.fs`fsiDirty, fp.fs.win,
          fp.fs.disk, buff
  {
    fp.Valid() && ReadDone(old(fp.Cur()), fp.Cur(), br, old(buff[..]), buff[..])
  }

  ghost predicate ReadDone(a: Cursor, b: Cursor, br: nat, was: seq<byte>, now: seq<byte>)
    requires a.Base() && b.Base()
  {
    && a.fptr + br <= a.fsize && br <= |was|
    && b.Bytes() == a.Bytes() && b.fsize == a.fsize && b.fptr == a.fptr + br
    && b.fat == a.fat && Frame(a, b)
    && now == Splice(was, 0, a.Bytes()[a.fptr..a.fptr + br])
  }

  /** f_read. On FR_OK the next br bytes of the contents are in buff, br being btr or what is
      left of the file; nothing else in buff and nothing in the file has changed. Only a failed
      transfer makes it fail. */
  method FRead(fp: Fil, buff: array<byte>, btr: nat) returns (res: FResult, br: nat)
    requires fp.Ready() && btr <= buff.Length && buff != fp.buf && buff != fp.fs.win
    modifies fp.fs`winsect, fp.fs`wflag, fp.fs.win, fp.fs.disk
    modifies fp`clust, fp`ck, fp`dirty, fp`dsect, fp`fptr, fp`err, fp.buf, buff
    ensures Kept(fp.fs) && fp.Ready()
    ensures !old(fp.err).FR_OK? ==> res == old(fp.err)
    ensures old(fp.err).FR_OK? && !fp.readable ==> res.FR_DENIED?
    ensures !old(fp.err).FR_OK? || !fp.readable ==>
              br == 0 && fp.Cur() == old(fp.Cur()) && buff[..] == old(buff[..]) && fp.err == old(fp.err)
    ensures old(fp.err).FR_OK? && fp.readable ==>
              fp.err == res && (res.FR_OK? || (res.FR_DISK_ERR? && fp.fs.disk.faulted))
    ensures res.FR_OK? ==> DoneReading(fp, br, buff)
                           && br == if btr > old(fp.fsize) - old(fp.fptr) then old(fp.fsize) - old(fp.fptr) else btr
  {
    hide Fatfs.Valid, Fatfs.View, Fatfs.Img, Fatfs.Mirrored, Geometry.Fits, Splice, Slice, Moved, Frame,
         Cursor.Placed, Cursor.Base, Cursor.Linked;
    br := 0;
    if fp.err != FR_OK {
      return fp.err, 0;
    }
    if !fp.readable {
      return FR_DENIED, 0;
    }
    var remain := fp.fsize - fp.fptr;
    var n := btr;
    if n > remain {
      n := remain;
    }
    ghost var a := fp.Cur();
    res, br := ReadLoop(fp, n, buff);
    if res != FR_OK {
      fp.err := res;
      return;
    }
    AllRead(a, fp.Cur(), br);
  }
}
