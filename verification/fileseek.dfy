/** Moving the position of an open file: f_lseek without a link map. */
module FileSeek {
  import opened Bits
  import opened Disk
  import opened Volume
  import opened FatTable
  import opened Chains
  import opened Allocator
  import opened FileSpace
  import opened FileCursor
  import opened FileIO

  /** The first cluster of the file, created if it has none: 0 when the volume is full. */
  method FirstCluster(fp: Fil) returns (res: FResult, clst: nat)
    requires fp.Mid() && fp.fptr == 0
    modifies fp.fs`winsect, fp.fs`wflag, fp.fs`lastClust, fp.fs`freeClust, fp.fs`fsiDirty, fp.fs.win, fp.fs.disk
    modifies fp`sclust, fp`chain, fp`sects, fp`clust, fp`ck
    ensures Kept(fp.fs)
    ensures res.FR_OK? || (res.FR_DISK_ERR? && fp.fs.disk.faulted) || (res.FR_INT_ERR? && Illegal(fp.fs.Fat()))
    ensures res.FR_OK? ==> fp.Mid() && SameFile(old(fp.Cur()), fp.Cur()) && (old(CountOk(fp.fs)) ==> CountOk(fp.fs))
    ensures res.FR_OK? && clst == 0 ==> fp.sects == [] && NoHit(fp.fs.Fat())
    ensures res.FR_OK? && clst != 0 ==> AtStart(fp.Cur()) && clst == fp.clust
    ensures old(fp.chain) != [] ==> fp.fs.View() == old(fp.fs.View())
  {
    hide Fatfs.Valid, Fatfs.View, Fatfs.Img, Fatfs.Mirrored, Fil.Cur, Geometry.Fits, Frame, SameSectors, SameFile,
         Cursor.Base, Cursor.Placed, IsChain, AtStart;
    ghost var a := fp.Cur();
    SelfMoved(a);
    res, clst := FR_OK, fp.sclust;
    if clst == 0 {
      clst := Stretch(fp, 0, 0);
      if clst == 1 {
        return FR_INT_ERR, clst;
      }
      if clst == NONE {
        return FR_DISK_ERR, clst;
      }
    } else {
      First(a);
    }
    ghost var b := fp.Cur();
    if clst == 0 {
      NoCluster(fp);
    } else {
      StartAt(fp, clst);
    }
    SameFileTransitive(a, b, fp.Cur());
  }

  /** The position moves to the first byte of the file. */
  method StartAt(fp: Fil, clst: nat)
    requires fp.Mid() && fp.fptr == 0 && clst == fp.sclust && NextIs(fp.Cur(), 0, clst)
    modifies fp`clust, fp`ck
    ensures fp.Mid() && SameFile(old(fp.Cur()), fp.Cur()) && AtStart(fp.Cur()) && clst == fp.clust
  {
    hide Fatfs.Valid, Fatfs.View, Fatfs.Img, Fatfs.Mirrored, Geometry.Fits;
    ghost var a := fp.Cur();
    SeekFirst(a, a.(clust := clst, ck := 0));
    fp.clust, fp.ck := clst, 0;
  }

  method NoCluster(fp: Fil)
    requires fp.Mid() && fp.fptr == 0 && fp.chain == []
    modifies fp`clust
    ensures fp.Mid() && SameFile(old(fp.Cur()), fp.Cur()) && fp.sects == []
  {
    hide Fatfs.Valid, Fatfs.View, Fatfs.Img, Fatfs.Mirrored, Geometry.Fits;
    ghost var a := fp.Cur();
    NoSectors(a);
    SelfMoved(a);
    fp.clust := 0;
  }

  lemma NoSectors(a: Cursor)
    requires a.Linked() && a.chain == []
    ensures a.sects == []
  {
  }

  /** Where f_lseek starts to follow the chain: the current cluster, or the first one. Answers
      the cluster, 0 when the volume is full, and the offset from its first byte. */
  method SeekStart(fp: Fil, ofs: nat, ifptr: nat) returns (res: FResult, clst: nat, rest: nat)
    requires fp.Mid() && fp.Cur().Placed() && ifptr == fp.fptr && 0 < ofs < WORD
    modifies fp.fs`winsect, fp.fs`wflag, fp.fs`lastClust, fp.fs`freeClust, fp.fs`fsiDirty, fp.fs.win, fp.fs.disk
    modifies fp`sclust, fp`chain, fp`sects, fp`clust, fp`ck, fp`fptr
    ensures Kept(fp.fs)
    ensures res.FR_OK? || (res.FR_DISK_ERR? && fp.fs.disk.faulted) || (res.FR_INT_ERR? && Illegal(fp.fs.Fat()))
    ensures res.FR_OK? ==> fp.Mid() && SameFile(old(fp.Cur()), fp.Cur()) && (old(CountOk(fp.fs)) ==> CountOk(fp.fs))
    ensures res.FR_OK? && clst == 0 ==> fp.fptr == 0 && fp.sects == [] && NoHit(fp.fs.Fat())
    ensures res.FR_OK? && clst != 0 ==> AtStart(fp.Cur()) && clst == fp.clust && rest > 0 && fp.fptr + rest == ofs
    ensures old(fp.chain) != [] ==> fp.fs.View() == old(fp.fs.View())
  {
    hide Fatfs.Valid, Fatfs.View, Fatfs.Img, Fatfs.Mirrored, Geometry.Fits, Frame, SameSectors, SameFile,
         Cursor.Base, Cursor.Placed;
    ghost var a := fp.Cur();
    res, clst, rest := FR_OK, fp.clust, ofs;
    var bcs := SS * fp.fs.g.csize;
    if ifptr > 0 && (ofs - 1) / bcs >= (ifptr - 1) / bcs {
      fp.fptr := And(ifptr - 1, WORD - bcs);
      SeekHere(a, fp.Cur(), ofs);
      rest := ofs - fp.fptr;
    } else {
      fp.fptr := 0;
      Rewound(a, fp.Cur());
      ghost var b := fp.Cur();
      res, clst := FirstCluster(fp);
      if res.FR_OK? {
        SameFileTransitive(a, b, fp.Cur());
      }
    }
  }

  lemma Rewound(a: Cursor, b: Cursor)
    requires a.Linked() && a.Base() && b == a.(fptr := 0)
    ensures SameFile(a, b)
  {
  }

  /** The cluster behind the current one: stretching the chain in write mode, following it
      otherwise. 0 when the volume is full, 1 or NONE on an error. */
  method NextForSeek(fp: Fil, ghost ofs: nat) returns (clst: nat)
    requires fp.Mid() && AtStart(fp.Cur()) && ofs > SS * fp.fs.g.csize
    requires !fp.writable ==> fp.fptr + ofs <= fp.fsize
    modifies fp.fs`winsect, fp.fs`wflag, fp.fs`lastClust, fp.fs`freeClust, fp.fs`fsiDirty, fp.fs.win, fp.fs.disk
    modifies fp`sclust, fp`chain, fp`sects
    ensures Kept(fp.fs)
    ensures clst <= NONE && (clst == NONE ==> fp.fs.disk.faulted) && (clst == 1 ==> Illegal(fp.fs.Fat()))
    ensures clst != NONE ==> fp.Mid() && (old(CountOk(fp.fs)) ==> CountOk(fp.fs))
    ensures clst != NONE && clst != 1 ==> Step(old(fp.Cur()), fp.Cur()) && AtStart(fp.Cur())
    ensures clst == 0 ==> NoHit(fp.fs.Fat()) && fp.ck + 1 == |fp.chain| && fp.writable
    ensures 2 <= clst < NONE ==> fp.ck + 1 < |fp.chain| && fp.chain[fp.ck + 1] == clst < fp.fs.g.nFatent
    ensures !fp.writable ==> fp.fs.View() == old(fp.fs.View())
  {
    hide Fatfs.Valid, Fatfs.View, Fatfs.Img, Fatfs.Mirrored, Fil.Cur, Geometry.Fits, Frame, SameSectors, SameFile,
         Cursor.Base, Cursor.Placed;
    ghost var a := fp.Cur();
    SelfMoved(a);
    if fp.writable {
      clst := Stretch(fp, fp.clust, fp.ck + 1);
    } else {
      SeekMore(a, ofs);
      clst := NextForRead(fp);
    }
    if clst != NONE && clst != 1 {
      SeekStep(a, fp.Cur());
    }
  }

  lemma SeekStep(a: Cursor, b: Cursor)
    requires AtStart(a) && Step(a, b) && b.ck == a.ck && b.clust == a.clust
    ensures AtStart(b)
  {
  }

  /** The cluster loop of f_lseek. */
  method SeekLoop(fp: Fil, ofs: nat) returns (res: FResult, rest: nat)
    requires fp.Mid() && AtStart(fp.Cur()) && ofs > 0 && fp.fptr + ofs < WORD
    requires !fp.writable ==> fp.fptr + ofs <= fp.fsize
    modifies fp.fs`winsect, fp.fs`wflag, fp.fs`lastClust, fp.fs`freeClust, fp.fs`fsiDirty, fp.fs.win, fp.fs.disk
    modifies fp`sclust, fp`chain, fp`sects, fp`clust, fp`ck, fp`fptr
    ensures Kept(fp.fs)
    ensures res.FR_OK? || (res.FR_DISK_ERR? && fp.fs.disk.faulted) || (res.FR_INT_ERR? && Illegal(fp.fs.Fat()))
    ensures res.FR_OK? ==> fp.Mid() && SameFile(old(fp.Cur()), fp.Cur()) && (old(CountOk(fp.fs)) ==> CountOk(fp.fs))
    ensures res.FR_OK? ==> AtStart(fp.Cur()) && 0 < rest <= SS * fp.fs.g.csize
    ensures res.FR_OK? ==> fp.fptr + rest == old(fp.fptr) + ofs || Full(fp, old(fp.fptr) + ofs, fp.fptr + rest)
    ensures !fp.writable ==> fp.fs.Fat() == old(fp.fs.Fat())
  {
    hide Fatfs.Valid, Fatfs.View, Fatfs.Img, Fatfs.Mirrored, Fil.Cur, Geometry.Fits, Frame, SameSectors, SameFile,
         Cursor.Base, Cursor.Placed, AtStart;
    ghost var a := fp.Cur();
    SelfMoved(a);
    var bcs := SS * fp.fs.g.csize;
    rest := ofs;
    res := FR_OK;
    var full := false;
    while rest > bcs && !full
      invariant res.FR_OK? && Kept(fp.fs) && fp.Mid() && SameFile(a, fp.Cur()) && AtStart(fp.Cur())
      invariant old(CountOk(fp.fs)) ==> CountOk(fp.fs)
      invariant rest > 0 && (fp.fptr + rest == a.fptr + ofs || (full && Full(fp, a.fptr + ofs, fp.fptr + rest)))
      invariant full ==> rest == bcs
      invariant !fp.writable ==> fp.fs.Fat() == old(fp.fs.Fat())
      decreases rest, !full
    {
      res, rest, full := SeekRound(fp, rest, a);
      if res != FR_OK {
        return;
      }
    }
  }

  /** One round of the cluster loop. */
  method SeekRound(fp: Fil, ofs: nat, ghost a: Cursor) returns (res: FResult, rest: nat, full: bool)
    requires fp.Mid() && AtStart(fp.Cur()) && ofs > SS * fp.fs.g.csize && fp.fptr + ofs < WORD
    requires SameFile(a, fp.Cur()) && (!fp.writable ==> fp.fptr + ofs <= fp.fsize)
    modifies fp.fs`winsect, fp.fs`wflag, fp.fs`lastClust, fp.fs`freeClust, fp.fs`fsiDirty, fp.fs.win, fp.fs.disk
    modifies fp`sclust, fp`chain, fp`sects, fp`clust, fp`ck, fp`fptr
    ensures Kept(fp.fs)
    ensures res.FR_OK? || (res.FR_DISK_ERR? && fp.fs.disk.faulted) || (res.FR_INT_ERR? && Illegal(fp.fs.Fat()))
    ensures res.FR_OK? ==> fp.Mid() && SameFile(a, fp.Cur()) && (old(CountOk(fp.fs)) ==> CountOk(fp.fs))
    ensures res.FR_OK? ==> AtStart(fp.Cur()) && 0 < rest < ofs
    ensures res.FR_OK? && full ==> rest == SS * fp.fs.g.csize && Full(fp, old(fp.fptr) + ofs, fp.fptr + rest)
    ensures res.FR_OK? && !full ==> fp.fptr + rest == old(fp.fptr) + ofs
    ensures !fp.writable ==> fp.fs.Fat() == old(fp.fs.Fat())
  {
    hide Fatfs.Valid, Fatfs.View, Fatfs.Img, Fatfs.Mirrored, Fil.Cur, Geometry.Fits, Frame, SameSectors, SameFile,
         Cursor.Base, Cursor.Linked, Cursor.Placed, AtStart, Illegal, NoHit, Free;
    ghost var b := fp.Cur();
    res, rest, full := FR_OK, ofs, false;
    var clst := NextForSeek(fp, ofs);
    if clst == 0 {
      SameFileTransitive(a, b, fp.Cur());
      SeekEnd(fp.Cur());
      rest := SS * fp.fs.g.csize;
      full := true;
    } else if clst == NONE {
      res := FR_DISK_ERR;
    } else if clst <= 1 || clst >= fp.fs.g.nFatent {
      res := FR_INT_ERR;
    } else {
      MoveOn(fp, a, b, clst);
      rest := rest - SS * fp.fs.g.csize;
    }
  }

  /** The seek stopped short of its target, at the end of the file's space, because the volume
      is full. */
  ghost predicate Full(fp: Fil, target: nat, pos: nat)
    requires fp.fs.Valid()
    reads fp, fp.fs`winsect, fp.fs`wflag, fp.fs.win, fp.fs.disk
  {
    pos < target && pos == SS * |fp.sects| && NoHit(fp.fs.Fat())
  }

  method MoveOn(fp: Fil, ghost a: Cursor, ghost b: Cursor, clst: nat)
    requires fp.Mid() && AtStart(fp.Cur()) && fp.fptr + SS * fp.fs.g.csize < WORD
    requires SameFile(a, b) && Step(b, fp.Cur())
    requires fp.ck + 1 < |fp.chain| && fp.chain[fp.ck + 1] == clst
    modifies fp`clust, fp`ck, fp`fptr
    ensures fp.Mid() && SameFile(a, fp.Cur()) && AtStart(fp.Cur()) && fp.fptr == old(fp.fptr) + SS * fp.fs.g.csize
  {
    hide Fatfs.Valid, Fatfs.View, Fatfs.Img, Fatfs.Mirrored, Geometry.Fits, Frame, SameSectors, SameFile,
         Cursor.Base, Cursor.Linked, Cursor.Placed, AtStart;
    ghost var c := fp.Cur();
    SeekNext(c, c.(clust := clst, ck := c.ck + 1, fptr := c.fptr + SS * c.g.csize), clst);
    fp.clust := clst;
    fp.ck := fp.ck + 1;
    fp.fptr := fp.fptr + SS * fp.fs.g.csize;
    SameFileTransitive(a, b, c);
    SameFileTransitive(a, c, fp.Cur());
  }

  /** The end of the walk: rest bytes into the cluster, with the sector of the position in the
      buffer unless the position is on a boundary. */
  method SeekInto(fp: Fil, rest: nat) returns (res: FResult)
    requires fp.Mid() && AtStart(fp.Cur()) && 0 < rest <= SS * fp.fs.g.csize && fp.fptr + rest < WORD
    modifies fp`fptr, fp`dirty, fp`dsect, fp.buf, fp.fs.disk
    ensures Kept(fp.fs)
    ensures res.FR_OK? || (res.FR_DISK_ERR? && fp.fs.disk.faulted)
    ensures res.FR_OK? ==> fp.Mid() && fp.Cur().Placed() && SameFile(old(fp.Cur()), fp.Cur())
                           && fp.fptr == old(fp.fptr) + rest && fp.fs.Fat() == old(fp.fs.Fat())
                           && fp.sects == old(fp.sects)
  {
    hide Fatfs.Valid, Fatfs.View, Fatfs.Img, Fatfs.Mirrored, Geometry.Fits, Frame, SameSectors, SameFile,
         Cursor.Base, Cursor.Placed, AtStart;
    ghost var a := fp.Cur();
    SeekIn(a, a.(fptr := a.fptr + rest), rest);
    res := FR_OK;
    var nsect := 0;
    fp.fptr := fp.fptr + rest;
    if rest % SS != 0 {
      nsect := Clust2Sect(fp.fs.g, fp.clust);
      if nsect == 0 {
        return FR_INT_ERR;
      }
      nsect := nsect + rest / SS;
    }
    if fp.fptr % SS != 0 {
      res := Fetch(fp, nsect, a);
    }
  }

  /** Brings the sector of the position into the buffer. */
  method Fetch(fp: Fil, nsect: nat, ghost a: Cursor) returns (res: FResult)
    requires fp.Mid() && SameFile(a, fp.Cur()) && Settled(fp.Cur()) && fp.fptr % SS != 0
    requires nsect == fp.sects[fp.fptr / SS]
    modifies fp`dirty, fp`dsect, fp.buf, fp.fs.disk
    ensures Kept(fp.fs)
    ensures res.FR_OK? || (res.FR_DISK_ERR? && fp.fs.disk.faulted)
    ensures res.FR_OK? ==> fp.Mid() && fp.Cur().Placed() && SameFile(a, fp.Cur()) && fp.fs.Fat() == old(fp.fs.Fat())
  {
    hide Fatfs.Valid, Fatfs.View, Fatfs.Img, Fatfs.Mirrored, Fil.Cur, Geometry.Fits, Frame, SameSectors, SameFile,
         Cursor.Base, Cursor.Placed;
    ghost var b := fp.Cur();
    res := FR_OK;
    var ok := HoldSector(fp, nsect);
    if ok {
      SeekHeld(fp.Cur());
      SameFileTransitive(a, b, fp.Cur());
    } else {
      res := FR_DISK_ERR;
    }
  }

  /** f_lseek up to the new file size. */
  method SeekTo(fp: Fil, ofs: nat) returns (res: FResult)
    requires fp.Valid() && ofs < WORD && (!fp.writable ==> ofs <= fp.fsize)
    modifies fp.fs`winsect, fp.fs`wflag, fp.fs`lastClust, fp.fs`freeClust, fp.fs`fsiDirty, fp.fs.win, fp.fs.disk
    modifies fp`sclust, fp`chain, fp`sects, fp`clust, fp`ck, fp`fptr, fp`dirty, fp`dsect, fp.buf
    ensures Kept(fp.fs)
    ensures res.FR_OK? || (res.FR_DISK_ERR? && fp.fs.disk.faulted) || (res.FR_INT_ERR? && Illegal(fp.fs.Fat()))
    ensures res.FR_OK? ==> fp.Mid() && fp.Cur().Placed() && SameFile(old(fp.Cur()), fp.Cur())
                           && (old(CountOk(fp.fs)) ==> CountOk(fp.fs))
    ensures res.FR_OK? ==> fp.fptr == ofs || Full(fp, ofs, fp.fptr)
    ensures res.FR_OK? && !fp.writable ==> fp.fs.Fat() == old(fp.fs.Fat())
  {
    hide Fatfs.Valid, Fatfs.View, Fatfs.Img, Fatfs.Mirrored, Fil.Cur, Geometry.Fits, Frame, SameSectors, SameFile,
         Cursor.Base, AtStart, Cursor.Linked;
    ghost var a := fp.Cur();
    if ofs == 0 {
      Rewind(fp);
      return FR_OK;
    }
    HasCluster(a);
    var clst, rest;
    res, clst, rest := SeekStart(fp, ofs, fp.fptr);
    if res != FR_OK || clst == 0 {
      return;
    }
    ghost var b := fp.Cur();
    res, rest := SeekLoop(fp, rest);
    if res != FR_OK {
      return;
    }
    ghost var c := fp.Cur();
    SameFileTransitive(a, b, c);
    res := SeekInto(fp, rest);
    if res.FR_OK? {
      SameFileTransitive(a, c, fp.Cur());
    }
  }

  lemma HasCluster(a: Cursor)
    requires a.Linked() && a.Base()
    ensures a.fsize > 0 ==> a.chain != []
  {
  }

  method Rewind(fp: Fil)
    requires fp.Mid()
    modifies fp`fptr
    ensures fp.Mid() && fp.Cur().Placed() && fp.fptr == 0 && SameFile(old(fp.Cur()), fp.Cur())
    ensures fp.fs.View() == old(fp.fs.View()) && Kept(fp.fs)
  {
    hide Fatfs.Valid, Fatfs.View, Fatfs.Img, Fatfs.Mirrored, Geometry.Fits, Frame, SameSectors, SameFile,
         Cursor.Base;
    ghost var a := fp.Cur();
    Rewound(a, a.(fptr := 0));
    fp.fptr := 0;
  }

  /** The effect of a seek to ofs: the position is there, or at the end of the file's space
      when the volume is full; the file is as before, extended if the position lies behind its
      end. The bytes an extension uncovers are unspecified. */
  twostate predicate Sought(fp: Fil, ofs: nat)
    requires old(fp.Valid())
    reads fp, fp.buf, fp.fs`winsect, fp.fs`wflag, fp.fs`lastClust, fp.fs`freeClust, fp.fs`fsiDirty, fp.fs.win,
          fp.fs.disk
  {
    && fp.Valid()
    && (fp.fptr == ofs || Full(fp, ofs, fp.fptr))
    && fp.fsize == (if fp.fptr > old(fp.fsize) then fp.fptr else old(fp.fsize))
    && fp.Bytes()[..old(fp.fsize)] == old(fp.Bytes())
    && Frame(old(fp.Cur()), fp.Cur())
  }

  /** f_lseek. In read-only mode the target is clipped to the size of the file and the table
      stays; in write mode the file is stretched as far as the volume allows. */
  method FLseek(fp: Fil, ofs: nat) returns (res: FResult)
    requires fp.Ready() && ofs < WORD
    modifies fp.fs`winsect, fp.fs`wflag, fp.fs`lastClust, fp.fs`freeClust, fp.fs`fsiDirty, fp.fs.win, fp.fs.disk
    modifies fp`sclust, fp`chain, fp`sects, fp`clust, fp`ck, fp`fptr, fp`dirty, fp`dsect, fp`fsize, fp`written,
             fp`err, fp.buf
    ensures Kept(fp.fs) && fp.Ready()
    ensures !old(fp.err).FR_OK? ==> res == old(fp.err) == fp.err && fp.Cur() == old(fp.Cur())
    ensures old(fp.err).FR_OK? ==>
              && fp.err == res
              && (res.FR_OK? || (res.FR_DISK_ERR? && fp.fs.disk.faulted) || (res.FR_INT_ERR? && Illegal(fp.fs.Fat())))
    ensures res.FR_OK? ==> Sought(fp, if !fp.writable && ofs > old(fp.fsize) then old(fp.fsize) else ofs)
    ensures res.FR_OK? && !fp.writable ==> fp.fs.Fat() == old(fp.fs.Fat()) && fp.fsize == old(fp.fsize)
    ensures res.FR_OK? && old(CountOk(fp.fs)) ==> CountOk(fp.fs)
    ensures fp.written == (old(fp.written) || (res.FR_OK? && fp.fptr > old(fp.fsize)))
  {
    hide Fatfs.Valid, Fatfs.View, Fatfs.Img, Fatfs.Mirrored, Fil.Cur, Geometry.Fits, Frame, SameSectors, SameFile,
         Cursor.Base, Cursor.Placed;
    if fp.err != FR_OK {
      return fp.err;
    }
    ghost var a := fp.Cur();
    var target := ofs;
    if ofs > fp.fsize && !fp.writable {
      target := fp.fsize;
    }
    res := SeekTo(fp, target);
    if res != FR_OK {
      fp.err := res;
      return;
    }
    Extend(fp, a);
  }

  /** The new size and the change flag. */
  method Extend(fp: Fil, ghost a: Cursor)
    requires fp.Mid() && fp.Cur().Placed() && SameFile(a, fp.Cur()) && a.fptr <= a.fsize
    modifies fp`fsize, fp`written
    ensures fp.Valid() && Frame(a, fp.Cur())
    ensures fp.fsize == if fp.fptr > a.fsize then fp.fptr else a.fsize
    ensures fp.Bytes()[..a.fsize] == a.Bytes()
    ensures fp.written == (old(fp.written) || fp.fptr > a.fsize)
  {
    hide Fatfs.Valid, Fatfs.View, Fatfs.Img, Fatfs.Mirrored, Fil.Cur, Geometry.Fits, Frame, SameSectors, SameFile,
         Cursor.Base, Cursor.Linked, Cursor.Placed;
    ghost var c := fp.Cur();
    if fp.fptr > fp.fsize {
      fp.fsize := fp.fptr;
      fp.written := true;
    }
    SeekBytes(a, c, fp.Cur());
    Resized(c, fp.Cur());
  }
}
