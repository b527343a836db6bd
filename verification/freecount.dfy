/** Counting the free clusters of a volume: f_getfree behind find_volume. */
module FreeCount {
  import opened Bits
  import opened Disk
  import opened Volume
  import opened Window
  import opened FatTable
  import opened Chains
  import opened Allocator

  /** How many of the entries lo..hi-1 are zero. */
  ghost function Zeros(f: seq<nat>, lo: nat, hi: nat): nat
    requires lo <= hi <= |f|
  {
    if lo == hi then 0 else Zeros(f, lo, hi - 1) + (if f[hi - 1] == 0 then 1 else 0)
  }

  lemma {:induction false} ZerosAreFree(f: seq<nat>, n: nat)
    requires 2 <= n <= |f|
    ensures Zeros(f, 2, n) == |set c | 2 <= c < n && f[c] == 0|
  {
    if n > 2 {
      ZerosAreFree(f, n - 1);
      var a, b := set c | 2 <= c < n - 1 && f[c] == 0, set c | 2 <= c < n && f[c] == 0;
      assert b == if f[n - 1] == 0 then a + {n - 1} else a;
    }
  }

  lemma {:induction false} ZerosSplit(f: seq<nat>, n: nat)
    requires 2 <= n <= |f|
    ensures Zeros(f, 0, n) == Zeros(f, 2, n) + (if f[0] == 0 then 1 else 0) + (if f[1] == 0 then 1 else 0)
  {
    if n > 2 {
      ZerosSplit(f, n - 1);
    } else {
      assert Zeros(f, 0, 2) == Zeros(f, 0, 1) + (if f[1] == 0 then 1 else 0);
    }
  }

  /** What the accelerated scan counts, against the number of free clusters: the same exactly
      when the two entries that belong to no cluster are in use. */
  lemma ScanCount(f: seq<nat>)
    requires |f| >= 2
    ensures Zeros(f, 2, |f|) == |Free(f)|
    ensures Zeros(f, 0, |f|) == |Free(f)| <==> f[0] != 0 && f[1] != 0
    ensures Zeros(f, 0, |f|) <= |Free(f)| + 2
  {
    ZerosAreFree(f, |f|);
    assert Free(f) == set c | 2 <= c < |f| && f[c] == 0;
    ZerosSplit(f, |f|);
  }

  /** On a table of any volume with so many clusters as FAT16 and FAT32 have, all of them free, the scan
      counts one cluster too many if the first entry is zero. */
  lemma ScanOvercounts(n: nat)
    requires n >= 4088
    ensures var f := seq(n, c => if c == 1 then 0xFFFF else 0);
      Zeros(f, 0, n) == |Free(f)| + 1 && |Free(f)| == n - 2
  {
    var f: seq<nat> := seq(n, c => if c == 1 then 0xFFFF else 0);
    ScanCount(f);
    ZerosSplit(f, n);
    AllZeros(f, n);
  }

  lemma {:induction false} AllZeros(f: seq<nat>, n: nat)
    requires 2 <= n <= |f| && forall c :: 2 <= c < n ==> f[c] == 0
    ensures Zeros(f, 2, n) == n - 2
  {
    if n > 2 {
      AllZeros(f, n - 1);
    }
  }

  /** Bytes of an entry on FAT16 and FAT32, and where entry c starts. */
  function Offset(g: Geometry, c: nat): nat {
    if g.fsType.FAT16? then 2 * c else 4 * c
  }

  /** The test the scan makes on the entry at offset p of the window. */
  function IsZeroAt(fsType: FsType, win: seq<byte>, p: nat): bool
    requires p + (if fsType.FAT16? then 2 else 4) <= |win|
  {
    if fsType.FAT16? then LdWord(win[p], win[p + 1]) == 0 else DwordAt(win, p) % 0x1000_0000 == 0
  }

  /** An aligned entry lies in one sector of the volume, and the scan's test is whether it is
      zero. */
  lemma EntryInWindow(img: seq<Sector>, g: Geometry, c: nat)
    requires g.Fits(|img|) && c < g.nFatent && !g.fsType.FAT12?
    ensures g.fatbase + Offset(g, c) / SS < |img| < NONE
    ensures Offset(g, c) % SS + (if g.fsType.FAT16? then 2 else 4) <= SS
    ensures IsZeroAt(g.fsType, img[g.fatbase + Offset(g, c) / SS], Offset(g, c) % SS) <==> Entry(img, g, c) == 0
  {
    if g.fsType.FAT16? {
      Aligned16(img, g, c);
    } else {
      hide LdDword, DwordAt, Reserved;
      Aligned32(img, g, c);
    }
  }

  lemma Aligned16(img: seq<Sector>, g: Geometry, c: nat)
    requires g.Fits(|img|) && c < g.nFatent && g.fsType.FAT16?
    ensures 2 * c % SS <= 510
    ensures var s, p := img[g.fatbase + 2 * c / SS], 2 * c % SS; Entry(img, g, c) == LdWord(s[p], s[p + 1])
  {
    assert (2 * c + 1) / SS == 2 * c / SS && (2 * c + 1) % SS == 2 * c % SS + 1;
  }

  /** The entry-by-entry loop for FAT12. */
  method CountEntries(fs: Fatfs) returns (res: FResult, nfree: nat)
    requires fs.Valid()
    modifies fs`winsect, fs`wflag, fs.win, fs.disk
    ensures Kept(fs) && fs.View() == old(fs.View())
    ensures res.FR_OK? || (res.FR_DISK_ERR? && fs.disk.faulted)
            || (res.FR_INT_ERR? && Illegal(fs.Fat()))
    ensures res.FR_OK? ==> nfree == |Free(fs.Fat())| && !Illegal(fs.Fat())
  {
    hide Fatfs.Valid, Fatfs.View, Fatfs.Img, Fatfs.Mirrored, Geometry.Fits;
    ghost var f := fs.Fat();
    ScanCount(f);
    res, nfree := FR_OK, 0;
    var clst := 2;
    while clst < fs.g.nFatent
      invariant 2 <= clst <= fs.g.nFatent && res.FR_OK?
      invariant Kept(fs) && fs.View() == old(fs.View())
      invariant nfree == Zeros(f, 2, clst)
      invariant forall c :: 2 <= c < clst ==> f[c] != 1
    {
      var stat := GetFat(fs, clst);
      if stat == NONE {
        return FR_DISK_ERR, nfree;
      }
      if stat == 1 {
        assert f[clst] == 1;
        return FR_INT_ERR, nfree;
      }
      if stat == 0 {
        nfree := nfree + 1;
      }
      clst := clst + 1;
    }
  }

  /** The sector scan for FAT16 and FAT32: it walks over all nFatent entries, the first two
      included. */
  method ScanSectors(fs: Fatfs) returns (res: FResult, nfree: nat)
    requires fs.Valid() && !fs.g.fsType.FAT12?
    modifies fs`winsect, fs`wflag, fs.win, fs.disk
    ensures Kept(fs) && fs.View() == old(fs.View())
    ensures res.FR_OK? || (res.FR_DISK_ERR? && fs.disk.faulted)
    ensures res.FR_OK? ==> nfree == Zeros(fs.Fat(), 0, fs.g.nFatent)
  {
    hide Fatfs.Valid, Fatfs.View, Fatfs.Img, Fatfs.Mirrored, Geometry.Fits, Entry, IsZeroAt, Offset;
    ghost var f := fs.Fat();
    NoOffset(fs.g);
    var clst, sect := fs.g.nFatent, fs.g.fatbase;
    var i, p := 0, 0;
    res, nfree := FR_OK, 0;
    while clst > 0
      invariant 0 <= clst <= fs.g.nFatent && res.FR_OK?
      invariant Kept(fs) && fs.View() == old(fs.View())
      invariant nfree == Zeros(f, 0, fs.g.nFatent - clst)
      invariant Scanned(fs, fs.g.nFatent - clst, sect, i, p)
    {
      EntryInWindow(fs.Img(), fs.g, fs.g.nFatent - clst);
      if i == 0 {
        res := MoveWindow(fs, sect);
        sect := sect + 1;
        if res != FR_OK {
          return;
        }
        p, i := 0, SS;
      }
      var zero;
      zero, p, i := TestEntry(fs, fs.g.nFatent - clst, sect, i, p);
      if zero {
        nfree := nfree + 1;
      }
      clst := clst - 1;
    }
  }

  lemma NoOffset(g: Geometry)
    ensures Offset(g, 0) == 0
  {
  }

  /** Tests entry c in the window and moves on to the next. */
  method TestEntry(fs: Fatfs, ghost c: nat, sect: nat, i: nat, p: nat) returns (zero: bool, p': nat, i': nat)
    requires fs.Valid() && !fs.g.fsType.FAT12? && c < fs.g.nFatent
    requires Scanned(fs, c, sect, i, p) && i > 0
    ensures zero <==> fs.Fat()[c] == 0
    ensures Scanned(fs, c + 1, sect, i', p')
  {
    hide Fatfs.Valid, Fatfs.View, Fatfs.Img, Fatfs.Mirrored, Geometry.Fits, IsZeroAt, Entry, Offset;
    ghost var off := Offset(fs.g, c);
    EntryInWindow(fs.Img(), fs.g, c);
    FatEntry(fs, c);
    NextOffset(fs.g, c);
    zero := IsZeroAt(fs.g.fsType, fs.win[..], p);
    if fs.g.fsType.FAT16? {
      p', i' := p + 2, i - 2;
    } else {
      p', i' := p + 4, i - 4;
    }
  }

  /** Where the next entry starts. */
  lemma NextOffset(g: Geometry, c: nat)
    requires !g.fsType.FAT12?
    ensures var off, next, w := Offset(g, c), Offset(g, c + 1), if g.fsType.FAT16? then 2 else 4;
      if off % SS + w == SS then next % SS == 0 && next / SS == off / SS + 1
      else off % SS + w < SS && next % SS == off % SS + w && next / SS == off / SS
  {
    if g.fsType.FAT16? {
      NextAligned(2 * c, 2);
    } else {
      NextAligned(4 * c, 4);
    }
  }

  lemma NextAligned(off: nat, w: nat)
    requires (w == 2 && off % 2 == 0) || (w == 4 && off % 4 == 0)
    ensures if off % SS + w == SS then (off + w) % SS == 0 && (off + w) / SS == off / SS + 1
            else off % SS + w < SS && (off + w) % SS == off % SS + w && (off + w) / SS == off / SS
  {
    var q, r := off / SS, off % SS;
    if w == 2 {
      assert r == 2 * (off / 2 - 256 * q);
    } else {
      assert r == 4 * (off / 4 - 128 * q);
    }
    if r + w == SS {
      RemainderIs(off + w, SS, q + 1, 0);
    } else {
      RemainderIs(off + w, SS, q, r + w);
    }
  }

  /** The state of the scan before entry c: i bytes of the window are left, from offset p on. */
  ghost predicate Scanned(fs: Fatfs, c: nat, sect: nat, i: nat, p: nat)
    requires fs.Valid()
    reads fs`winsect, fs`wflag, fs.win, fs.disk
  {
    var off := Offset(fs.g, c);
    if i == 0 then off % SS == 0 && sect == fs.g.fatbase + off / SS
    else
      && i + p == SS && p == off % SS
      && sect == fs.g.fatbase + off / SS + 1
      && fs.winsect == sect - 1 < |fs.disk.sectors| && fs.win[..] == fs.Img()[fs.winsect]
  }

  /** f_getfree on a mounted volume: the stored count if it can be one, otherwise a count of
      the table, which becomes the stored one. On FAT16 and FAT32 the new count is exact if and
      only if the two entries that belong to no cluster are in use. */
  method GetFree(fs: Fatfs) returns (res: FResult, nclst: nat)
    requires fs.Valid()
    modifies fs`winsect, fs`wflag, fs`freeClust, fs`fsiDirty, fs.win, fs.disk
    ensures Kept(fs) && fs.View() == old(fs.View())
    ensures old(fs.freeClust) <= fs.g.nFatent - 2 ==>
              res.FR_OK? && nclst == old(fs.freeClust) == fs.freeClust && fs.fsiDirty == old(fs.fsiDirty)
    ensures res.FR_OK? || (res.FR_DISK_ERR? && fs.disk.faulted) || (res.FR_INT_ERR? && Illegal(fs.Fat()))
    ensures old(fs.freeClust) > fs.g.nFatent - 2 ==> fs.freeClust == nclst && fs.fsiDirty
    ensures res.FR_OK? && old(fs.freeClust) > fs.g.nFatent - 2 ==>
              if fs.g.fsType.FAT12? then nclst == |Free(fs.Fat())| && !Illegal(fs.Fat())
              else nclst == |Free(fs.Fat())| <==> fs.Fat()[0] != 0 && fs.Fat()[1] != 0
    ensures res.FR_OK? && old(CountOk(fs)) && fs.Fat()[0] != 0 && fs.Fat()[1] != 0 ==>
              nclst == |Free(fs.Fat())| && CountOk(fs)
  {
    hide Fatfs.Valid, Fatfs.View, Fatfs.Img, Fatfs.Mirrored, Geometry.Fits;
    if fs.freeClust <= fs.g.nFatent - 2 {
      return FR_OK, fs.freeClust;
    }
    ScanCount(fs.Fat());
    if fs.g.fsType.FAT12? {
      res, nclst := CountEntries(fs);
    } else {
      res, nclst := ScanSectors(fs);
    }
    fs.freeClust := nclst;
    fs.fsiDirty := true;
  }
}
