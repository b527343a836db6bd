/** The disk access window of FATFS: write-back and reload. */
module Window {
  import opened Bits
  import opened Disk
  import opened Volume

  /** The mirror loop of sync_window: repeats a window just written on every further FAT
      copy. The answers of these writes are ignored, as in the source. */
  method Reflect(g: Geometry, disk: Drive, win: seq<byte>, sect: nat)
    requires |win| == SS && g.Fits(|disk.sectors|) && g.InFat(sect)
    modifies disk
    ensures Agree(old(disk.sectors), disk.sectors, g)
    ensures old(disk.faulted) ==> disk.faulted
    ensures !disk.faulted && g.nFats == 2 ==> disk.sectors == old(disk.sectors)[sect + g.fsize := win]
  {
    var wsect, nf := sect, g.nFats;
    while nf >= 2
      invariant 1 <= nf <= g.nFats
      invariant nf == g.nFats ==> wsect == sect && disk.sectors == old(disk.sectors)
      invariant Agree(old(disk.sectors), disk.sectors, g)
      invariant old(disk.faulted) ==> disk.faulted
      invariant !disk.faulted && nf == 1 && g.nFats == 2 ==>
          disk.sectors == old(disk.sectors)[sect + g.fsize := win]
    {
      wsect := Add32(wsect, g.fsize);
      assert wsect == sect + g.fsize && g.InMirror(wsect);
      var _ := disk.Write(wsect, [win]);
      nf := nf - 1;
    }
  }

  /** sync_window: writes a dirty window back, and to the second FAT when it holds a FAT
      sector. */
  method SyncWindow(fs: Fatfs) returns (res: FResult)
    requires fs.Valid()
    modifies fs`wflag, fs.disk
    ensures fs.Valid() && |fs.disk.sectors| == |old(fs.disk.sectors)|
    ensures Agree(old(fs.Img()), fs.Img(), fs.g) && fs.View() == old(fs.View())
    ensures res.FR_OK? ==> !fs.wflag
    ensures res.FR_OK? || (res.FR_DISK_ERR? && fs.disk.faulted && fs.wflag && old(fs.wflag))
    ensures old(fs.disk.faulted) ==> fs.disk.faulted
    ensures !old(fs.wflag) ==> !fs.wflag && fs.disk.sectors == old(fs.disk.sectors)
    ensures !fs.disk.faulted && old(fs.Mirrored()) ==> fs.Mirrored()
  {
    hide Geometry.Fits, ViewOf;
    res := FR_OK;
    ghost var before := fs.Img();
    if fs.wflag {
      var wsect := fs.winsect;
      var ok := fs.disk.Write(wsect, [fs.win[..]]);
      if !ok {
        res := FR_DISK_ERR;
      } else {
        assert fs.disk.sectors == before;
        RangeTest(wsect, fs.g.fatbase, fs.g.fsize);
        if Sub32(wsect, fs.g.fatbase) < fs.g.fsize {
          Reflect(fs.g, fs.disk, fs.win[..], wsect);
        }
        fs.wflag := false;
      }
    }
    assert Agree(before, fs.Img(), fs.g);
    AgreeSameView(before, fs.Img(), fs.g);
  }

  /** move_window: makes a sector appear in the window. */
  method MoveWindow(fs: Fatfs, sector: nat) returns (res: FResult)
    requires fs.Valid()
    requires sector != NONE
    modifies fs`winsect, fs`wflag, fs.win, fs.disk
    ensures fs.Valid() && |fs.disk.sectors| == |old(fs.disk.sectors)|
    ensures Agree(old(fs.Img()), fs.Img(), fs.g) && fs.View() == old(fs.View())
    ensures res.FR_OK? ==> fs.winsect == sector < |fs.disk.sectors| && fs.win[..] == fs.Img()[sector]
    ensures res.FR_OK? || (res.FR_DISK_ERR? && fs.disk.faulted)
    ensures res.FR_OK? && sector == old(fs.winsect) ==>
              fs.wflag == old(fs.wflag) && fs.win[..] == old(fs.win[..])
    ensures old(fs.disk.faulted) ==> fs.disk.faulted
    ensures !old(fs.wflag) ==> !fs.wflag && fs.disk.sectors == old(fs.disk.sectors)
    ensures !fs.disk.faulted && old(fs.Mirrored()) ==> fs.Mirrored()
  {
    res := FR_OK;
    if sector != fs.winsect {
      res := SyncWindow(fs);
      if res.FR_OK? {
        var sect := sector;
        ghost var img := fs.Img();
        var ok, data := fs.disk.Read(sect, 1);
        MemCpy(fs.win, 0, data[0]);
        if !ok {
          sect := NONE;
          res := FR_DISK_ERR;
        }
        fs.winsect := sect;
        assert fs.Img() == img;
      }
    }
  }
}
