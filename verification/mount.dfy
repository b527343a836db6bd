/** Mounting: the layout of a volume, computed by find_volume from the boot sector in 32-bit
    arithmetic. */
module Mount {
  import opened Bits
  import opened Disk
  import opened Volume
  import opened Window
  import opened FatTable
  import opened Chains
  import opened Allocator

  /** The fields of the BIOS parameter block the mount code looks at. */
  datatype Bpb = Bpb(
    bytsPerSec: nat, secPerClus: nat, rsvdSecCnt: nat, numFats: nat, rootEntCnt: nat,
    totSec: nat, fatSz: nat, rootClus: nat)
  {
    /** What the widths of the fields allow. */
    predicate Typed() {
      && bytsPerSec < 0x1_0000 && secPerClus < 0x100 && rsvdSecCnt < 0x1_0000 && numFats < 0x100
      && rootEntCnt < 0x1_0000 && totSec < WORD && fatSz < WORD && rootClus < WORD
    }

    /** The sectors before the first cluster: reserved area, FATs and root directory. */
    function Sys(): nat {
      rsvdSecCnt + numFats * fatSz + rootEntCnt / 16
    }

    /** The clusters behind them. */
    function Clusters(): nat
      requires Sys() <= totSec && secPerClus > 0
    {
      (totSec - Sys()) / secPerClus
    }
  }

  function WordAt(s: seq<byte>, p: nat): (r: nat)
    requires p + 1 < |s|
    ensures r < 0x1_0000
  {
    LdWord(s[p], s[p + 1])
  }

  /** The parameter block in a boot sector (section "Boot Sector and BPB Structure" of the FAT32
      File System Specification). */
  function Parse(win: Sector): (b: Bpb)
    ensures b.Typed()
  {
    Bpb(WordAt(win, 11), win[13], WordAt(win, 14), win[16], WordAt(win, 17),
        if WordAt(win, 19) != 0 then WordAt(win, 19) else DwordAt(win, 32),
        if WordAt(win, 22) != 0 then WordAt(win, 22) else DwordAt(win, 36),
        DwordAt(win, 44))
  }

  const MIN_FAT16 := 4086
  const MIN_FAT32 := 65526

  function SubType(nclst: nat): FsType {
    if nclst >= MIN_FAT32 then FAT32 else if nclst >= MIN_FAT16 then FAT16 else FAT12
  }

  /** Bytes the FAT entries of n - 2 clusters need. */
  function NeededBytes(t: FsType, n: nat): nat {
    match t
    case FAT12 => n + n / 2 + n % 2
    case FAT16 => 2 * n
    case FAT32 => 4 * n
  }

  /** A volume FatFs supports, in plain numbers. */
  ghost predicate WellFormed(b: Bpb) {
    && b.bytsPerSec == SS && 1 <= b.numFats <= 2 && b.secPerClus > 0 && IsPow2(b.secPerClus)
    && b.rootEntCnt % 16 == 0 && b.rsvdSecCnt > 0
    && b.Sys() <= b.totSec && b.Clusters() > 0
    && (SubType(b.Clusters()).FAT32? <==> b.rootEntCnt == 0)
    && NeededBytes(SubType(b.Clusters()), b.Clusters() + 2) <= SS * b.fatSz
  }

  /** Where the data start inside the volume, and the clusters, as the source computes them. */
  function Sys32(b: Bpb): nat {
    Add32(Add32(b.rsvdSecCnt, Mul32(b.fatSz, b.numFats)), b.rootEntCnt / 16)
  }

  function Clusters32(b: Bpb): nat
    requires Sys32(b) <= b.totSec && b.secPerClus > 0
  {
    (b.totSec - Sys32(b)) / b.secPerClus
  }

  function Needed32(t: FsType, n: nat): nat {
    match t
    case FAT12 => n * 3 / 2 + And(n, 1)
    case FAT16 => Mul32(n, 2)
    case FAT32 => Mul32(n, 4)
  }

  /** The boot sectors find_volume accepts. */
  ghost predicate Accepts(b: Bpb) {
    && b.bytsPerSec == SS && (b.numFats == 1 || b.numFats == 2)
    && b.secPerClus > 0 && And(b.secPerClus, b.secPerClus - 1) == 0
    && b.rootEntCnt % 16 == 0 && b.rsvdSecCnt > 0
    && Sys32(b) <= b.totSec && Clusters32(b) > 0
    && (SubType(Clusters32(b)).FAT32? <==> b.rootEntCnt == 0)
    && Add32(Needed32(SubType(Clusters32(b)), Add32(Clusters32(b), 2)), SS - 1) / SS <= b.fatSz
  }

  /** The geometry find_volume stores. */
  ghost function Stored32(b: Bpb, bsect: nat): Geometry
    requires Accepts(b)
  {
    var t, fatbase := SubType(Clusters32(b)), Add32(bsect, b.rsvdSecCnt);
    Geometry(t, b.secPerClus, b.numFats, b.rootEntCnt, Add32(Clusters32(b), 2), b.fatSz, bsect, fatbase,
             if t.FAT32? then b.rootClus else Add32(fatbase, Mul32(b.fatSz, b.numFats)),
             Add32(bsect, Sys32(b)))
  }

  /** The geometry in plain arithmetic. */
  ghost function Plan(b: Bpb, bsect: nat): Geometry
    requires WellFormed(b)
  {
    var t, fatbase := SubType(b.Clusters()), bsect + b.rsvdSecCnt;
    Geometry(t, b.secPerClus, b.numFats, b.rootEntCnt, b.Clusters() + 2, b.fatSz, bsect, fatbase,
             if t.FAT32? then b.rootClus else fatbase + b.numFats * b.fatSz,
             bsect + b.Sys())
  }

  /** The layout part of find_volume, on uint32_t. */
  method Layout(b: Bpb, bsect: nat) returns (res: FResult, g: Geometry)
    requires b.Typed() && bsect < WORD
    ensures res in {FR_OK, FR_NO_FILESYSTEM}
    ensures res.FR_OK? <==> Accepts(b)
    ensures res.FR_OK? ==> g == Stored32(b, bsect)
  {
    res := FR_NO_FILESYSTEM;
    g := Geometry(FAT12, 0, 0, 0, 0, 0, 0, 0, 0, 0);
    if b.bytsPerSec != SS {
      return;
    }
    var fasize := b.fatSz;
    if b.numFats != 1 && b.numFats != 2 {
      return;
    }
    fasize := Mul32(fasize, b.numFats);
    if b.secPerClus == 0 || And(b.secPerClus, b.secPerClus - 1) != 0 {
      return;
    }
    if b.rootEntCnt % 16 != 0 {
      return;
    }
    if b.rsvdSecCnt == 0 {
      return;
    }
    var sysect := Add32(Add32(b.rsvdSecCnt, fasize), b.rootEntCnt / 16);
    if b.totSec < sysect {
      return;
    }
    var nclst := (b.totSec - sysect) / b.secPerClus;
    if nclst == 0 {
      return;
    }
    var fmt := FAT12;
    if nclst >= MIN_FAT16 {
      fmt := FAT16;
    }
    if nclst >= MIN_FAT32 {
      fmt := FAT32;
    }
    var nFatent := Add32(nclst, 2);
    var fatbase, database := Add32(bsect, b.rsvdSecCnt), Add32(bsect, sysect);
    var dirbase, szbfat;
    if fmt == FAT32 {
      if b.rootEntCnt != 0 {
        return;
      }
      dirbase := b.rootClus;
      szbfat := Mul32(nFatent, 4);
    } else {
      if b.rootEntCnt == 0 {
        return;
      }
      dirbase := Add32(fatbase, fasize);
      szbfat := if fmt == FAT16 then Mul32(nFatent, 2) else nFatent * 3 / 2 + And(nFatent, 1);
    }
    if b.fatSz < Add32(szbfat, SS - 1) / SS {
      return;
    }
    res := FR_OK;
    g := Geometry(fmt, b.secPerClus, b.numFats, b.rootEntCnt, nFatent, b.fatSz, bsect, fatbase, dirbase, database);
  }

  lemma OneOrTwo(n: nat, x: nat)
    requires n == 1 || n == 2
    ensures n * x == if n == 2 then x + x else x
  {
  }

  /** Where nothing wraps, the source's sum is the true one. */
  lemma SysExact(b: Bpb)
    requires b.Typed() && 1 <= b.numFats <= 2 && b.Sys() < WORD
    ensures Sys32(b) == b.Sys() && Mul32(b.fatSz, b.numFats) == b.numFats * b.fatSz
  {
    OneOrTwo(b.numFats, b.fatSz);
  }

  /** Enough sectors for so many bytes. */
  lemma Enough(bytes: nat, sectors: nat)
    ensures (bytes + SS - 1) / SS <= sectors <==> bytes <= SS * sectors
  {
  }

  lemma NeededExact(t: FsType, n: nat)
    requires n <= 0x0FFF_FFF7
    ensures Add32(Needed32(t, n), SS - 1) == NeededBytes(t, n) + SS - 1
  {
    OddBit(n);
    hide And;
    assert n * 3 / 2 == n + n / 2;
  }

  lemma OddBit(n: nat)
    ensures And(n, 1) == n % 2
  {
    AndZero(n / 2);
  }

  /** On a volume whose sums do not wrap, what is accepted is exactly what is well formed. */
  lemma AcceptsWellFormed(b: Bpb)
    requires b.Typed() && b.Sys() < WORD
    requires b.secPerClus > 0 && b.Sys() <= b.totSec ==> b.Clusters() + 2 <= 0x0FFF_FFF7
    ensures Accepts(b) <==> WellFormed(b)
  {
    hide And, IsPow2, Needed32, NeededBytes, Sys32, Bpb.Sys, Clusters32, Bpb.Clusters, Add32, SubType;
    if 1 <= b.numFats <= 2 && b.secPerClus > 0 {
      PowerOfTwoTest(b.secPerClus);
      SysExact(b);
      if b.Sys() <= b.totSec {
        SameClusters(b);
        var t, n := SubType(b.Clusters()), b.Clusters() + 2;
        NoWrap(b.Clusters(), 2);
        NeededExact(t, n);
        Enough(NeededBytes(t, n), b.fatSz);
      }
    }
  }

  lemma SameClusters(b: Bpb)
    requires b.secPerClus > 0 && Sys32(b) == b.Sys() <= b.totSec
    ensures Clusters32(b) == b.Clusters()
  {
  }

  lemma {:induction false} SmallPower(n: nat)
    requires IsPow2(n) && n < 256
    ensures n in CSIZES
  {
    var k: nat :| n == Pow2(k);
    if k >= 8 {
      Pow2Sum(8, k - 8);
      assert Pow2(8) == 256;
      MulGap(256, Pow2(k - 8));
    } else {
      assert k == 0 || k == 1 || k == 2 || k == 3 || k == 4 || k == 5 || k == 6 || k == 7;
    }
  }

  /** In plain numbers a well-formed volume has its regions in order, disjoint, and inside the
      device. */
  lemma PlanFits(b: Bpb, bsect: nat, len: nat)
    requires b.Typed() && WellFormed(b) && bsect + b.totSec <= len < NONE && b.Clusters() + 2 <= 0x0FFF_FFF7
    ensures Plan(b, bsect).Fits(len)
  {
    SmallPower(b.secPerClus);
    OneOrTwo(b.numFats, b.fatSz);
    var n := b.Clusters();
    SpanIsProduct(n, b.secPerClus);
    assert n * b.secPerClus <= b.totSec - b.Sys();
    assert (b.rootEntCnt + 15) / 16 == b.rootEntCnt / 16;
  }

  /** Where no sum wraps, the stored geometry is the one in plain numbers. */
  lemma StoredIsPlan(b: Bpb, bsect: nat)
    requires b.Typed() && Accepts(b) && b.Sys() <= b.totSec && bsect + b.totSec < WORD
    requires b.Clusters() + 2 <= 0x0FFF_FFF7
    ensures WellFormed(b) && Stored32(b, bsect) == Plan(b, bsect)
  {
    AcceptsWellFormed(b);
    SysExact(b);
    SysParts(b);
    hide Accepts, WellFormed, And, IsPow2, Needed32, NeededBytes, Sys32, Bpb.Sys, Bpb.Clusters, Clusters32;
    var fats := b.numFats * b.fatSz;
    NoWrap(bsect, b.rsvdSecCnt);
    NoWrap(bsect, b.Sys());
    NoWrap(bsect + b.rsvdSecCnt, fats);
    NoWrap(b.Clusters(), 2);
    hide Add32;
  }

  lemma NoWrap(x: nat, y: nat)
    requires x + y < WORD
    ensures Add32(x, y) == x + y
  {
  }

  lemma SysParts(b: Bpb)
    requires b.Typed() && Accepts(b) && b.Sys() <= b.totSec && Sys32(b) == b.Sys()
    ensures 0 <= b.numFats * b.fatSz && b.rsvdSecCnt + b.numFats * b.fatSz <= b.Sys()
    ensures Clusters32(b) == b.Clusters()
  {
    OneOrTwo(b.numFats, b.fatSz);
  }

  /** The layout of an accepted volume is sound if and only if the sectors before its first
      cluster, summed without wrap-around, are no more than its total. */
  lemma LayoutSound(b: Bpb, bsect: nat, len: nat)
    requires b.Typed() && Accepts(b) && bsect + b.totSec <= len < NONE
    requires Clusters32(b) + 2 <= 0x0FFF_FFF7
    ensures Stored32(b, bsect).Fits(len) <==> b.Sys() <= b.totSec
    ensures b.Sys() <= b.totSec ==> WellFormed(b) && Stored32(b, bsect) == Plan(b, bsect)
  {
    if b.Sys() <= b.totSec {
      SysExact(b);
      StoredIsPlan(b, bsect);
      PlanFits(b, bsect, len);
    } else if Stored32(b, bsect).Fits(len) {
      FitsSums(b, bsect, len);
    }
  }

  lemma FitsSums(b: Bpb, bsect: nat, len: nat)
    requires b.Typed() && Accepts(b) && bsect + b.totSec <= len < NONE
    requires Stored32(b, bsect).Fits(len)
    ensures b.Sys() <= b.totSec
  {
    OneOrTwo(b.numFats, b.fatSz);
    NoWrap(bsect, Sys32(b));
    Roots(b.rootEntCnt);
    if bsect + b.rsvdSecCnt < WORD {
      NoWrap(bsect, b.rsvdSecCnt);
    } else {
      OverflowTest(bsect, b.rsvdSecCnt);
    }
    hide Add32, Mul32, And, Needed32, SubType, Sys32, Clusters32;
  }

  lemma Roots(n: nat)
    requires n % 16 == 0
    ensures (n + 15) / 16 == n / 16
  {
  }

  /** Without that condition it is not: two FATs of 2^31 sectors sum to nothing in 32 bits, and
      the boot sector is accepted with its clusters inside the first FAT. */
  lemma WrappedLayout()
    ensures var b := Bpb(512, 1, 1, 2, 0, 65600, 0x8000_0000, 2);
      b.Typed() && Accepts(b) && b.Sys() > b.totSec
      && Stored32(b, 0).database == 1 == Stored32(b, 0).fatbase && Stored32(b, 0).FatEnd() == 0x1_0000_0001
  {
    AndZero(0);
    var b := Bpb(512, 1, 1, 2, 0, 65600, 0x8000_0000, 2);
    assert Mul32(b.fatSz, b.numFats) == 0;
    assert Sys32(b) == 1 && Clusters32(b) == 65599;
    assert And(1, 0) == 0;
    assert Add32(Needed32(FAT32, 65601), SS - 1) == 262404 + 511;
  }

  /** Every entry below nFatent, both bytes of a FAT12 entry included, lies in one FAT copy. */
  lemma EntriesInside(g: Geometry, len: nat, c: nat)
    requires g.Fits(len) && c < g.nFatent
    ensures match g.fsType
            case FAT12 => c + c / 2 + 1 < SS * g.fsize
            case FAT16 => 2 * c + 1 < SS * g.fsize
            case FAT32 => 4 * c + 3 < SS * g.fsize
  {
  }

  /** Whether the volume names an FSINFO sector, and whether that sector carries its signatures
      (section "FSInfo Sector Structure and Backup Boot Sector"). */
  predicate NamesInfo(t: FsType, boot: Sector) {
    t.FAT32? && WordAt(boot, 48) == 1
  }

  predicate IsInfo(s: Sector) {
    WordAt(s, 510) == 0xAA55 && DwordAt(s, 0) == 0x4161_5252 && DwordAt(s, 484) == 0x6141_7272
  }

  /** The free count and the last cluster a mount starts with: the words at offsets 488 and 492 of the
      FSINFO sector. */
  function InfoWord(sectors: seq<Sector>, t: FsType, bsect: nat, p: nat): nat
    requires bsect < |sectors| && p + 3 < SS
  {
    if NamesInfo(t, sectors[bsect]) && bsect + 1 < |sectors| && IsInfo(sectors[bsect + 1])
    then DwordAt(sectors[bsect + 1], p) else NONE
  }

  /** An accepted volume lies on the device, and its sums do not wrap. */
  ghost predicate OnDevice(b: Bpb, bsect: nat, len: nat) {
    && len < NONE
    && (Accepts(b) ==> bsect + b.totSec <= len && b.Sys() <= b.totSec)
    && (b.secPerClus > 0 && b.Sys() <= b.totSec ==> b.Clusters() + 2 <= 0x0FFF_FFF7)
  }

  /** The volume described by a boot sector, byte by byte: the fields at their offsets, lowest byte first, the
      16-bit counts of sectors and FAT sectors unless they are zero, and the type by the number of clusters. */
  lemma PlanBytes(s: Sector, bsect: nat) returns (g: Geometry, tot: nat, fat: nat, sys: nat)
    requires WellFormed(Parse(s))
    ensures g == Plan(Parse(s), bsect)
    ensures tot == if s[19] != 0 || s[20] != 0 then Pair(s[19], s[20]) else Dword(s[32], s[33], s[34], s[35])
    ensures fat == if s[22] != 0 || s[23] != 0 then Pair(s[22], s[23]) else Dword(s[36], s[37], s[38], s[39])
    ensures sys == Pair(s[14], s[15]) + (if s[16] == 2 then fat + fat else fat) + Pair(s[17], s[18]) / 16
    ensures s[11] == 0 && s[12] == 2 && g.csize == s[13] > 0 && g.nFats == s[16] && g.nRootdir == Pair(s[17], s[18])
    ensures g.fsize == fat && g.volbase == bsect && g.fatbase == bsect + Pair(s[14], s[15])
    ensures g.database == bsect + sys && sys <= tot && g.nFatent == (tot - sys) / g.csize + 2
    ensures g.fsType == if g.nFatent - 2 <= 4085 then FAT12 else if g.nFatent - 2 <= 65525 then FAT16 else FAT32
    ensures g.dirbase == if g.fsType.FAT32? then Dword(s[44], s[45], s[46], s[47])
                         else g.fatbase + (if s[16] == 2 then fat + fat else fat)
  {
    var b := Parse(s);
    g, tot, fat, sys := Plan(b, bsect), b.totSec, b.fatSz, b.Sys();
    OneOrTwo(b.numFats, b.fatSz);
  }

  /** A number of two bytes, the lower first. */
  function Pair(b0: byte, b1: byte): nat {
    b0 + 0x100 * b1
  }

  /** A number of four bytes, the lowest first. */
  function Dword(b0: byte, b1: byte, b2: byte, b3: byte): nat {
    b0 + 0x100 * b1 + 0x1_0000 * b2 + 0x100_0000 * b3
  }

  /** The FSINFO data, byte by byte. */
  lemma InfoBytes(boot: Sector, s: Sector, t: FsType)
    ensures NamesInfo(t, boot) <==> t.FAT32? && boot[48] == 1 && boot[49] == 0
    ensures IsInfo(s) <==> s[..4] == [0x52, 0x52, 0x61, 0x41] && s[484..488] == [0x72, 0x72, 0x41, 0x61]
                           && s[510..512] == [0x55, 0xAA]
    ensures InfoWord([boot, s], t, 0, 488)
            == if NamesInfo(t, boot) && IsInfo(s) then Dword(s[488], s[489], s[490], s[491]) else 0xFFFF_FFFF
    ensures InfoWord([boot, s], t, 0, 492)
            == if NamesInfo(t, boot) && IsInfo(s) then Dword(s[492], s[493], s[494], s[495]) else 0xFFFF_FFFF
  {
    Bytes4(s[0], s[1], s[2], s[3], 0x52, 0x52, 0x61, 0x41);
    Bytes4(s[484], s[485], s[486], s[487], 0x72, 0x72, 0x41, 0x61);
    assert s[..4] == [s[0], s[1], s[2], s[3]] && s[484..488] == [s[484], s[485], s[486], s[487]];
    assert s[510..512] == [s[510], s[511]];
  }

  lemma Bytes4(a: byte, b: byte, c: byte, d: byte, e: byte, f: byte, g: byte, h: byte)
    ensures Dword(a, b, c, d) == Dword(e, f, g, h) <==> [a, b, c, d] == [e, f, g, h]
  {
    if Dword(a, b, c, d) == Dword(e, f, g, h) {
      assert a == e && b == f && c == g && d == h;
    }
  }

  /** find_volume from the boot sector on. Exactly the well-formed volumes are mounted; with an
      accurate FSINFO sector, or none, the free count starts out right. */
  method FindVolume(disk: Drive, bsect: nat) returns (res: FResult, fs: Fatfs?)
    requires bsect < |disk.sectors| && OnDevice(Parse(disk.sectors[bsect]), bsect, |disk.sectors|)
    modifies disk
    ensures disk.sectors == old(disk.sectors)
    ensures res.FR_OK? || res.FR_NO_FILESYSTEM? || (res.FR_DISK_ERR? && disk.faulted)
    ensures !disk.faulted ==> (res.FR_OK? <==> Accepts(Parse(disk.sectors[bsect])))
    ensures Accepts(Parse(disk.sectors[bsect])) <==> WellFormed(Parse(disk.sectors[bsect]))
    ensures res.FR_OK? ==>
              && WellFormed(Parse(disk.sectors[bsect])) && fs != null && fresh(fs) && fs.disk == disk
              && fs.g == Plan(Parse(disk.sectors[bsect]), bsect) && fs.g.nRootdir % 16 == 0
              && fs.Valid() && !fs.wflag && fs.Img() == disk.sectors && !fs.fsiDirty
    ensures res.FR_OK? && !disk.faulted ==>
              && fs.freeClust == InfoWord(disk.sectors, fs.g.fsType, bsect, 488)
              && fs.lastClust == InfoWord(disk.sectors, fs.g.fsType, bsect, 492)
    ensures res.FR_OK? && fs.Valid() && CountIs(InfoWord(disk.sectors, fs.g.fsType, bsect, 488), fs.Fat()) ==>
              CountOk(fs)
  {
    hide WellFormed, ViewOf, IsPow2, Sys32;
    fs := null;
    ghost var b := Parse(disk.sectors[bsect]);
    AcceptedOnDevice(b, bsect, |disk.sectors|);
    var ok, data := disk.Read(bsect, 1);
    if !ok {
      return FR_DISK_ERR, null;
    }
    var g;
    res, g := Layout(Parse(data[0]), bsect);
    if res != FR_OK {
      return;
    }
    StoredIsPlan(b, bsect);
    PlanFits(b, bsect, |disk.sectors|);
    fs := new Fatfs(g, disk);
    MemCpy(fs.win, 0, data[0]);
    fs.winsect := bsect;
    if NamesInfo(g.fsType, data[0]) {
      LoadInfo(fs, bsect + 1);
    }
  }

  lemma AcceptedOnDevice(b: Bpb, bsect: nat, len: nat)
    requires b.Typed() && OnDevice(b, bsect, len)
    ensures Accepts(b) <==> WellFormed(b)
  {
    if b.Sys() <= b.totSec {
      AcceptsWellFormed(b);
    }
  }

  /** Reads the FSINFO sector. A failure leaves the counts unknown. */
  method LoadInfo(fs: Fatfs, sect: nat)
    requires fs.Valid() && !fs.wflag && sect != NONE && fs.freeClust == NONE && fs.lastClust == NONE
    modifies fs`winsect, fs`wflag, fs.win, fs.disk, fs`freeClust, fs`lastClust
    ensures fs.Valid() && !fs.wflag && fs.disk.sectors == old(fs.disk.sectors)
    ensures old(fs.disk.faulted) ==> fs.disk.faulted
    ensures (fs.freeClust == NONE && fs.lastClust == NONE) ||
            (sect < |fs.disk.sectors| && IsInfo(fs.disk.sectors[sect])
             && fs.freeClust == DwordAt(fs.disk.sectors[sect], 488)
             && fs.lastClust == DwordAt(fs.disk.sectors[sect], 492))
    ensures !fs.disk.faulted ==>
              && sect < |fs.disk.sectors|
              && (IsInfo(fs.disk.sectors[sect]) ==>
                    fs.freeClust == DwordAt(fs.disk.sectors[sect], 488)
                    && fs.lastClust == DwordAt(fs.disk.sectors[sect], 492))
  {
    var res := MoveWindow(fs, sect);
    if res.FR_OK? {
      if IsInfo(fs.win[..]) {
        fs.freeClust := DwordAt(fs.win[..], 488);
        fs.lastClust := DwordAt(fs.win[..], 492);
      }
    }
  }
}
