/** A mounted FAT volume: its geometry, the file allocation table stored on it, and the
    file system object FATFS with its one-sector access window. */
module Volume {
  import opened Bits
  import opened Disk

  datatype FResult = FR_OK | FR_DISK_ERR | FR_INT_ERR | FR_NO_FILE | FR_DENIED
                   | FR_NOT_ENOUGH_CORE | FR_NO_FILESYSTEM

  /** The sectors k clusters of csize sectors occupy, k * csize. */
  function Span(k: nat, csize: nat): nat {
    if k == 0 then 0 else Span(k - 1, csize) + csize
  }

  lemma {:induction false} SpanIsProduct(k: nat, csize: nat)
    ensures Span(k, csize) == k * csize
  {
    if k != 0 {
      SpanIsProduct(k - 1, csize);
    }
  }

  datatype FsType = FAT12 | FAT16 | FAT32

  /** Both the window's "no sector" and the "disk error" answer of get_fat. */
  const NONE: nat := 0xFFFFFFFF
  /** The value put_fat stores to end a chain, before it is cut to the entry's width. */
  const LAST_LINK: nat := 0x0FFFFFFF

  /** Sectors per cluster: the powers of two a byte holds. */
  const CSIZES := {1, 2, 4, 8, 16, 32, 64, 128}

  /** The fields of FATFS that mounting fixes. */
  datatype Geometry = Geometry(
    fsType: FsType,
    csize: nat,      // sectors per cluster
    nFats: nat,      // number of FAT copies
    nRootdir: nat,   // entries of the static root directory
    nFatent: nat,    // number of FAT entries, clusters + 2
    fsize: nat,      // sectors per FAT
    volbase: nat,    // first sector of the volume
    fatbase: nat,    // first sector of the first FAT
    dirbase: nat,    // root directory: sector, or cluster on FAT32
    database: nat)   // first sector of cluster 2
  {
    /** The first sector behind the last FAT copy. */
    function FatEnd(): nat { fatbase + fsize + (if nFats == 2 then fsize else 0) }

    /** Bytes the entries below nFatent occupy. */
    function FatBytes(): nat {
      match fsType
      case FAT12 => nFatent + nFatent / 2 + nFatent % 2
      case FAT16 => 2 * nFatent
      case FAT32 => 4 * nFatent
    }

    /** One more than the largest value an entry can hold. */
    function Range(): nat {
      match fsType
      case FAT12 => 0x1000
      case FAT16 => 0x1_0000
      case FAT32 => 0x1000_0000
    }

    /** A value cut to the width of an entry. */
    function Clip(val: nat): nat {
      match fsType
      case FAT12 => val % 0x1000
      case FAT16 => val % 0x1_0000
      case FAT32 => val % 0x1000_0000
    }

    /** The regions are in order, disjoint and inside a device of len sectors, and every
        entry lies inside one FAT copy. */
    ghost predicate Fits(len: nat)
      ensures Fits(len) ==> csize in CSIZES && Room(len)
    {
      && csize in CSIZES
      && 1 <= nFats <= 2
      && 0 <= volbase < fatbase
      && FatBytes() <= SS * fsize
      && FatEnd() + (nRootdir + 15) / 16 == database
      && (fsType.FAT32? <==> nRootdir == 0)
      && (!fsType.FAT32? ==> dirbase == FatEnd())
      && Room(len)
    }

    /** The clusters lie behind the FATs and inside a device of len sectors. */
    ghost predicate Room(len: nat) {
      && csize > 0
      && 3 <= nFatent <= Range() - 9
      && 0 < FatEnd() <= database
      && database + Span(nFatent - 2, csize) <= len < NONE
    }

    /** A sector of the second FAT copy. */
    ghost predicate InMirror(s: int) {
      nFats == 2 && fatbase + fsize <= s < fatbase + 2 * fsize
    }

    ghost predicate InFat(s: int) {
      fatbase <= s < fatbase + fsize
    }
  }

  /** A cluster number survives the cut; the end mark stays none. */
  lemma ClipCluster(g: Geometry, c: nat)
    requires c < g.nFatent <= g.Range() - 9
    ensures g.Clip(c) == c && g.nFatent <= g.Clip(LAST_LINK) == g.Range() - 1
  {
  }

  /** The end mark create_chain stores, by type. */
  lemma EndMarks(g: Geometry)
    ensures g.Clip(LAST_LINK) == if g.fsType.FAT12? then 0xFFF else if g.fsType.FAT16? then 0xFFFF else 0xFFF_FFFF
  {
  }

  /** Byte k of the first FAT copy. */
  function FatByte(img: seq<Sector>, g: Geometry, k: nat): byte
    requires g.fatbase + k / 512 < |img|
  {
    img[g.fatbase + k / 512][k % 512]
  }

  function Entry12(c: nat, lo: byte, hi: byte): nat {
    if c % 2 == 1 then (lo + 256 * hi) / 16 else (lo + 256 * hi) % 0x1000
  }

  /** Two FAT12 entries, 123 and 456 in hexadecimal, in the three bytes 23 61 45. */
  lemma PackedPair()
    ensures Entry12(0, 0x23, 0x61) == 0x123 && Entry12(1, 0x61, 0x45) == 0x456
  {
  }

  /** The value of FAT entry c (section "FAT Data Structure" of the FAT32 File System
      Specification). */
  function Entry(img: seq<Sector>, g: Geometry, c: nat): nat
    requires g.Fits(|img|) && c < g.nFatent
  {
    match g.fsType
    case FAT12 => Entry12(c, FatByte(img, g, c + c / 2), FatByte(img, g, c + c / 2 + 1))
    case FAT16 => FatByte(img, g, 2 * c) + 0x100 * FatByte(img, g, 2 * c + 1)
    case FAT32 =>
      FatByte(img, g, 4 * c) + 0x100 * FatByte(img, g, 4 * c + 1)
      + 0x1_0000 * FatByte(img, g, 4 * c + 2) + 0x100_0000 * (FatByte(img, g, 4 * c + 3) % 16)
  }

  /** Where a FAT12 entry lies, in plain numbers: one and a half bytes each, across sectors. */
  lemma Entry12Is(img: seq<Sector>, g: Geometry, c: nat) returns (k: nat, lo: byte, hi: byte)
    requires g.Fits(|img|) && c < g.nFatent && g.fsType.FAT12?
    ensures k == 3 * c / 2 && g.fatbase + k / 512 < |img| && g.fatbase + (k + 1) / 512 < |img|
    ensures lo == img[g.fatbase + k / 512][k % 512] && hi == img[g.fatbase + (k + 1) / 512][(k + 1) % 512]
    ensures Entry(img, g, c) == if c % 2 == 0 then lo + 256 * (hi % 16) else lo / 16 + 16 * hi
  {
    k := c + c / 2;
    lo, hi := FatByte(img, g, k), FatByte(img, g, k + 1);
    TwoBytes(lo, hi);
    OneAndHalf(c);
    hide Geometry.Fits, FatByte;
  }

  lemma OneAndHalf(c: nat)
    ensures 3 * c / 2 == c + c / 2
  {
  }

  lemma TwoBytes(lo: byte, hi: byte)
    ensures (lo + 256 * hi) / 16 == lo / 16 + 16 * hi
    ensures (lo + 256 * hi) % 0x1000 == lo + 256 * (hi % 16)
  {
    RemainderIs(lo + 256 * hi, 16, lo / 16 + 16 * hi, lo % 16);
    RemainderIs(lo + 256 * hi, 0x1000, hi / 16, lo + 256 * (hi % 16));
  }

  /** The four reserved bits of a FAT32 entry. */
  function Reserved(img: seq<Sector>, g: Geometry, c: nat): nat
    requires g.Fits(|img|) && c < g.nFatent
  {
    if g.fsType.FAT32? then FatByte(img, g, 4 * c + 3) / 16 else 0
  }

  /** What a volume holds: the sectors before the FATs, the entries with their reserved
      bits, and the sectors behind the FATs. The second FAT copy is not part of it. */
  datatype View = View(head: seq<Sector>, fat: seq<nat>, reserved: seq<nat>, body: seq<Sector>)

  ghost function ViewOf(img: seq<Sector>, g: Geometry): View
    requires g.Fits(|img|)
  {
    View(img[..g.fatbase],
         seq(g.nFatent, c requires 0 <= c < g.nFatent => Entry(img, g, c)),
         seq(g.nFatent, c requires 0 <= c < g.nFatent => Reserved(img, g, c)),
         img[g.FatEnd()..])
  }

  /** Equal but for the second FAT copy. */
  ghost predicate Agree(a: seq<Sector>, b: seq<Sector>, g: Geometry) {
    |a| == |b| && forall s :: 0 <= s < |a| && !g.InMirror(s) ==> a[s] == b[s]
  }

  /** The entries only depend on the sectors of the first FAT. */
  lemma SameFat(a: seq<Sector>, b: seq<Sector>, g: Geometry)
    requires g.Fits(|a|) && |b| == |a| && forall s :: g.InFat(s) ==> a[s] == b[s]
    ensures ViewOf(a, g).fat == ViewOf(b, g).fat && ViewOf(a, g).reserved == ViewOf(b, g).reserved
  {
    forall k: nat | k < SS * g.fsize
      ensures FatByte(a, g, k) == FatByte(b, g, k)
    {
      assert g.InFat(g.fatbase + k / 512);
    }
    assert ViewOf(a, g).fat == ViewOf(b, g).fat;
    assert ViewOf(a, g).reserved == ViewOf(b, g).reserved;
  }

  lemma AgreeSameView(a: seq<Sector>, b: seq<Sector>, g: Geometry)
    requires g.Fits(|a|) && Agree(a, b, g)
    ensures ViewOf(a, g) == ViewOf(b, g)
  {
    SameFat(a, b, g);
    assert a[..g.fatbase] == b[..g.fatbase];
    assert a[g.FatEnd()..] == b[g.FatEnd()..];
  }

  class Fatfs {
    const g: Geometry
    const disk: Drive
    const win: array<byte>
    var winsect: nat
    var wflag: bool
    var fsiDirty: bool
    var lastClust: nat
    var freeClust: nat

    ghost predicate Valid()
      reads `winsect, `wflag, win, disk
      ensures Valid() ==> g.Fits(|disk.sectors|) && win.Length == SS
    {
      && win.Length == SS
      && g.Fits(|disk.sectors|)
      && (wflag ==> winsect < |disk.sectors| && !g.InMirror(winsect))
      && (!wflag && winsect != NONE ==> winsect < |disk.sectors| && win[..] == disk.sectors[winsect])
    }

    /** The logical disk: the device overlaid by a dirty window. */
    ghost function Img(): (img: seq<Sector>)
      requires Valid()
      reads `winsect, `wflag, win, disk
      ensures |img| == |disk.sectors|
    {
      if wflag then disk.sectors[winsect := win[..]] else disk.sectors
    }

    ghost function View(): (v: View)
      requires Valid()
      reads `winsect, `wflag, win, disk
      ensures |v.fat| == |v.reserved| == g.nFatent && g.FatEnd() + |v.body| == |disk.sectors|
    {
      ViewOf(Img(), g)
    }

    ghost function Fat(): seq<nat>
      requires Valid()
      reads `winsect, `wflag, win, disk
    {
      View().fat
    }

    /** The second FAT equals the first, except where the window is dirty. */
    ghost predicate Mirrored()
      requires Valid()
      reads `winsect, `wflag, win, disk
    {
      g.nFats == 2 ==>
        forall s :: g.InFat(s) && !(wflag && s == winsect) ==>
          disk.sectors[s + g.fsize] == disk.sectors[s]
    }

    constructor (geometry: Geometry, drive: Drive)
      requires geometry.Fits(|drive.sectors|)
      ensures Valid() && fresh(win) && g == geometry && disk == drive
      ensures !wflag && winsect == NONE
      ensures lastClust == NONE && freeClust == NONE && !fsiDirty
    {
      g := geometry;
      disk := drive;
      win := new byte[SS](i => 0);
      winsect := NONE;
      wflag := false;
      fsiDirty := false;
      lastClust := NONE;
      freeClust := NONE;
    }
  }
}
