/** Reading and changing one entry of the file allocation table through the window. */
module FatTable {
  import opened Bits
  import opened Disk
  import opened Volume
  import opened Window

  /** The answer get_fat gives on an intact device: 1 for a number that names no cluster. */
  function FatValue(fat: seq<nat>, clst: nat): nat {
    if 2 <= clst < |fat| then fat[clst] else 1
  }

  /** What every access to a volume keeps, whatever it answers. */
  twostate predicate Kept(fs: Fatfs)
    requires old(fs.Valid())
    reads fs`winsect, fs`wflag, fs.win, fs.disk
  {
    && fs.Valid()
    && |fs.disk.sectors| == |old(fs.disk.sectors)|
    && (old(fs.disk.faulted) ==> fs.disk.faulted)
    && (!fs.disk.faulted && old(fs.Mirrored()) ==> fs.Mirrored())
  }

  /** get_fat. */
  method GetFat(fs: Fatfs, clst: nat) returns (val: nat)
    requires fs.Valid()
    modifies fs`winsect, fs`wflag, fs.win, fs.disk
    ensures Kept(fs) && fs.View() == old(fs.View())
    ensures val == NONE ==> fs.disk.faulted
    ensures val != NONE ==> val == FatValue(old(fs.Fat()), clst)
    ensures val != NONE && 2 <= clst < fs.g.nFatent ==> fs.g.InFat(fs.winsect)
    ensures !(2 <= clst < fs.g.nFatent) ==> fs.winsect == old(fs.winsect)
    ensures val == NONE || val < fs.g.Range()
  {
    if clst < 2 || clst >= fs.g.nFatent {
      val := 1;
    } else {
      match fs.g.fsType
      case FAT12 => val := GetFat12(fs, clst);
      case FAT16 => val := GetFat16(fs, clst);
      case FAT32 => val := GetFat32(fs, clst);
    }
  }

  /** Moves the window to the sector of byte k of the FAT. */
  method FatWindow(fs: Fatfs, k: nat) returns (res: FResult)
    requires fs.Valid() && k < SS * fs.g.fsize
    modifies fs`winsect, fs`wflag, fs.win, fs.disk
    ensures Kept(fs) && fs.View() == old(fs.View()) && Agree(old(fs.Img()), fs.Img(), fs.g)
    ensures res.FR_OK? || (res.FR_DISK_ERR? && fs.disk.faulted)
    ensures res.FR_OK? ==> fs.winsect == fs.g.fatbase + k / SS && fs.g.InFat(fs.winsect)
                           && fs.win[..] == fs.Img()[fs.winsect]
                           && fs.win[k % SS] == FatByte(fs.Img(), fs.g, k)
    ensures res.FR_OK? && old(fs.winsect) == fs.g.fatbase + k / SS ==>
              fs.wflag == old(fs.wflag) && fs.win[..] == old(fs.win[..])
    ensures forall j: nat {:trigger FatByte(fs.Img(), fs.g, j)} :: j < SS * fs.g.fsize ==>
              FatByte(fs.Img(), fs.g, j) == old(FatByte(fs.Img(), fs.g, j))
  {
    res := MoveWindow(fs, fs.g.fatbase + k / SS);
    forall j: nat | j < SS * fs.g.fsize
      ensures FatByte(fs.Img(), fs.g, j) == old(FatByte(fs.Img(), fs.g, j))
    {
      assert fs.g.InFat(fs.g.fatbase + j / SS);
    }
  }

  lemma FatEntry(fs: Fatfs, c: nat)
    requires fs.Valid() && c < fs.g.nFatent
    ensures fs.Fat()[c] == Entry(fs.Img(), fs.g, c)
  {
  }

  method GetFat12(fs: Fatfs, clst: nat) returns (val: nat)
    requires fs.Valid() && clst < fs.g.nFatent && fs.g.fsType.FAT12?
    modifies fs`winsect, fs`wflag, fs.win, fs.disk
    ensures Kept(fs) && fs.View() == old(fs.View())
    ensures val == NONE ==> fs.disk.faulted
    ensures val != NONE ==> val == old(fs.Fat())[clst] < fs.g.Range() && fs.g.InFat(fs.winsect)
  {
    hide Fatfs.Valid, Fatfs.View, Fatfs.Img, Fatfs.Mirrored, Entry12;
    val := NONE;
    var bc := clst + clst / 2;
    var res := FatWindow(fs, bc);
    if res != FR_OK { return; }
    var lo := fs.win[bc % SS];
    bc := bc + 1;
    res := FatWindow(fs, bc);
    if res != FR_OK { return; }
    var hi := fs.win[bc % SS];
    val := Entry12(clst, lo, hi);
    FatEntry(fs, clst);
    Bound12(clst, lo, hi);
  }

  lemma Bound12(c: nat, lo: byte, hi: byte)
    ensures Entry12(c, lo, hi) < 0x1000
  {
  }

  method GetFat16(fs: Fatfs, clst: nat) returns (val: nat)
    requires fs.Valid() && clst < fs.g.nFatent && fs.g.fsType.FAT16?
    modifies fs`winsect, fs`wflag, fs.win, fs.disk
    ensures Kept(fs) && fs.View() == old(fs.View())
    ensures val == NONE ==> fs.disk.faulted
    ensures val != NONE ==> val == old(fs.Fat())[clst] < fs.g.Range() && fs.g.InFat(fs.winsect)
  {
    hide Fatfs.Valid, Fatfs.View, Fatfs.Img, Fatfs.Mirrored;
    val := NONE;
    var res := FatWindow(fs, 2 * clst);
    if res != FR_OK { return; }
    var p := clst * 2 % SS;
    assert (2 * clst + 1) / SS == 2 * clst / SS && (2 * clst + 1) % SS == p + 1;
    var b0: nat, b1: nat := fs.win[p], fs.win[p + 1];
    val := b0 + 0x100 * b1;
    FatEntry(fs, clst);
  }

  method GetFat32(fs: Fatfs, clst: nat) returns (val: nat)
    requires fs.Valid() && clst < fs.g.nFatent && fs.g.fsType.FAT32?
    modifies fs`winsect, fs`wflag, fs.win, fs.disk
    ensures Kept(fs) && fs.View() == old(fs.View())
    ensures val == NONE ==> fs.disk.faulted
    ensures val != NONE ==> val == old(fs.Fat())[clst] < fs.g.Range() && fs.g.InFat(fs.winsect)
  {
    hide Fatfs.Valid, Fatfs.View, Fatfs.Img, Fatfs.Mirrored, Entry, Reserved, DwordAt, LdDword;
    val := NONE;
    var res := FatWindow(fs, 4 * clst);
    if res != FR_OK { return; }
    Aligned32(fs.Img(), fs.g, clst);
    FatEntry(fs, clst);
    val := DwordAt(fs.win[..], clst * 4 % SS) % 0x1000_0000;
  }

  /** A FAT32 entry and its reserved bits are one double word of one sector. */
  lemma Aligned32(img: seq<Sector>, g: Geometry, clst: nat)
    requires g.Fits(|img|) && clst < g.nFatent && g.fsType.FAT32?
    ensures 4 * clst % 512 <= 508
    ensures var w := DwordAt(img[g.fatbase + 4 * clst / 512], 4 * clst % 512);
      Entry(img, g, clst) == w % 0x1000_0000 && Reserved(img, g, clst) == w / 0x1000_0000
  {
    hide LdDword;
    AlignedBytes(clst);
    var p := 4 * clst % 512;
    var s := img[g.fatbase + 4 * clst / 512];
    LowDword(s[p], s[p + 1], s[p + 2], s[p + 3]);
  }

  lemma AlignedBytes(c: nat)
    ensures 4 * c % 512 <= 508
    ensures (4 * c + 1) / 512 == 4 * c / 512 && (4 * c + 1) % 512 == 4 * c % 512 + 1
    ensures (4 * c + 2) / 512 == 4 * c / 512 && (4 * c + 2) % 512 == 4 * c % 512 + 2
    ensures (4 * c + 3) / 512 == 4 * c / 512 && (4 * c + 3) % 512 == 4 * c % 512 + 3
  {
    var q, p := 4 * c / 512, 4 * c % 512;
    assert p == 4 * (c - 128 * q);
    RemainderIs(4 * c + 1, 512, q, p + 1);
    RemainderIs(4 * c + 2, 512, q, p + 2);
    RemainderIs(4 * c + 3, 512, q, p + 3);
  }

  /** LD_WORD: two bytes, the lower first. */
  function LdWord(b0: byte, b1: byte): nat {
    b0 + 0x100 * b1
  }

  /** LD_DWORD: four bytes, lowest first. */
  function LdDword(b0: byte, b1: byte, b2: byte, b3: byte): nat {
    b0 + 0x100 * b1 + 0x1_0000 * b2 + 0x100_0000 * b3
  }

  function DwordAt(s: seq<byte>, p: nat): (r: nat)
    requires p + 3 < |s|
    ensures r < WORD
  {
    LdDword(s[p], s[p + 1], s[p + 2], s[p + 3])
  }

  lemma LowDword(b0: byte, b1: byte, b2: byte, b3: byte)
    ensures LdDword(b0, b1, b2, b3) % 0x1000_0000 == b0 + 0x100 * b1 + 0x1_0000 * b2 + 0x100_0000 * (b3 % 16)
    ensures LdDword(b0, b1, b2, b3) / 0x1000_0000 == b3 / 16
  {
    var low: nat := b0 + 0x100 * b1 + 0x1_0000 * b2 + 0x100_0000 * (b3 % 16);
    assert b3 == b3 / 16 * 16 + b3 % 16;
    RemainderIs(LdDword(b0, b1, b2, b3), 0x1000_0000, b3 / 16, low);
  }

  /** The image after byte k of the FAT has been stored. */
  ghost function WithFatByte(img: seq<Sector>, g: Geometry, k: nat, v: byte): (r: seq<Sector>)
    requires g.fatbase + k / 512 < |img|
    ensures |r| == |img|
    ensures forall j: nat {:trigger FatByte(r, g, j)} :: g.fatbase + j / 512 < |img| ==>
        FatByte(r, g, j) == if j == k then v else FatByte(img, g, j)
    ensures forall s :: 0 <= s < |img| && s != g.fatbase + k / 512 ==> r[s] == img[s]
  {
    var s := g.fatbase + k / 512;
    img[s := img[s][k % 512 := v]]
  }

  ghost function WithFatWord(img: seq<Sector>, g: Geometry, k: nat, lo: byte, hi: byte): seq<Sector>
    requires g.fatbase + (k + 1) / 512 < |img|
  {
    WithFatByte(WithFatByte(img, g, k, lo), g, k + 1, hi)
  }

  /** The view after put_fat has stored val in entry clst: the entry holds val cut to its
      width; on FAT32 bits above the 28th are merged into the reserved ones. */
  ghost function Stored(v: View, g: Geometry, clst: nat, val: nat): View
    requires clst < |v.fat| == |v.reserved|
  {
    v.(fat := v.fat[clst := g.Clip(val)],
       reserved := if g.fsType.FAT32? then v.reserved[clst := Or(val / 0x1000_0000, v.reserved[clst])]
                   else v.reserved)
  }

  /** The bytes put_fat stores for a FAT12 entry over the bytes lo and hi. */
  function LowByte12(clst: nat, val: nat, lo: byte): byte {
    if clst % 2 == 1 then lo % 16 + val % 16 * 16 else val % 256
  }

  function HighByte12(clst: nat, val: nat, hi: byte): byte {
    if clst % 2 == 1 then val / 16 % 256 else hi / 16 * 16 + val / 256 % 16
  }

  /** Storing both bytes of a FAT12 entry, leaving the half byte of the neighbour alone. */
  lemma Store12(a: seq<Sector>, b: seq<Sector>, c: seq<Sector>, g: Geometry, clst: nat, val: nat)
    requires g.Fits(|a|) && g.fsType.FAT12? && clst < g.nFatent
    requires var k := clst + clst / 2;
      var lo := FatByte(a, g, k);
      && b == WithFatByte(a, g, k, LowByte12(clst, val, lo))
      && var hi := FatByte(b, g, k + 1);
      c == WithFatByte(b, g, k + 1, HighByte12(clst, val, hi))
    ensures ViewOf(c, g) == Stored(ViewOf(a, g), g, clst, val)
    ensures ViewOf(b, g) == ViewOf(a, g).(fat := ViewOf(a, g).fat[clst := ViewOf(b, g).fat[clst]])
  {
    var k := clst + clst / 2;
    forall e: nat | e < g.nFatent && e != clst
      ensures Entry(b, g, e) == Entry(a, g, e) && Entry(c, g, e) == Entry(a, g, e)
    {
      Neighbour12(a, b, c, g, clst, val, e);
    }
    Packed12(clst, val, FatByte(a, g, k), FatByte(a, g, k + 1));
    assert Entry(c, g, clst) == val % 0x1000;
    assert ViewOf(c, g).fat == Stored(ViewOf(a, g), g, clst, val).fat;
    assert ViewOf(b, g).fat == ViewOf(a, g).fat[clst := ViewOf(b, g).fat[clst]];
    assert ViewOf(c, g).body == ViewOf(a, g).body && ViewOf(b, g).body == ViewOf(a, g).body;
    assert ViewOf(c, g).head == ViewOf(a, g).head && ViewOf(b, g).head == ViewOf(a, g).head;
    assert ViewOf(c, g).reserved == ViewOf(a, g).reserved && ViewOf(b, g).reserved == ViewOf(a, g).reserved;
  }

  /** The digits base 16 of a value. */
  lemma Digits(val: nat) returns (d0: nat, d1: nat, d2: nat)
    ensures d0 < 16 && d1 < 16 && d2 < 16
    ensures val % 16 == d0 && val / 16 % 256 == d1 + 16 * d2
    ensures val % 256 == d0 + 16 * d1 && val / 256 % 16 == d2 && val % 4096 == d0 + 16 * d1 + 256 * d2
  {
    var q := val / 16 / 16 / 16;
    d0, d1, d2 := val % 16, val / 16 % 16, val / 16 / 16 % 16;
    RemainderIs(val / 16, 256, q, d1 + 16 * d2);
    RemainderIs(val, 256, d2 + 16 * q, d0 + 16 * d1);
    RemainderIs(val / 256, 16, q, d2);
    RemainderIs(val, 4096, q, d0 + 16 * d1 + 256 * d2);
  }

  lemma Packed12(clst: nat, val: nat, lo: byte, hi: byte)
    ensures clst % 2 == 1 ==> Entry12(clst, lo % 16 + val % 16 * 16, val / 16 % 256) == val % 0x1000
    ensures clst % 2 == 0 ==> Entry12(clst, val % 256, hi / 16 * 16 + val / 256 % 16) == val % 0x1000
  {
    var d0, d1, d2 := Digits(val);
    if clst % 2 == 1 {
      Carry(lo % 16, d0 + 16 * (d1 + 16 * d2));
    } else {
      Low(d0 + 16 * d1 + 256 * d2, hi / 16);
    }
  }

  lemma Carry(low: nat, x: nat)
    requires low < 16
    ensures (low + 16 * x) / 16 == x
  {
  }

  lemma Low(x: nat, y: nat)
    requires x < 4096
    ensures (x + 4096 * y) % 4096 == x
  {
  }

  /** The half byte a FAT12 entry shares with its neighbour survives. */
  lemma Shared12(lo: byte, hi: byte, x: nat, y: nat)
    requires x < 16 && y < 16
    ensures (lo % 16 + x * 16) % 16 == lo % 16
    ensures (hi / 16 * 16 + y) / 16 == hi / 16
  {
  }

  lemma Half12(c: nat, lo: byte, hi: byte, lo': byte, hi': byte)
    requires if c % 2 == 1 then lo / 16 == lo' / 16 && hi == hi' else lo == lo' && hi % 16 == hi' % 16
    ensures Entry12(c, lo, hi) == Entry12(c, lo', hi')
  {
    if c % 2 == 1 {
      assert lo == lo / 16 * 16 + lo % 16 && lo' == lo / 16 * 16 + lo' % 16;
      Carry(lo % 16, lo / 16 + 16 * hi);
      Carry(lo' % 16, lo / 16 + 16 * hi);
    } else {
      assert hi == hi / 16 * 16 + hi % 16 && hi' == hi' / 16 * 16 + hi % 16;
      Low(lo + 256 * (hi % 16), hi / 16);
      Low(lo + 256 * (hi % 16), hi' / 16);
    }
  }

  lemma Neighbour12(a: seq<Sector>, b: seq<Sector>, c: seq<Sector>, g: Geometry, clst: nat, val: nat, e: nat)
    requires g.Fits(|a|) && g.fsType.FAT12? && clst < g.nFatent && e < g.nFatent && e != clst
    requires var k := clst + clst / 2;
      var lo := FatByte(a, g, k);
      && b == WithFatByte(a, g, k, LowByte12(clst, val, lo))
      && var hi := FatByte(b, g, k + 1);
      c == WithFatByte(b, g, k + 1, HighByte12(clst, val, hi))
    ensures Entry(b, g, e) == Entry(a, g, e) && Entry(c, g, e) == Entry(a, g, e)
  {
    hide WithFatByte, Entry12;
    var k, j := clst + clst / 2, e + e / 2;
    var lo, hi := FatByte(a, g, j), FatByte(a, g, j + 1);
    var lo', hi' := FatByte(b, g, j), FatByte(b, g, j + 1);
    var lo'', hi'' := FatByte(c, g, j), FatByte(c, g, j + 1);
    if clst % 2 == 1 && e == clst - 1 {
      Shared12(hi, 0, val % 16, 0);
    } else if clst % 2 == 0 && e == clst + 1 {
      Shared12(0, lo, 0, val / 256 % 16);
    } else {
      assert j != k && j + 1 != k && j != k + 1;
    }
    Half12(e, lo, hi, lo', hi');
    Half12(e, lo', hi', lo'', hi'');
  }

  lemma Store16(a: seq<Sector>, c: seq<Sector>, g: Geometry, clst: nat, val: nat)
    requires g.Fits(|a|) && g.fsType.FAT16? && clst < g.nFatent
    requires c == WithFatWord(a, g, 2 * clst, val % 256, val / 256 % 256)
    ensures ViewOf(c, g) == Stored(ViewOf(a, g), g, clst, val)
  {
    RemainderIs(val, 0x1_0000, val / 256 / 256, val % 256 + 256 * (val / 256 % 256));
    assert ViewOf(c, g).fat == Stored(ViewOf(a, g), g, clst, val).fat;
    assert ViewOf(c, g).body == ViewOf(a, g).body;
    assert ViewOf(c, g).head == ViewOf(a, g).head;
    assert ViewOf(c, g).reserved == ViewOf(a, g).reserved;
  }

  /** Byte i of a double word, as ST_DWORD stores it. */
  function DwordByte(w: nat, i: nat): byte {
    if i == 0 then w % 256
    else if i == 1 then w / 256 % 256
    else if i == 2 then w / 256 / 256 % 256
    else w / 256 / 256 / 256 % 256
  }

  /** The image c is a with the first n bytes of double word w stored in FAT32 entry clst. */
  ghost predicate DwordStored(a: seq<Sector>, c: seq<Sector>, g: Geometry, clst: nat, w: nat, n: nat)
    requires g.fatbase + 4 * clst / 512 < |a|
  {
    && |c| == |a|
    && (forall j: nat {:trigger FatByte(c, g, j)} :: g.fatbase + j / 512 < |a| ==>
         FatByte(c, g, j) == if 4 * clst <= j < 4 * clst + n then DwordByte(w, j - 4 * clst) else FatByte(a, g, j))
    && (forall s :: 0 <= s < |a| && s != g.fatbase + 4 * clst / 512 ==> c[s] == a[s])
  }

  lemma StoreNext(a: seq<Sector>, b: seq<Sector>, c: seq<Sector>, g: Geometry, clst: nat, w: nat, n: nat)
    requires g.fatbase + 4 * clst / 512 < |a| && n < 4
    requires DwordStored(a, b, g, clst, w, n)
    requires (4 * clst + n) / 512 == 4 * clst / 512
    requires c == WithFatByte(b, g, 4 * clst + n, DwordByte(w, n))
    ensures DwordStored(a, c, g, clst, w, n + 1)
  {
  }

  lemma StoreAll(a: seq<Sector>, b: seq<Sector>, c: seq<Sector>, g: Geometry, clst: nat, w: nat)
    requires g.fatbase + (4 * clst + 3) / 512 < |a|
    requires b == WithFatWord(a, g, 4 * clst, DwordByte(w, 0), DwordByte(w, 1))
    requires c == WithFatWord(b, g, 4 * clst + 2, DwordByte(w, 2), DwordByte(w, 3))
    ensures DwordStored(a, c, g, clst, w, 4)
  {
    var b0 := WithFatByte(a, g, 4 * clst, DwordByte(w, 0));
    var b2 := WithFatByte(b, g, 4 * clst + 2, DwordByte(w, 2));
    StoreNext(a, a, b0, g, clst, w, 0);
    StoreNext(a, b0, b, g, clst, w, 1);
    StoreNext(a, b, b2, g, clst, w, 2);
    StoreNext(a, b2, c, g, clst, w, 3);
  }

  lemma DwordBytes(w: nat)
    requires w < WORD
    ensures LdDword(DwordByte(w, 0), DwordByte(w, 1), DwordByte(w, 2), DwordByte(w, 3)) == w
  {
  }

  lemma Store32(a: seq<Sector>, c: seq<Sector>, g: Geometry, clst: nat, w: nat)
    requires g.Fits(|a|) && g.fsType.FAT32? && clst < g.nFatent && w < WORD
    requires DwordStored(a, c, g, clst, w, 4)
    ensures ViewOf(c, g) == ViewOf(a, g).(
      fat := ViewOf(a, g).fat[clst := w % 0x1000_0000],
      reserved := ViewOf(a, g).reserved[clst := w / 0x1000_0000])
  {
    Entry32(a, c, g, clst, w);
    forall e: nat | e < g.nFatent && e != clst
      ensures Entry(c, g, e) == Entry(a, g, e) && Reserved(c, g, e) == Reserved(a, g, e)
    {
      Neighbour32(a, c, g, clst, w, e);
    }
    assert ViewOf(c, g).fat == ViewOf(a, g).fat[clst := w % 0x1000_0000];
    assert ViewOf(c, g).reserved == ViewOf(a, g).reserved[clst := w / 0x1000_0000];
    assert ViewOf(c, g).body == ViewOf(a, g).body;
    assert ViewOf(c, g).head == ViewOf(a, g).head;
  }

  lemma Entry32(a: seq<Sector>, c: seq<Sector>, g: Geometry, clst: nat, w: nat)
    requires g.Fits(|a|) && g.fsType.FAT32? && clst < g.nFatent && w < WORD
    requires DwordStored(a, c, g, clst, w, 4)
    ensures Entry(c, g, clst) == w % 0x1000_0000 && Reserved(c, g, clst) == w / 0x1000_0000
  {
    DwordBytes(w);
    LowDword(DwordByte(w, 0), DwordByte(w, 1), DwordByte(w, 2), DwordByte(w, 3));
  }

  lemma Neighbour32(a: seq<Sector>, c: seq<Sector>, g: Geometry, clst: nat, w: nat, e: nat)
    requires g.Fits(|a|) && g.fsType.FAT32? && clst < g.nFatent && e < g.nFatent && e != clst
    requires DwordStored(a, c, g, clst, w, 4)
    ensures Entry(c, g, e) == Entry(a, g, e) && Reserved(c, g, e) == Reserved(a, g, e)
  {
  }

  /** Stores one byte of the FAT in the window, which must hold its sector. */
  method StoreByte(fs: Fatfs, k: nat, v: byte)
    requires fs.Valid() && k < SS * fs.g.fsize && fs.winsect == fs.g.fatbase + k / SS
    requires fs.win[..] == fs.Img()[fs.winsect]
    modifies fs`wflag, fs.win
    ensures Kept(fs)
    ensures fs.Img() == WithFatByte(old(fs.Img()), fs.g, k, v)
    ensures fs.win[..] == old(fs.win[..])[k % SS := v] && fs.win[..] == fs.Img()[fs.winsect]
  {
    fs.win[k % SS] := v;
    fs.wflag := true;
  }

  /** ST_WORD in the window, which must hold its sector. */
  method StoreWord(fs: Fatfs, k: nat, lo: byte, hi: byte)
    requires fs.Valid() && k < SS * fs.g.fsize && k % 2 == 0 && fs.winsect == fs.g.fatbase + k / SS
    requires fs.win[..] == fs.Img()[fs.winsect]
    modifies fs`wflag, fs.win
    ensures Kept(fs) && fs.win[..] == fs.Img()[fs.winsect]
    ensures fs.Img() == WithFatWord(old(fs.Img()), fs.g, k, lo, hi)
  {
    hide Fatfs.Valid, Fatfs.Img;
    assert (k + 1) / SS == k / SS;
    hide Geometry.Fits, WithFatByte, Fatfs.Mirrored, Fatfs.View;
    StoreByte(fs, k, lo);
    StoreByte(fs, k + 1, hi);
  }

  /** put_fat. */
  method PutFat(fs: Fatfs, clst: nat, val: nat) returns (res: FResult)
    requires fs.Valid() && val < WORD
    modifies fs`winsect, fs`wflag, fs.win, fs.disk
    ensures Kept(fs)
    ensures res.FR_INT_ERR? <==> !(2 <= clst < fs.g.nFatent)
    ensures res.FR_INT_ERR? ==> fs.View() == old(fs.View())
    ensures res in {FR_OK, FR_INT_ERR} || (res.FR_DISK_ERR? && fs.disk.faulted)
    ensures res.FR_OK? ==> fs.View() == Stored(old(fs.View()), fs.g, clst, val) && fs.g.InFat(fs.winsect)
    ensures res.FR_DISK_ERR? ==>
              fs.View() == old(fs.View()).(fat := old(fs.Fat())[clst := fs.Fat()[clst]])
  {
    if clst < 2 || clst >= fs.g.nFatent {
      res := FR_INT_ERR;
    } else {
      match fs.g.fsType
      case FAT12 => res := PutFat12(fs, clst, val);
      case FAT16 => res := PutFat16(fs, clst, val);
      case FAT32 => res := PutFat32(fs, clst, val);
    }
  }

  method PutFat12(fs: Fatfs, clst: nat, val: nat) returns (res: FResult)
    requires fs.Valid() && val < WORD && clst < fs.g.nFatent && fs.g.fsType.FAT12?
    modifies fs`winsect, fs`wflag, fs.win, fs.disk
    ensures Kept(fs)
    ensures res.FR_OK? || (res.FR_DISK_ERR? && fs.disk.faulted)
    ensures res.FR_OK? ==> fs.View() == Stored(old(fs.View()), fs.g, clst, val) && fs.g.InFat(fs.winsect)
    ensures res.FR_DISK_ERR? ==>
              fs.View() == old(fs.View()).(fat := old(fs.Fat())[clst := fs.Fat()[clst]])
  {
    hide Fatfs.Img, Fatfs.Mirrored, Entry, Reserved, WithFatByte;
    ghost var a;
    res, a := PutLow12(fs, clst, val);
    if res != FR_OK {
      return;
    }
    ghost var b, k := fs.Img(), clst + clst / 2;
    ghost var c := WithFatByte(b, fs.g, k + 1, HighByte12(clst, val, FatByte(b, fs.g, k + 1)));
    Store12(a, b, c, fs.g, clst, val);
    res := PutHigh12(fs, clst, val);
    if res.FR_OK? {
      AgreeSameView(c, fs.Img(), fs.g);
    }
  }

  /** The first byte of a FAT12 entry; a is the logical disk it was stored into. */
  method PutLow12(fs: Fatfs, clst: nat, val: nat) returns (res: FResult, ghost a: seq<Sector>)
    requires fs.Valid() && clst < fs.g.nFatent && fs.g.fsType.FAT12?
    modifies fs`winsect, fs`wflag, fs.win, fs.disk
    ensures Kept(fs)
    ensures |a| == |fs.disk.sectors| && ViewOf(a, fs.g) == old(fs.View())
    ensures res.FR_OK? || (res.FR_DISK_ERR? && fs.disk.faulted && fs.View() == old(fs.View()))
    ensures res.FR_OK? ==> var k := clst + clst / 2;
              fs.Img() == WithFatByte(a, fs.g, k, LowByte12(clst, val, FatByte(a, fs.g, k)))
  {
    var bc := clst + clst / 2;
    res := FatWindow(fs, bc);
    a := fs.Img();
    if res.FR_OK? {
      StoreByte(fs, bc, LowByte12(clst, val, fs.win[bc % SS]));
    }
  }

  /** The second byte of a FAT12 entry, perhaps in the next sector. */
  method PutHigh12(fs: Fatfs, clst: nat, val: nat) returns (res: FResult)
    requires fs.Valid() && clst < fs.g.nFatent && fs.g.fsType.FAT12?
    modifies fs`winsect, fs`wflag, fs.win, fs.disk
    ensures Kept(fs)
    ensures res.FR_OK? || (res.FR_DISK_ERR? && fs.disk.faulted && fs.View() == old(fs.View()))
    ensures res.FR_OK? ==> fs.g.InFat(fs.winsect) && var k := clst + clst / 2 + 1;
              Agree(WithFatByte(old(fs.Img()), fs.g, k, HighByte12(clst, val, FatByte(old(fs.Img()), fs.g, k))),
                    fs.Img(), fs.g)
  {
    var bc := clst + clst / 2 + 1;
    res := FatWindow(fs, bc);
    if res.FR_OK? {
      StoreByte(fs, bc, HighByte12(clst, val, fs.win[bc % SS]));
    }
  }

  method PutFat16(fs: Fatfs, clst: nat, val: nat) returns (res: FResult)
    requires fs.Valid() && val < WORD && clst < fs.g.nFatent && fs.g.fsType.FAT16?
    modifies fs`winsect, fs`wflag, fs.win, fs.disk
    ensures Kept(fs)
    ensures res.FR_OK? || (res.FR_DISK_ERR? && fs.disk.faulted)
    ensures res.FR_OK? ==> fs.View() == Stored(old(fs.View()), fs.g, clst, val) && fs.g.InFat(fs.winsect)
    ensures res.FR_DISK_ERR? ==>
              fs.View() == old(fs.View()).(fat := old(fs.Fat())[clst := fs.Fat()[clst]])
  {
    res := FatWindow(fs, 2 * clst);
    if res != FR_OK {
      return;
    }
    ghost var a := fs.Img();
    StoreWord(fs, 2 * clst, val % 256, val / 256 % 256);
    Store16(a, fs.Img(), fs.g, clst, val);
  }

  method PutFat32(fs: Fatfs, clst: nat, val: nat) returns (res: FResult)
    requires fs.Valid() && val < WORD && clst < fs.g.nFatent && fs.g.fsType.FAT32?
    modifies fs`winsect, fs`wflag, fs.win, fs.disk
    ensures Kept(fs)
    ensures res.FR_OK? || (res.FR_DISK_ERR? && fs.disk.faulted)
    ensures res.FR_OK? ==> fs.View() == Stored(old(fs.View()), fs.g, clst, val) && fs.g.InFat(fs.winsect)
    ensures res.FR_DISK_ERR? ==>
              fs.View() == old(fs.View()).(fat := old(fs.Fat())[clst := fs.Fat()[clst]])
  {
    hide Entry, Reserved, LdDword, DwordAt, DwordByte, Or, And;
    res := FatWindow(fs, 4 * clst);
    if res != FR_OK {
      return;
    }
    ghost var a := fs.Img();
    Aligned32(a, fs.g, clst);
    var was := DwordAt(fs.win[..], clst * 4 % SS);
    var w := Merge(val, was);
    StoreDword(fs, clst, w);
    Stored32(a, fs.Img(), fs.g, clst, val, was, w);
  }

  lemma Stored32(a: seq<Sector>, c: seq<Sector>, g: Geometry, clst: nat, val: nat, was: nat, w: nat)
    requires g.Fits(|a|) && g.fsType.FAT32? && clst < g.nFatent && w < WORD
    requires was / 0x1000_0000 == Reserved(a, g, clst)
    requires w % 0x1000_0000 == val % 0x1000_0000 && w / 0x1000_0000 == Or(val / 0x1000_0000, was / 0x1000_0000)
    requires DwordStored(a, c, g, clst, w, 4)
    ensures ViewOf(c, g) == Stored(ViewOf(a, g), g, clst, val)
  {
    Store32(a, c, g, clst, w);
  }

  /** The double word put_fat stores: the low 28 bits of val under the merged top ones. */
  method Merge(val: nat, was: nat) returns (w: nat)
    requires val < WORD && was < WORD
    ensures w < WORD && w % 0x1000_0000 == val % 0x1000_0000
    ensures w / 0x1000_0000 == Or(val / 0x1000_0000, was / 0x1000_0000)
  {
    w := Or(val, And(was, 0xF000_0000));
    ghost var top := Or(val / 0x1000_0000, was / 0x1000_0000);
    MergeTop(val, was);
    Pow28();
    OrBound(val / 0x1000_0000, was / 0x1000_0000, 4);
    RemainderIs(w, 0x1000_0000, top, val % 0x1000_0000);
  }

  /** ST_DWORD in the window. */
  method StoreDword(fs: Fatfs, clst: nat, w: nat)
    requires fs.Valid() && 4 * clst + 3 < SS * fs.g.fsize && fs.winsect == fs.g.fatbase + 4 * clst / SS
    requires fs.win[..] == fs.Img()[fs.winsect]
    modifies fs`wflag, fs.win
    ensures Kept(fs) && DwordStored(old(fs.Img()), fs.Img(), fs.g, clst, w, 4)
  {
    hide Geometry.Fits, WithFatByte, WithFatWord, Fatfs.Mirrored, Fatfs.View, Fatfs.Img, DwordStored, DwordByte;
    ghost var a := fs.Img();
    AlignedBytes(clst);
    EvenOffset(clst);
    StoreWord(fs, 4 * clst, DwordByte(w, 0), DwordByte(w, 1));
    ghost var b := fs.Img();
    StoreWord(fs, 4 * clst + 2, DwordByte(w, 2), DwordByte(w, 3));
    StoreAll(a, b, fs.Img(), fs.g, clst, w);
  }

  lemma EvenOffset(c: nat)
    ensures 4 * c % 2 == 0 && (4 * c + 2) % 2 == 0 && (4 * c + 2) / SS == 4 * c / SS
  {
    RemainderIs(4 * c, 2, 2 * c, 0);
    RemainderIs(4 * c + 2, 2, 2 * c + 1, 0);
    AlignedBytes(c);
    assert (4 * c + 2) / 512 == 4 * c / 512;
  }

  lemma StoredLink(v: View, g: Geometry, clst: nat, val: nat)
    requires clst < |v.fat| == |v.reserved| && val < 0x1000_0000
    ensures Stored(v, g, clst, val) == v.(fat := v.fat[clst := g.Clip(val)])
  {
    assert val / 0x1000_0000 == 0;
    assert v.reserved[clst := v.reserved[clst]] == v.reserved;
  }

  /** put_fat for a 28-bit value: the reserved bits stay. */
  method PutLink(fs: Fatfs, clst: nat, val: nat) returns (res: FResult)
    requires fs.Valid() && val < 0x1000_0000
    modifies fs`winsect, fs`wflag, fs.win, fs.disk
    ensures Kept(fs)
    ensures res.FR_INT_ERR? <==> !(2 <= clst < fs.g.nFatent)
    ensures res in {FR_OK, FR_INT_ERR} || (res.FR_DISK_ERR? && fs.disk.faulted)
    ensures res.FR_INT_ERR? ==> fs.View() == old(fs.View())
    ensures !res.FR_INT_ERR? ==> fs.View() == old(fs.View()).(fat := old(fs.Fat())[clst := fs.Fat()[clst]])
    ensures res.FR_OK? ==> fs.View() == old(fs.View()).(fat := old(fs.Fat())[clst := fs.g.Clip(val)])
                           && fs.g.InFat(fs.winsect)
  {
    ghost var v := fs.View();
    res := PutFat(fs, clst, val);
    if res.FR_OK? {
      StoredLink(v, fs.g, clst, val);
    }
  }
}
