/** The ELF loader of the boot kernel, supervisor branch (System V ABI, chapter 5, section
    "Program Header"). */
module Elf {
  import opened Bits
  import opened Disk
  import opened PageTable

  /** The number of addresses of a 64-bit word. */
  const RANGE: int := 0x1_0000_0000_0000_0000
  const SUPERPAGE_SIZE: int := 0x40_0000
  const PT_LOAD: int := 1

  /** Elf64_Phdr, as far as the loader looks at it. */
  datatype Phdr = Phdr(pType: nat, offset: nat, vaddr: nat, filesz: nat, memsz: nat) {
    predicate Loads() {
      pType == PT_LOAD && memsz != 0
    }

    /** What the widths of the fields and the format allow. */
    predicate Typed() {
      offset < RANGE && vaddr < RANGE && filesz <= memsz < RANGE
    }
  }

  /** A segment on its way into memory: address at, length and file part. */
  datatype Segment = Segment(at: nat, offset: nat, filesz: nat, memsz: nat) {
    function End(): nat { at + memsz }
    function Prepad(): nat { at % PGSIZE }
    predicate Fits(memory: nat, file: nat) {
      filesz <= memsz && End() <= memory && offset + filesz <= file
    }
  }

  /** What one round of the loader leaves at address a: in the page up to the segment zero, then
      the bytes of the file, then zeros. */
  function LoadedByte(mem: seq<byte>, file: seq<byte>, s: Segment, a: nat): byte
    requires s.Fits(|mem|, |file|) && a < |mem|
  {
    if s.at <= a < s.at + s.filesz then file[s.offset + (a - s.at)]
    else if s.at - s.Prepad() <= a < s.End() then 0
    else mem[a]
  }

  function Loaded(mem: seq<byte>, file: seq<byte>, s: Segment): (r: seq<byte>)
    requires s.Fits(|mem|, |file|)
    ensures |r| == |mem|
    ensures forall a :: 0 <= a < |mem| ==> r[a] == LoadedByte(mem, file, s, a)
  {
    seq<byte>(|mem|, a requires 0 <= a < |mem| => LoadedByte(mem, file, s, a))
  }

  ghost predicate AllFit(segs: seq<Segment>, memory: nat, file: nat) {
    forall j :: 0 <= j < |segs| ==> segs[j].Fits(memory, file)
  }

  /** Memory after all segments, the last first. */
  function LoadedDown(mem: seq<byte>, file: seq<byte>, segs: seq<Segment>): (r: seq<byte>)
    requires AllFit(segs, |mem|, |file|)
    ensures |r| == |mem|
  {
    if segs == [] then mem else Loaded(LoadedDown(mem, file, segs[1..]), file, segs[0])
  }

  /** The same segments loaded the first first. */
  function LoadedUp(mem: seq<byte>, file: seq<byte>, segs: seq<Segment>): (r: seq<byte>)
    requires AllFit(segs, |mem|, |file|)
    ensures |r| == |mem|
  {
    if segs == [] then mem
    else Loaded(LoadedUp(mem, file, segs[..|segs| - 1]), file, segs[|segs| - 1])
  }

  /** Segments in ascending order that do not overlap, as the format demands. */
  ghost predicate Ascending(segs: seq<Segment>) {
    forall i, j :: 0 <= i < j < |segs| ==> segs[i].End() <= segs[j].at
  }

  /** A segment is in memory: its bytes from the file, and zeros up to its size. */
  ghost predicate InMemory(mem: seq<byte>, file: seq<byte>, s: Segment)
    requires s.Fits(|mem|, |file|)
  {
    && mem[s.at..s.at + s.filesz] == file[s.offset..s.offset + s.filesz]
    && forall a :: s.at + s.filesz <= a < s.End() ==> mem[a] == 0
  }

  /** No segment, nor the page before it, reaches address a. */
  ghost predicate Untouched(segs: seq<Segment>, a: int) {
    forall j :: 0 <= j < |segs| ==> a < segs[j].at - segs[j].Prepad() || a >= segs[j].End()
  }

  /** Loading a segment leaves a higher one alone. */
  lemma Above(mem: seq<byte>, file: seq<byte>, s: Segment, t: Segment)
    requires s.Fits(|mem|, |file|) && t.Fits(|mem|, |file|) && s.End() <= t.at && InMemory(mem, file, t)
    ensures InMemory(Loaded(mem, file, s), file, t)
  {
    var after := Loaded(mem, file, s);
    assert forall a :: t.at <= a < t.End() ==> after[a] == mem[a];
    assert after[t.at..t.at + t.filesz] == mem[t.at..t.at + t.filesz];
  }

  lemma Itself(mem: seq<byte>, file: seq<byte>, s: Segment)
    requires s.Fits(|mem|, |file|)
    ensures InMemory(Loaded(mem, file, s), file, s)
  {
  }

  /** Although each segment clears the page before it, where a lower segment may end, every
      segment is complete in the end, for the lower one is loaded later; and nothing else has
      changed. */
  lemma {:induction false} DownLoadsAll(mem: seq<byte>, file: seq<byte>, segs: seq<Segment>)
    requires AllFit(segs, |mem|, |file|) && Ascending(segs)
    ensures forall j :: 0 <= j < |segs| ==> InMemory(LoadedDown(mem, file, segs), file, segs[j])
    ensures forall a :: 0 <= a < |mem| && Untouched(segs, a) ==> LoadedDown(mem, file, segs)[a] == mem[a]
  {
    if segs != [] {
      var rest := segs[1..];
      DownLoadsAll(mem, file, rest);
      var before, after := LoadedDown(mem, file, rest), LoadedDown(mem, file, segs);
      forall j | 0 <= j < |segs|
        ensures InMemory(after, file, segs[j])
      {
        if j > 0 {
          assert rest[j - 1] == segs[j];
          Above(before, file, segs[0], segs[j]);
        } else {
          Itself(before, file, segs[0]);
        }
      }
      forall a | 0 <= a < |mem| && Untouched(segs, a)
        ensures after[a] == mem[a]
      {
        assert Untouched(rest, a);
      }
    }
  }

  /** What lies in the page before a segment and in no segment is zero in the end. */
  lemma {:induction false} PrefixCleared(mem: seq<byte>, file: seq<byte>, segs: seq<Segment>, j: nat, a: nat)
    requires AllFit(segs, |mem|, |file|) && j < |segs| && a < |mem|
    requires segs[j].at - segs[j].at % 4096 <= a < segs[j].at
    requires forall i :: 0 <= i < |segs| ==> !(segs[i].at <= a < segs[i].at + segs[i].memsz)
    ensures LoadedDown(mem, file, segs)[a] == 0
  {
    var rest := segs[1..];
    assert !(segs[0].at <= a < segs[0].at + segs[0].memsz);
    if j > 0 {
      assert rest[j - 1] == segs[j];
      PrefixCleared(mem, file, rest, j - 1, a);
    }
  }

  /** Loading the first segment first would not do: the second one clears it. */
  lemma UpDoesNot()
    ensures var mem, file := seq<byte>(48, i => 7), seq<byte>(2, i => 5);
      var segs := [Segment(0, 0, 1, 16), Segment(16, 1, 1, 16)];
      && Ascending(segs) && AllFit(segs, 48, 2)
      && !InMemory(LoadedUp(mem, file, segs), file, segs[0])
      && InMemory(LoadedDown(mem, file, segs), file, segs[0])
  {
    var mem, file, segs := seq<byte>(48, i => 7), seq<byte>(2, i => 5), [Segment(0, 0, 1, 16), Segment(16, 1, 1, 16)];
    var first := segs[..1];
    assert first == [segs[0]] && first[..0] == [];
    assert LoadedUp(mem, file, segs) == Loaded(LoadedUp(mem, file, first), file, segs[1]);
    var before := LoadedUp(mem, file, first);
    assert segs[1].Prepad() == 16;
    assert Loaded(before, file, segs[1])[0] == 0;
    assert LoadedUp(mem, file, segs)[0..1][0] != file[0..1][0];
    DownLoadsAll(mem, file, segs);
  }

  /** ROUNDUP and ROUNDDOWN. */
  function RoundUp(a: int, b: int): (r: int)
    requires b > 0
    ensures r % b == 0 && a <= r < a + b
  {
    Multiple((a - 1) / b + 1, b);
    ((a - 1) / b + 1) * b
  }

  function RoundDown(a: int, b: int): (r: int)
    requires b > 0
    ensures r % b == 0 && r <= a < r + b
  {
    Multiple(a / b, b);
    a / b * b
  }

  lemma Multiple(k: int, b: int)
    requires b > 0
    ensures k * b % b == 0
  {
    if k >= 0 {
      RemainderIs(k * b, b, k, 0);
    } else {
      var r := k * b % b;
      assert k * b == b * (k * b / b) + r;
      if r != 0 {
        var d := k - k * b / b;
        assert b * d == r;
        MulGap(b, d);
        assert false;
      }
    }
  }

  /** The lowest address of a segment to load. */
  function MinVaddr(ph: seq<Phdr>): (m: nat)
    ensures m < RANGE
    ensures forall i :: 0 <= i < |ph| && ph[i].Loads() ==> m <= ph[i].vaddr
    ensures m < RANGE - 1 ==> exists i :: 0 <= i < |ph| && ph[i].Loads() && ph[i].vaddr == m
  {
    if ph == [] then RANGE - 1
    else
      var last := ph[|ph| - 1];
      var m := MinVaddr(ph[..|ph| - 1]);
      if last.Loads() && last.vaddr < m then last.vaddr else m
  }

  /** It is the address of a segment to load, if there is one. */
  lemma MinVaddrIs(ph: seq<Phdr>)
    requires exists i :: 0 <= i < |ph| && ph[i].Loads() && ph[i].vaddr < RANGE
    ensures exists i :: 0 <= i < |ph| && ph[i].Loads() && ph[i].vaddr == MinVaddr(ph)
  {
    var i :| 0 <= i < |ph| && ph[i].Loads() && ph[i].vaddr < RANGE;
    if MinVaddr(ph) == RANGE - 1 {
      assert ph[i].vaddr == MinVaddr(ph);
    }
  }

  /** A header that is not loaded does not count: one segment at 0xFFFFFFFF80000000 and a stack header, of
      type PT_GNU_STACK, at 0. */
  lemma StackHeader()
    ensures MinVaddr([Phdr(1, 0x1000, 0xFFFF_FFFF_8000_0000, 0x100, 0x100), Phdr(0x6474_E551, 0, 0, 0, 0)])
            == 0xFFFF_FFFF_8000_0000
  {
    var a, b := Phdr(1, 0x1000, 0xFFFF_FFFF_8000_0000, 0x100, 0x100), Phdr(0x6474_E551, 0, 0, 0, 0);
    assert [a, b][..1] == [a] && [a][..0] == [];
    assert MinVaddr([a]) == 0xFFFF_FFFF_8000_0000;
  }

  /** Where an entry is put. */
  function Target(p: Phdr, bias: nat): nat {
    (p.vaddr + bias) % RANGE
  }

  /** The segments to load, in order, moved by the bias. */
  function Segments(ph: seq<Phdr>, bias: nat): seq<Segment> {
    if ph == [] then []
    else
      (if ph[0].Loads() then [Segment(Target(ph[0], bias), ph[0].offset, ph[0].filesz, ph[0].memsz)] else [])
      + Segments(ph[1..], bias)
  }

  /** The range test as the loader calls it: it passes the end of the segment where the test
      expects a length. */
  predicate RangeTest64(vaddr: nat, len: nat, lowest: nat, mmapMax: nat) {
    if (vaddr + len) % RANGE < vaddr then false else vaddr >= lowest && (vaddr + len) % RANGE <= mmapMax
  }

  predicate Passes(s: Segment, lowest: nat, mmapMax: nat)
  {
    RangeTest64(s.at - s.Prepad(), s.End() % RANGE, lowest, mmapMax)
  }

  /** What passes lies in the user range; but not all that lies there passes. */
  lemma PassesIff(s: Segment, lowest: nat, mmapMax: nat)
    requires s.End() < RANGE && mmapMax < RANGE
    ensures Passes(s, lowest, mmapMax)
            <==> lowest <= s.at - s.at % 4096 && s.at - s.at % 4096 + (s.at + s.memsz) <= mmapMax
    ensures Passes(s, lowest, mmapMax) ==> lowest <= s.at - s.at % 4096 && s.at + s.memsz <= mmapMax
  {
    var a, n := s.at - s.Prepad(), s.End();
    if a + n >= RANGE {
      RemainderIs(a + n, RANGE, 1, a + n - RANGE);
    } else {
      RemainderIs(a + n, RANGE, 0, a + n);
    }
  }

  /** A segment inside the user range that the loader refuses. */
  lemma RefusedInRange()
    ensures var s := Segment(0x100_0000, 0, 0, PGSIZE);
      0x100_0000 <= s.at && s.End() <= 0x180_0000 && !Passes(s, 0x100_0000, 0x180_0000)
  {
  }

  /** memset with zero. */
  method Clear(mem: array<byte>, lo: nat, hi: nat)
    requires lo <= hi <= mem.Length
    modifies mem
    ensures forall a :: 0 <= a < mem.Length ==> mem[a] == if lo <= a < hi then 0 else old(mem[a])
  {
    var i := lo;
    while i < hi
      invariant lo <= i <= hi
      invariant forall a :: 0 <= a < mem.Length ==> mem[a] == if lo <= a < i then 0 else old(mem[a])
    {
      mem[i] := 0;
      i := i + 1;
    }
  }

  /** file_pread: as many of the bytes asked for as the file has. */
  method FilePread(mem: array<byte>, file: seq<byte>, at: nat, size: nat, offset: nat) returns (ret: nat)
    requires at + size <= mem.Length
    modifies mem
    ensures ret == if offset + size <= |file| then size else if offset <= |file| then |file| - offset else 0
    ensures forall a :: 0 <= a < mem.Length ==>
              mem[a] == if at <= a < at + ret then file[offset + (a - at)] else old(mem[a])
  {
    ret := if offset + size <= |file| then size else if offset <= |file| then |file| - offset else 0;
    var i := 0;
    while i < ret
      invariant 0 <= i <= ret
      invariant forall a :: 0 <= a < mem.Length ==>
                  mem[a] == if at <= a < at + i then file[offset + (a - at)] else old(mem[a])
    {
      mem[at + i] := file[offset + i];
      i := i + 1;
    }
  }

  /** One round of the loader: file bytes, then the page before and the rest behind cleared. */
  method LoadSegment(mem: array<byte>, file: seq<byte>, s: Segment) returns (ok: bool)
    requires s.filesz <= s.memsz && s.End() <= mem.Length
    modifies mem
    ensures ok <==> s.offset + s.filesz <= |file|
    ensures ok ==> mem[..] == Loaded(old(mem[..]), file, s)
  {
    var ret := FilePread(mem, file, s.at, s.filesz, s.offset);
    if ret < s.filesz {
      return false;
    }
    Clear(mem, s.at - s.Prepad(), s.at);
    Clear(mem, s.at + s.filesz, s.at + s.memsz);
    ok := s.offset + s.filesz <= |file|;
  }

  /** The largest end of a segment. */
  ghost predicate IsMaxEnd(segs: seq<Segment>, m: nat) {
    && (forall j :: 0 <= j < |segs| ==> segs[j].End() <= m)
    && (segs == [] ==> m == 0)
    && (segs != [] ==> exists j :: 0 <= j < |segs| && segs[j].End() == m)
  }

  ghost predicate Good(s: Segment, lowest: nat, mmapMax: nat, file: nat) {
    Passes(s, lowest, mmapMax) && s.offset + s.filesz <= file
  }

  ghost predicate AllGood(segs: seq<Segment>, lowest: nat, mmapMax: nat, file: nat) {
    forall j :: 0 <= j < |segs| ==> Good(segs[j], lowest, mmapMax, file)
  }

  /** The segment loop. The loader goes on exactly if every segment passes its test and is
      complete in the file; then all of them are loaded. */
  method LoadSegments(mem: array<byte>, file: seq<byte>, ph: seq<Phdr>, bias: nat, lowest: nat, mmapMax: nat)
    returns (ok: bool, maxVaddr: nat)
    requires bias < RANGE && mmapMax <= mem.Length < RANGE && forall i :: 0 <= i < |ph| ==> ph[i].Typed()
    requires forall i :: 0 <= i < |ph| && ph[i].Loads() ==> Target(ph[i], bias) + ph[i].memsz < RANGE
    modifies mem
    ensures var segs := Segments(ph, bias);
      && (ok <==> AllGood(segs, lowest, mmapMax, |file|))
      && (ok ==> AllFit(segs, mem.Length, |file|) && mem[..] == LoadedDown(old(mem[..]), file, segs)
                 && IsMaxEnd(segs, maxVaddr))
  {
    hide Loaded, LoadedByte, Passes;
    ok, maxVaddr := true, 0;
    var i := |ph|;
    assert ph[i..] == [];
    while i > 0
      invariant 0 <= i <= |ph| && ok
      invariant AllFit(Segments(ph[i..], bias), mem.Length, |file|)
      invariant mem[..] == LoadedDown(old(mem[..]), file, Segments(ph[i..], bias))
      invariant IsMaxEnd(Segments(ph[i..], bias), maxVaddr)
      invariant AllGood(Segments(ph[i..], bias), lowest, mmapMax, |file|)
    {
      i := i - 1;
      ghost var rest, segs := Segments(ph[i + 1..], bias), Segments(ph[i..], bias);
      assert ph[i..][1..] == ph[i + 1..];
      if ph[i].Loads() {
        var s := Segment(Target(ph[i], bias), ph[i].offset, ph[i].filesz, ph[i].memsz);
        assert segs == [s] + rest && segs[0] == s && segs[1..] == rest;
        if s.End() > maxVaddr {
          maxVaddr := s.End();
        }
        PassesIff(s, lowest, mmapMax);
        ok := Passes(s, lowest, mmapMax);
        if ok {
          ok := LoadSegment(mem, file, s);
        }
        if !ok {
          Refused(ph, bias, i);
          return;
        }
      } else {
        assert segs == rest;
      }
    }
    assert ph[0..] == ph;
  }

  /** A segment of the table is among the segments to load. */
  lemma {:induction false} Refused(ph: seq<Phdr>, bias: nat, i: nat)
    requires i < |ph| && ph[i].Loads()
    ensures Segment(Target(ph[i], bias), ph[i].offset, ph[i].filesz, ph[i].memsz) in Segments(ph, bias)
    decreases i
  {
    if i > 0 {
      Refused(ph[1..], bias, i - 1);
    }
  }

  /** The order the format demands of the entries to load, by address and without overlap. */
  ghost predicate Ordered(ph: seq<Phdr>) {
    forall i, j :: 0 <= i < j < |ph| && ph[i].Loads() && ph[j].Loads() ==> ph[i].vaddr + ph[i].memsz <= ph[j].vaddr
  }

  /** Where the loader puts an address, without wrap-around. */
  function Place(ph: seq<Phdr>, free: int, vaddr: int): int {
    RoundUp(free, SUPERPAGE_SIZE) + (vaddr - RoundDown(MinVaddr(ph), SUPERPAGE_SIZE))
  }

  /** The bias on 64 bits puts every entry to load where its place is. */
  lemma PlaceIsTarget(ph: seq<Phdr>, free: nat)
    requires 0 < free && RoundUp(free, SUPERPAGE_SIZE) < RANGE
    requires forall i :: 0 <= i < |ph| && ph[i].Loads() ==> Place(ph, free, ph[i].vaddr) + ph[i].memsz < RANGE
    ensures var low, up := RoundDown(MinVaddr(ph), SUPERPAGE_SIZE), RoundUp(free, SUPERPAGE_SIZE);
      && low >= 0 && up >= 0
      && (forall i :: 0 <= i < |ph| && ph[i].Loads() ==>
            Place(ph, free, ph[i].vaddr) == Target(ph[i], (up - low) % RANGE))
      && forall i, j :: 0 <= i < j < |ph| && ph[i].Loads() && ph[j].Loads() ==>
           Target(ph[j], (up - low) % RANGE) - Target(ph[i], (up - low) % RANGE) == ph[j].vaddr - ph[i].vaddr
  {
    var low, up := RoundDown(MinVaddr(ph), SUPERPAGE_SIZE), RoundUp(free, SUPERPAGE_SIZE);
    hide RoundUp, RoundDown, MinVaddr, Target, Place;
    Rounded(free, MinVaddr(ph));
    forall i | 0 <= i < |ph| && ph[i].Loads()
      ensures Place(ph, free, ph[i].vaddr) == Target(ph[i], (up - low) % RANGE) == up + (ph[i].vaddr - low)
    {
      PlaceOne(ph, free, ph[i]);
    }
  }

  lemma PlaceOne(ph: seq<Phdr>, free: nat, p: Phdr)
    requires 0 < free && RoundUp(free, SUPERPAGE_SIZE) < RANGE && MinVaddr(ph) <= p.vaddr
    requires Place(ph, free, p.vaddr) < RANGE
    ensures var low, up := RoundDown(MinVaddr(ph), SUPERPAGE_SIZE), RoundUp(free, SUPERPAGE_SIZE);
      Place(ph, free, p.vaddr) == Target(p, (up - low) % RANGE) == up + (p.vaddr - low)
  {
    Rounded(free, MinVaddr(ph));
    Biased(p.vaddr, RoundUp(free, SUPERPAGE_SIZE), RoundDown(MinVaddr(ph), SUPERPAGE_SIZE));
  }

  lemma Biased(vaddr: nat, up: nat, low: nat)
    requires low <= vaddr && up + (vaddr - low) < RANGE && up < RANGE && low < RANGE
    ensures (vaddr + (up - low) % RANGE) % RANGE == up + (vaddr - low)
  {
    if up >= low {
      RemainderIs(up - low, RANGE, 0, up - low);
      RemainderIs(vaddr + up - low, RANGE, 0, vaddr + up - low);
    } else {
      assert (up - low) % RANGE == up - low + RANGE;
      RemainderIs(vaddr + (up - low + RANGE), RANGE, 1, vaddr + up - low);
    }
  }

  /** The segments of ordered entries, and which entry each comes from. */
  lemma {:induction false} SegmentFrom(ph: seq<Phdr>, bias: nat, j: nat) returns (i: nat)
    requires j < |Segments(ph, bias)|
    ensures i < |ph| && ph[i].Loads()
    ensures Segments(ph, bias)[j] == Segment(Target(ph[i], bias), ph[i].offset, ph[i].filesz, ph[i].memsz)
    decreases |ph|
  {
    if ph[0].Loads() && j == 0 {
      i := 0;
    } else {
      var k := SegmentFrom(ph[1..], bias, if ph[0].Loads() then j - 1 else j);
      i := k + 1;
    }
  }

  lemma {:induction false} SegmentsAscend(ph: seq<Phdr>, bias: nat)
    requires Ordered(ph)
    requires forall i, j :: 0 <= i < j < |ph| && ph[i].Loads() && ph[j].Loads() ==>
               Target(ph[j], bias) - Target(ph[i], bias) == ph[j].vaddr - ph[i].vaddr
    ensures Ascending(Segments(ph, bias))
    decreases |ph|
  {
    if ph != [] {
      var rest, segs := Segments(ph[1..], bias), Segments(ph, bias);
      SegmentsAscend(ph[1..], bias);
      if ph[0].Loads() {
        forall j | 1 <= j < |segs|
          ensures segs[0].End() <= segs[j].at
        {
          var i := SegmentFrom(ph[1..], bias, j - 1);
          assert ph[1..][i] == ph[i + 1];
        }
        assert segs[1..] == rest;
        forall i, j | 0 <= i < j < |segs|
          ensures segs[i].End() <= segs[j].at
        {
          if i > 0 {
            assert segs[i] == rest[i - 1] && segs[j] == rest[j - 1];
          }
        }
      }
    }
  }

  /** load_elf for a supervisor image, behind the header checks: the bias that moves the lowest
      segment to the first free superpage, and the segment loop. It succeeds exactly if every segment
      passes its test and is complete in the file. On success every segment is
      complete in memory, and nothing but the segments and the pages before them has changed. */
  method LoadElf(mem: array<byte>, file: seq<byte>, ph: seq<Phdr>, free: nat, mmapMax: nat)
    returns (ok: bool, bias: nat, firstUser: nat, maxVaddr: nat, afterUser: nat)
    requires 0 < free && RoundUp(free, SUPERPAGE_SIZE) < RANGE && mmapMax <= mem.Length < RANGE
    requires forall i :: 0 <= i < |ph| ==> ph[i].Typed()
    requires forall i :: 0 <= i < |ph| && ph[i].Loads() ==> Place(ph, free, ph[i].vaddr) + ph[i].memsz < RANGE
    requires Ordered(ph)
    modifies mem
    ensures firstUser == RoundDown(MinVaddr(ph), SUPERPAGE_SIZE) && Moved(ph, free, firstUser, bias)
    ensures forall i :: 0 <= i < |ph| && ph[i].Loads() ==> Place(ph, free, ph[i].vaddr) == Target(ph[i], bias)
    ensures bias == (RoundUp(free, SUPERPAGE_SIZE) - firstUser) % RANGE
    ensures ok <==> EntriesGood(ph, free, mmapMax, |file|)
    ensures ok ==> forall i :: 0 <= i < |ph| && ph[i].Loads() ==>
              Place(ph, free, ph[i].vaddr) >= 0 &&
              Resides(Segment(Place(ph, free, ph[i].vaddr), ph[i].offset, ph[i].filesz, ph[i].memsz),
                      mem[..], file, RoundUp(free, SUPERPAGE_SIZE), mmapMax, maxVaddr)
    ensures ok ==> forall a :: 0 <= a < mem.Length && Untouched(Segments(ph, bias), a) ==> mem[a] == old(mem[a])
    ensures ok ==> PagesCleared(ph, bias, mem[..])
    ensures ok ==> IsMaxEnd(Segments(ph, bias), maxVaddr)
    ensures ok ==> afterUser % 4096 == 0 && 0 <= afterUser - (maxVaddr - bias) % RANGE < 4096
  {
    hide EntriesGood, AllGood, PagesCleared, Moved, Target, Place, Resides, Untouched, LoadedDown, Segments, IsMaxEnd,
         Ordered, Ascending;
    afterUser := 0;
    var up := RoundUp(free, SUPERPAGE_SIZE);
    var minVaddr := LowestVaddr(ph);
    MovedBy(ph, free);
    firstUser := RoundDown(minVaddr, SUPERPAGE_SIZE);
    bias := (up - firstUser) % RANGE;
    Rounded(free, minVaddr);
    PlaceIsTarget(ph, free);
    SegmentsAscend(ph, bias);
    ghost var was := mem[..];
    GoodEntries(ph, bias, free, mmapMax, |file|);
    ok, maxVaddr := LoadSegments(mem, file, ph, bias, up, mmapMax);
    if ok {
      AllLoaded(was, mem[..], file, ph, bias, up, mmapMax, maxVaddr);
      EntriesCleared(was, mem[..], file, ph, bias);
      afterUser := RoundUp((maxVaddr - bias) % RANGE, PGSIZE);
    }
  }

  /** In plain numbers: the image is moved as a whole, by whole superpages, so that the superpage of its
      lowest segment to load lands on the first boundary at or behind free. */
  ghost predicate Moved(ph: seq<Phdr>, free: nat, firstUser: nat, bias: nat) {
    && firstUser % 0x40_0000 == 0
    && (forall i :: 0 <= i < |ph| && ph[i].Loads() ==>
          && firstUser <= ph[i].vaddr
          && var boundary := Target(ph[i], bias) - (ph[i].vaddr - firstUser);
             boundary % 0x40_0000 == 0 && free <= boundary < free + 0x40_0000)
    && ((exists i :: 0 <= i < |ph| && ph[i].Loads()) ==>
          exists i :: 0 <= i < |ph| && ph[i].Loads() && ph[i].vaddr < firstUser + 0x40_0000)
  }

  lemma MovedBy(ph: seq<Phdr>, free: nat)
    requires 0 < free && RoundUp(free, SUPERPAGE_SIZE) < RANGE && forall i :: 0 <= i < |ph| ==> ph[i].Typed()
    requires forall i :: 0 <= i < |ph| && ph[i].Loads() ==> Place(ph, free, ph[i].vaddr) + ph[i].memsz < RANGE
    ensures var low, up := RoundDown(MinVaddr(ph), SUPERPAGE_SIZE), RoundUp(free, SUPERPAGE_SIZE);
      low >= 0 && Moved(ph, free, low, (up - low) % RANGE)
  {
    hide RoundUp, RoundDown, MinVaddr, Target, Place;
    var low, up := RoundDown(MinVaddr(ph), SUPERPAGE_SIZE), RoundUp(free, SUPERPAGE_SIZE);
    Rounded(free, MinVaddr(ph));
    forall i | 0 <= i < |ph| && ph[i].Loads()
      ensures low <= ph[i].vaddr && Target(ph[i], (up - low) % RANGE) == up + (ph[i].vaddr - low)
    {
      PlaceOne(ph, free, ph[i]);
    }
    if i :| 0 <= i < |ph| && ph[i].Loads() {
      MinVaddrIs(ph);
    }
  }

  /** a lies in the page part before an entry to load. */
  predicate Before(p: Phdr, bias: nat, a: nat) {
    p.Loads() && Target(p, bias) - Target(p, bias) % 4096 <= a < Target(p, bias)
  }

  /** No entry to load has address a. */
  ghost predicate Outside(ph: seq<Phdr>, bias: nat, a: nat) {
    forall i :: 0 <= i < |ph| && ph[i].Loads() ==> !(Target(ph[i], bias) <= a < Target(ph[i], bias) + ph[i].memsz)
  }

  /** The page parts before the entries to load are zero where no entry lies. */
  ghost predicate PagesCleared(ph: seq<Phdr>, bias: nat, mem: seq<byte>) {
    forall i, a: nat :: 0 <= i < |ph| && a < |mem| && Before(ph[i], bias, a) && Outside(ph, bias, a) ==> mem[a] == 0
  }

  lemma EntriesCleared(was: seq<byte>, now: seq<byte>, file: seq<byte>, ph: seq<Phdr>, bias: nat)
    requires AllFit(Segments(ph, bias), |was|, |file|) && now == LoadedDown(was, file, Segments(ph, bias))
    ensures PagesCleared(ph, bias, now)
  {
    forall i, a: nat | 0 <= i < |ph| && a < |now| && Before(ph[i], bias, a) && Outside(ph, bias, a)
      ensures now[a] == 0
    {
      EntryCleared(was, file, ph, bias, i, a);
    }
  }

  lemma EntryCleared(was: seq<byte>, file: seq<byte>, ph: seq<Phdr>, bias: nat, i: nat, a: nat)
    requires AllFit(Segments(ph, bias), |was|, |file|) && i < |ph| && a < |was|
    requires Before(ph[i], bias, a) && Outside(ph, bias, a)
    ensures LoadedDown(was, file, Segments(ph, bias))[a] == 0
  {
    hide LoadedDown, Segments, AllFit;
    var segs := Segments(ph, bias);
    Refused(ph, bias, i);
    var j :| 0 <= j < |segs|
             && segs[j] == Segment(Target(ph[i], bias), ph[i].offset, ph[i].filesz, ph[i].memsz);
    forall k | 0 <= k < |segs|
      ensures !(segs[k].at <= a < segs[k].at + segs[k].memsz)
    {
      var l := SegmentFrom(ph, bias, k);
      assert ph[l].Loads();
    }
    PrefixCleared(was, file, segs, j, a);
  }

  /** The loop over the program headers. */
  method LowestVaddr(ph: seq<Phdr>) returns (minVaddr: nat)
    ensures minVaddr == MinVaddr(ph)
  {
    minVaddr := RANGE - 1;
    var i := 0;
    while i < |ph|
      invariant 0 <= i <= |ph| && minVaddr == MinVaddr(ph[..i])
    {
      assert ph[..i + 1][..i] == ph[..i];
      if ph[i].Loads() && ph[i].vaddr < minVaddr {
        minVaddr := ph[i].vaddr;
      }
      i := i + 1;
    }
    assert ph[..i] == ph;
  }

  /** Every entry to load is good, at its place. */
  ghost predicate EntriesGood(ph: seq<Phdr>, free: nat, mmapMax: nat, file: nat)
    requires free > 0
  {
    forall i :: 0 <= i < |ph| && ph[i].Loads() ==>
      && Place(ph, free, ph[i].vaddr) >= 0
      && Good(Segment(Place(ph, free, ph[i].vaddr), ph[i].offset, ph[i].filesz, ph[i].memsz),
              RoundUp(free, SUPERPAGE_SIZE), mmapMax, file)
  }

  /** Every segment to load is good exactly if each entry's is. */
  lemma GoodEntries(ph: seq<Phdr>, bias: nat, free: nat, mmapMax: nat, file: nat)
    requires free > 0 && RoundUp(free, SUPERPAGE_SIZE) >= 0
    requires forall i :: 0 <= i < |ph| && ph[i].Loads() ==>
               Place(ph, free, ph[i].vaddr) == Target(ph[i], bias)
    ensures AllGood(Segments(ph, bias), RoundUp(free, SUPERPAGE_SIZE), mmapMax, file)
            <==> EntriesGood(ph, free, mmapMax, file)
  {
    hide EntriesGood, AllGood;
    if EntriesGood(ph, free, mmapMax, file) {
      SegmentsGood(ph, bias, free, mmapMax, file);
    }
    if AllGood(Segments(ph, bias), RoundUp(free, SUPERPAGE_SIZE), mmapMax, file) {
      EachGood(ph, bias, free, mmapMax, file);
    }
  }

  lemma SegmentsGood(ph: seq<Phdr>, bias: nat, free: nat, mmapMax: nat, file: nat)
    requires free > 0 && RoundUp(free, SUPERPAGE_SIZE) >= 0 && EntriesGood(ph, free, mmapMax, file)
    requires forall i :: 0 <= i < |ph| && ph[i].Loads() ==>
               Place(ph, free, ph[i].vaddr) == Target(ph[i], bias)
    ensures AllGood(Segments(ph, bias), RoundUp(free, SUPERPAGE_SIZE), mmapMax, file)
  {
    hide Good;
    forall j | 0 <= j < |Segments(ph, bias)|
      ensures Good(Segments(ph, bias)[j], RoundUp(free, SUPERPAGE_SIZE), mmapMax, file)
    {
      var i := SegmentFrom(ph, bias, j);
      assert ph[i].Loads();
    }
  }

  lemma EachGood(ph: seq<Phdr>, bias: nat, free: nat, mmapMax: nat, file: nat)
    requires free > 0 && RoundUp(free, SUPERPAGE_SIZE) >= 0
    requires forall i :: 0 <= i < |ph| && ph[i].Loads() ==>
               Place(ph, free, ph[i].vaddr) == Target(ph[i], bias)
    requires AllGood(Segments(ph, bias), RoundUp(free, SUPERPAGE_SIZE), mmapMax, file)
    ensures EntriesGood(ph, free, mmapMax, file)
  {
    hide Good;
    var segs := Segments(ph, bias);
    forall i | 0 <= i < |ph| && ph[i].Loads()
      ensures Place(ph, free, ph[i].vaddr) >= 0
      ensures Good(Segment(Place(ph, free, ph[i].vaddr), ph[i].offset, ph[i].filesz, ph[i].memsz),
                   RoundUp(free, SUPERPAGE_SIZE), mmapMax, file)
    {
      Refused(ph, bias, i);
      var j :| 0 <= j < |segs|
               && segs[j] == Segment(Target(ph[i], bias), ph[i].offset, ph[i].filesz, ph[i].memsz);
    }
  }

  lemma Rounded(free: nat, low: nat)
    requires free > 0
    ensures free <= RoundUp(free, SUPERPAGE_SIZE) && 0 <= RoundDown(low, SUPERPAGE_SIZE) <= low
  {
  }

  /** What the loop has done, for each entry of the table. */
  lemma AllLoaded(was: seq<byte>, now: seq<byte>, file: seq<byte>, ph: seq<Phdr>, bias: nat, lowest: nat, mmapMax: nat,
                  maxVaddr: nat)
    requires Ascending(Segments(ph, bias)) && AllFit(Segments(ph, bias), |was|, |file|)
    requires |was| < RANGE && mmapMax < RANGE
    requires now == LoadedDown(was, file, Segments(ph, bias)) && IsMaxEnd(Segments(ph, bias), maxVaddr)
    requires AllGood(Segments(ph, bias), lowest, mmapMax, |file|)
    ensures forall i :: 0 <= i < |ph| && ph[i].Loads() ==>
              Resides(Segment(Target(ph[i], bias), ph[i].offset, ph[i].filesz, ph[i].memsz),
                      now, file, lowest, mmapMax, maxVaddr)
    ensures forall a :: 0 <= a < |was| && Untouched(Segments(ph, bias), a) ==> now[a] == was[a]
  {
    hide Segments, LoadedDown, Passes, InMemory, Untouched, Ascending;
    var segs := Segments(ph, bias);
    DownLoadsAll(was, file, segs);
    forall j | 0 <= j < |segs|
      ensures Resides(segs[j], now, file, lowest, mmapMax, maxVaddr)
    {
      PassesIff(segs[j], lowest, mmapMax);
    }
    forall i | 0 <= i < |ph| && ph[i].Loads()
      ensures Resides(Segment(Target(ph[i], bias), ph[i].offset, ph[i].filesz, ph[i].memsz),
                      now, file, lowest, mmapMax, maxVaddr)
    {
      Refused(ph, bias, i);
    }
  }

  /** A segment is complete in memory, inside the user range. */
  ghost predicate Resides(s: Segment, mem: seq<byte>, file: seq<byte>, lowest: nat, mmapMax: nat, maxVaddr: nat) {
    && lowest <= s.at && s.End() <= mmapMax && s.End() <= maxVaddr
    && s.Fits(|mem|, |file|) && InMemory(mem, file, s)
  }
}
