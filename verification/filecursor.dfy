/** The state of one open file as a value: the volume it lies on, its chain, its private
    sector buffer and its position; and what each elementary step of f_read, f_write and
    f_lseek does to the sectors and bytes of the file. */
module FileCursor {
  import opened Bits
  import opened Disk
  import opened Volume
  import opened Chains
  import opened FileSpace
  import opened Allocator

  /** What no operation on a file touches: the sectors before the FATs and the reserved bits of the
      entries. */
  datatype Margin = Margin(head: seq<Sector>, reserved: seq<nat>)

  datatype Cursor = Cursor(
    g: Geometry, margin: Margin, fat: seq<nat>, body: seq<Sector>,
    chain: seq<nat>,  // the clusters of the file
    sects: seq<nat>,  // the sectors of the file
    ck: nat,          // clust is the ck-th cluster
    dirty: bool, dsect: nat, buf: seq<byte>,
    sclust: nat, clust: nat, fptr: nat, fsize: nat,
    info: Info)       // the FSINFO data of the volume
  {
    function End(): nat { g.FatEnd() + |body| }

    /** Sector s of the volume, behind the FATs. */
    function At(s: nat): Sector
      requires g.FatEnd() <= s < End()
    {
      body[s - g.FatEnd()]
    }

    /** The sectors of the file are different data sectors. */
    ghost predicate Laid() {
      && Distinct(sects)
      && 0 < g.FatEnd() <= g.database
      && (forall i :: 0 <= i < |sects| ==> g.database <= sects[i] < End())
    }

    /** The chain is that of the file. */
    ghost predicate Linked() {
      && g.Room(End()) && |fat| == g.nFatent
      && ValidChain(g, chain)
      && sects == FileSectors(g, chain)
      && (sclust == 0 <==> chain == [])
      && (chain != [] ==> IsChain(fat, chain) && chain[0] == sclust)
    }

    /** The buffer overlays sector dsect. */
    ghost predicate Buffered()
      requires Laid()
    {
      && |buf| == SS
      && (dsect != 0 ==> g.database <= dsect < End())
      && (dirty ==> dsect in sects)
      && (!dirty && dsect != 0 ==> buf == At(dsect))
    }

    /** Holds at every point of an operation. */
    ghost predicate Base() {
      Laid() && Buffered() && fsize <= SS * |sects|
    }

    /** The cluster holds byte fptr - 1, and inside a sector the buffer holds that sector. */
    ghost predicate Placed()
      ensures Placed() ==> fptr <= SS * |sects|
    {
      && fptr <= SS * |sects|
      && (fptr > 0 ==>
            ck < |chain| && clust == chain[ck]
            && Span(ck, g.csize) <= (fptr - 1) / SS < Span(ck, g.csize) + g.csize)
      && (fptr % SS != 0 ==> dsect == sects[fptr / SS])
    }

    ghost predicate Ok() {
      Linked() && Base() && Placed() && fptr <= fsize
    }

    /** Sector j of the file: the buffer if it is dirty and holds it, else the volume's. */
    function SectorAt(j: nat): Sector
      requires Laid() && |buf| == SS && j < |sects|
    {
      if dirty && sects[j] == dsect then buf else At(sects[j])
    }

    function ByteAt(i: nat): byte
      requires Laid() && |buf| == SS && i < SS * |sects|
    {
      SectorAt(i / SS)[i % SS]
    }

    /** The contents of the file. */
    function Bytes(): (r: seq<byte>)
      requires Base()
      ensures |r| == fsize
    {
      seq<byte>(fsize, i requires 0 <= i < fsize => ByteAt(i))
    }
  }

  /** The FSINFO data follow the chain of a file: they stay while it takes no cluster, and name the last
      one it has taken. */
  ghost predicate Booked(ch: seq<nat>, x: Info, ch': seq<nat>, y: Info) {
    if ch' == ch then y == x
    else
      && ch' != [] && y.last == ch'[|ch'| - 1] && y.dirty == (x.dirty || x.free != NONE)
      && (x.free == NONE ==> y.free == NONE)
  }

  /** Nothing outside the file changed: neither an entry with its reserved bits nor a sector; the file
      may have got more clusters, which were free. */
  ghost predicate Frame(a: Cursor, b: Cursor)
  {
    && a.g == b.g && a.margin == b.margin && |a.body| == |b.body| && |a.fat| == |b.fat|
    && a.chain <= b.chain && a.sects <= b.sects && Booked(a.chain, a.info, b.chain, b.info)
    && (forall c :: 0 <= c < |a.fat| && c !in b.chain ==> b.fat[c] == a.fat[c])
    && (forall c :: 2 <= c < |a.fat| && a.fat[c] != 0 && c !in a.chain ==> c !in b.chain)
    && (forall s :: a.g.FatEnd() <= s < a.End() && s !in b.sects ==> b.At(s) == a.At(s))
  }

  /** Every sector of the file reads as before. */
  ghost predicate SameSectors(a: Cursor, b: Cursor)
    requires a.Base() && b.Base()
  {
    && a.sects <= b.sects
    && forall j: nat :: j < |a.sects| ==> b.SectorAt(j) == a.SectorAt(j)
  }

  /** A window inside the FATs holds no sector of a file. */
  lemma FatApart(a: Cursor, w: nat)
    requires a.Laid()
    ensures w < a.g.FatEnd() ==> w !in a.sects
  {
  }

  /** The same file, perhaps with more clusters and at another position. */
  ghost predicate SameFile(a: Cursor, b: Cursor)
    ensures SameFile(a, b) ==> a.Linked() && a.Base() && b.Linked() && b.Base() && a.fsize == b.fsize && a.g == b.g
  {
    && a.Linked() && a.Base() && b.Linked() && b.Base()
    && Frame(a, b) && SameSectors(a, b) && a.fsize == b.fsize
  }

  lemma SameFileTransitive(a: Cursor, b: Cursor, c: Cursor)
    requires SameFile(a, b) && SameFile(b, c)
    ensures SameFile(a, c)
  {
    FrameTransitive(a, b, c);
  }

  /** A step that leaves contents and position alone. */
  ghost predicate Step(a: Cursor, b: Cursor) {
    SameFile(a, b) && a.fptr == b.fptr
  }

  lemma StepTransitive(a: Cursor, b: Cursor, c: Cursor)
    requires Step(a, b) && Step(b, c)
    ensures Step(a, c)
  {
    FrameTransitive(a, b, c);
  }

  /** Writing the dirty buffer back. */
  function Flushed(a: Cursor): Cursor
    requires a.dirty ==> a.g.FatEnd() <= a.dsect < a.End() && |a.buf| == SS
  {
    if a.dirty then a.(body := a.body[a.dsect - a.g.FatEnd() := a.buf], dirty := false) else a
  }

  lemma Flush(a: Cursor, b: Cursor)
    requires a.Base() && |a.buf| == SS
    requires b == Flushed(a)
    ensures b.Base() && SameSectors(a, b) && Frame(a, b)
  {
  }

  /** Reloading a clean buffer with sector j. */
  lemma Load(a: Cursor, b: Cursor, j: nat)
    requires a.Base() && !a.dirty && j < |a.sects|
    requires b == a.(dsect := a.sects[j], buf := a.At(a.sects[j]))
    ensures b.Base() && SameSectors(a, b) && Frame(a, b)
  {
  }

  /** s with t stored from offset off on. */
  function Splice<T>(s: seq<T>, off: nat, t: seq<T>): (r: seq<T>)
    requires off + |t| <= |s|
    ensures |r| == |s|
    ensures forall i :: 0 <= i < |s| ==> r[i] == if off <= i < off + |t| then t[i - off] else s[i]
  {
    s[..off] + t + s[off + |t|..]
  }

  /** Storing bytes in the buffer, which then holds sector j dirty: the buffer held it
      before, or it was clean and is taken over unread. */
  lemma Patch(a: Cursor, b: Cursor, j: nat, off: nat, d: seq<byte>)
    requires a.Base() && j < |a.sects| && off + |d| <= SS
    requires a.dsect == a.sects[j] || !a.dirty
    requires b == a.(dsect := a.sects[j], buf := Splice(a.buf, off, d), dirty := true, fptr := b.fptr)
    ensures b.Base() && Frame(a, b)
    ensures forall i: nat :: i < |a.sects| && i != j ==> b.SectorAt(i) == a.SectorAt(i)
    ensures b.SectorAt(j) == Splice(a.buf, off, d)
    ensures a.dsect == a.sects[j] ==> a.buf == a.SectorAt(j)
  {
  }

  /** The sectors of one cluster are consecutive. */
  ghost predicate Consecutive(sects: seq<nat>, j: nat, n: nat) {
    && j + n <= |sects|
    && forall i :: j <= i < j + n ==> sects[i] == sects[j] + (i - j)
  }

  /** The cursor after whole sectors have been written from volume sector s on: the buffer is
      refilled if its sector was overwritten, the position moves on. */
  function WrittenAt(a: Cursor, s: nat, d: seq<Sector>): Cursor
    requires a.g.FatEnd() <= s && s + |d| <= a.End()
  {
    a.(body := Splice(a.body, s - a.g.FatEnd(), d),
       buf := if s <= a.dsect < s + |d| then d[a.dsect - s] else a.buf,
       fptr := a.fptr + SS * |d|)
  }

  /** A direct transfer of whole sectors from sector j of the file on, inside one cluster,
      with a clean buffer. */
  lemma Direct(a: Cursor, b: Cursor, j: nat, d: seq<Sector>)
    requires a.Base() && !a.dirty && |d| > 0 && Consecutive(a.sects, j, |d|)
    requires a.sects[j] + |d| <= a.End() && b == WrittenAt(a, a.sects[j], d)
    ensures b.Base() && Frame(a, b)
    ensures forall i: nat :: i < |a.sects| ==>
              b.SectorAt(i) == if j <= i < j + |d| then d[i - j] else a.SectorAt(i)
  {
    var s := a.sects[j];
    forall i: nat | i < |a.sects|
      ensures b.SectorAt(i) == if j <= i < j + |d| then d[i - j] else a.SectorAt(i)
      ensures s <= a.sects[i] < s + |d| <==> j <= i < j + |d|
    {
      if s <= a.sects[i] < s + |d| {
        assert a.sects[j + (a.sects[i] - s)] == a.sects[i];
      }
    }
    forall t | s <= t < s + |d|
      ensures t in a.sects
    {
      assert a.sects[j + (t - s)] == t;
    }
  }

  /** create_chain for the file: its chain gets one more cluster, its sectors stay. */
  lemma Grow(a: Cursor, b: Cursor, ncl: nat)
    requires After(a.info, b.info, ncl) && a.Linked() && a.Base() && 2 <= ncl < a.g.nFatent && a.fat[ncl] == 0
    requires b == Grown(a, ncl, b.info)
    ensures b.Linked() && b.Base() && SameSectors(a, b) && Frame(a, b)
    ensures |b.sects| == |a.sects| + a.g.csize
  {
    GrowLinked(a, b, ncl);
    FileSectorsDistinct(a.g, a.End(), b.chain);
    GrowFrame(a, b, ncl);
    hide Frame, SameSectors, Cursor.Base, IsChain;
    GrowSectors(a, b);
  }

  lemma GrowFrame(a: Cursor, b: Cursor, ncl: nat)
    requires After(a.info, b.info, ncl) && a.Linked() && 2 <= ncl < a.g.nFatent && a.fat[ncl] == 0
    requires b == Grown(a, ncl, b.info)
    ensures Frame(a, b)
  {
    hide IsChain;
    forall c | 0 <= c < |a.fat| && c !in b.chain
      ensures b.fat[c] == a.fat[c]
    {
      if a.chain != [] {
        assert a.chain[|a.chain| - 1] in b.chain;
      }
      assert b.chain[|a.chain|] == ncl;
    }
  }

  lemma GrowLinked(a: Cursor, b: Cursor, ncl: nat)
    requires a.Linked() && 2 <= ncl < a.g.nFatent && a.fat[ncl] == 0
    requires b == Grown(a, ncl, b.info)
    ensures b.Linked()
  {
    GrownChain(a.fat, a.g, a.chain, ncl);
    assert b.chain[..|b.chain| - 1] == a.chain;
  }

  /** More sectors behind the old ones. */
  lemma GrowSectors(a: Cursor, b: Cursor)
    requires a.Base() && a.sects <= b.sects && b.Laid()
    requires b == a.(fat := b.fat, chain := b.chain, sects := b.sects, sclust := b.sclust, info := b.info)
    ensures b.Base() && SameSectors(a, b)
  {
    if a.dirty {
      assert a.dsect in b.sects;
    }
  }

  /** The file after a free cluster has been linked behind its last one. */
  ghost function Grown(a: Cursor, ncl: nat, y: Info): Cursor
    requires a.Linked() && 2 <= ncl < a.g.nFatent
  {
    var last := if a.chain == [] then 0 else a.chain[|a.chain| - 1];
    a.(fat := Taken(a.fat, a.g, last, ncl), chain := a.chain + [ncl],
       sects := a.sects + Run(ClusterStart(a.g, ncl), a.g.csize),
       sclust := if a.chain == [] then ncl else a.sclust, info := y)
  }

  lemma GrownChain(f: seq<nat>, g: Geometry, ch: seq<nat>, ncl: nat)
    requires |f| == g.nFatent <= g.Range() - 9 && 2 <= ncl < |f| && f[ncl] == 0
    requires ValidChain(g, ch) && (ch != [] ==> IsChain(f, ch))
    ensures var last := if ch == [] then 0 else ch[|ch| - 1];
      IsChain(Taken(f, g, last, ncl), ch + [ncl]) && ValidChain(g, ch + [ncl])
  {
    ClipCluster(g, ncl);
    if ch != [] {
      LinkedChain(f, ch, ncl, g.Clip(LAST_LINK));
    }
  }

  lemma FrameTransitive(a: Cursor, b: Cursor, c: Cursor)
    requires Frame(a, b) && Frame(b, c)
    ensures Frame(a, c)
  {
  }

  /** From a to b exactly the bytes d have been written at the position of a: every byte
      below the old size or the new position reads as it should. */
  ghost predicate Chunk(a: Cursor, b: Cursor, d: seq<byte>)
    ensures Chunk(a, b, d) ==> a.Base() && b.Base() && Frame(a, b) && b.fptr == a.fptr + |d| && b.fsize == a.fsize
  {
    && a.Base() && b.Base() && Frame(a, b)
    && a.fptr <= SS * |a.sects|
    && b.fptr == a.fptr + |d| <= SS * |b.sects|
    && b.fsize == a.fsize
    && forall i: nat :: i < b.fptr || i < a.fsize ==>
         b.ByteAt(i) == if a.fptr <= i < b.fptr then d[i - a.fptr] else a.ByteAt(i)
  }

  lemma ChunkTransitive(a: Cursor, b: Cursor, c: Cursor, d: seq<byte>, e: seq<byte>)
    requires Chunk(a, b, d) && Chunk(b, c, e)
    ensures Chunk(a, c, d + e)
  {
    FrameTransitive(a, b, c);
  }

  /** Where the sectors of the file did not change, no byte was written. */
  lemma ChunkSame(a: Cursor, b: Cursor)
    requires a.Base() && b.Base() && Frame(a, b) && SameSectors(a, b)
    requires a.fptr == b.fptr <= SS * |a.sects| && a.fsize == b.fsize
    ensures Chunk(a, b, [])
  {
  }

  lemma ChunkNothing(a: Cursor)
    requires a.Base() && a.fptr <= SS * |a.sects|
    ensures Chunk(a, a, [])
  {
  }

  /** clust holds the byte at fptr. */
  ghost predicate Settled(a: Cursor) {
    && a.Base() && a.fptr < SS * |a.sects|
    && a.ck < |a.chain| && a.clust == a.chain[a.ck]
    && Span(a.ck, a.g.csize) <= a.fptr / SS < Span(a.ck, a.g.csize) + a.g.csize
  }

  /** The partial transfer of f_write: bytes into the buffer, which holds the sector, or is
      clean and taken over unread behind the end of the file. */
  lemma PatchChunk(a: Cursor, b: Cursor, d: seq<byte>)
    requires Settled(a) && |d| > 0 && a.fptr % SS + |d| <= SS
    requires a.dsect == a.sects[a.fptr / SS] || (!a.dirty && a.fptr % SS == 0 && a.fptr >= a.fsize)
    requires b == a.(dsect := a.sects[a.fptr / SS], buf := Splice(a.buf, a.fptr % SS, d), dirty := true,
                     fptr := a.fptr + |d|)
    ensures Chunk(a, b, d) && b.Placed()
  {
    var j := a.fptr / SS;
    Patch(a, b, j, a.fptr % SS, d);
    forall i: nat | i < b.fptr || i < a.fsize
      ensures b.ByteAt(i) == if a.fptr <= i < b.fptr then d[i - a.fptr] else a.ByteAt(i)
    {
      if i / SS != j {
        assert b.SectorAt(i / SS) == a.SectorAt(i / SS);
      }
    }
  }

  /** The bytes of consecutive sectors. */
  ghost predicate Flat(ds: seq<Sector>, d: seq<byte>) {
    && |d| == SS * |ds|
    && forall i :: 0 <= i < |d| ==> d[i] == ds[i / SS][i % SS]
  }

  /** The direct transfer of f_write. */
  lemma DirectChunk(a: Cursor, b: Cursor, ds: seq<Sector>, d: seq<byte>)
    requires Settled(a) && !a.dirty && a.fptr % SS == 0 && Flat(ds, d)
    requires |ds| > 0 && Consecutive(a.sects, a.fptr / SS, |ds|)
    requires a.fptr / SS + |ds| <= Span(a.ck, a.g.csize) + a.g.csize
    requires a.sects[a.fptr / SS] + |ds| <= a.End() && b == WrittenAt(a, a.sects[a.fptr / SS], ds)
    ensures Chunk(a, b, d) && b.Placed()
  {
    var j := a.fptr / SS;
    Direct(a, b, j, ds);
    forall i: nat | i < b.fptr || i < a.fsize
      ensures b.ByteAt(i) == if a.fptr <= i < b.fptr then d[i - a.fptr] else a.ByteAt(i)
    {
      DirectByte(a, b, ds, d, i);
    }
  }

  lemma DirectByte(a: Cursor, b: Cursor, ds: seq<Sector>, d: seq<byte>, i: nat)
    requires a.Base() && b.Base() && a.sects == b.sects && i < SS * |a.sects|
    requires a.fptr % SS == 0 && Flat(ds, d)
    requires forall k: nat :: k < |a.sects| ==>
               b.SectorAt(k) == if a.fptr / SS <= k < a.fptr / SS + |ds| then ds[k - a.fptr / SS] else a.SectorAt(k)
    ensures b.ByteAt(i) == if a.fptr <= i < a.fptr + |d| then d[i - a.fptr] else a.ByteAt(i)
  {
    var j, k := a.fptr / SS, i / SS;
    if j <= k < j + |ds| {
      assert (i - a.fptr) / SS == k - j && (i - a.fptr) % SS == i % SS;
    } else {
      assert b.SectorAt(k) == a.SectorAt(k);
    }
  }

  /** Moving on inside the cluster: what reading does to the position. */
  lemma Advance(a: Cursor, b: Cursor, n: nat)
    requires Settled(a) && n > 0 && b == a.(fptr := a.fptr + n)
    requires a.fptr + n <= SS * (Span(a.ck, a.g.csize) + a.g.csize) && a.fptr + n <= SS * |a.sects|
    requires (a.fptr + n) % SS == 0 || (a.fptr % SS + n <= SS && a.dsect == a.sects[a.fptr / SS])
    ensures b.Base() && b.Placed() && Frame(a, b) && SameSectors(a, b)
  {
  }

  /** The sectors of the ck-th cluster from sector j of the file on. */
  lemma ClusterRun(a: Cursor, ck: nat, j: nat)
    requires a.Linked() && ck < |a.chain|
    requires Span(ck, a.g.csize) <= j < Span(ck, a.g.csize) + a.g.csize
    ensures Span(ck, a.g.csize) + a.g.csize <= |a.sects|
    ensures a.sects[j] == ClusterStart(a.g, a.chain[ck]) + (j - Span(ck, a.g.csize))
    ensures forall n: nat :: j + n <= Span(ck, a.g.csize) + a.g.csize ==> Consecutive(a.sects, j, n)
  {
    SpanMono(ck, |a.chain|, a.g.csize);
    FileSectorsLength(a.g, a.chain);
    forall i | j <= i < Span(ck, a.g.csize) + a.g.csize
      ensures a.sects[i] == ClusterStart(a.g, a.chain[ck]) + (i - Span(ck, a.g.csize))
    {
      FileSectorAt(a.g, a.chain, ck, i - Span(ck, a.g.csize));
    }
  }

  /** A file just opened: at its beginning, with an empty buffer. */
  lemma Opened(c: Cursor)
    requires c.g.Room(c.End()) && |c.fat| == c.g.nFatent && |c.buf| == SS
    requires if c.sclust == 0 then c.chain == [] else IsChain(c.fat, c.chain) && c.chain[0] == c.sclust
    requires c.sects == FileSectors(c.g, c.chain) && c.fsize <= SS * Span(|c.chain|, c.g.csize)
    requires c.fptr == 0 && c.dsect == 0 && !c.dirty
    ensures c.Ok()
  {
    FileSectorsDistinct(c.g, c.End(), c.chain);
    FileSectorsLength(c.g, c.chain);
  }

  ghost predicate StretchFrom(a: Cursor, clst: nat) {
    if clst == 0 then a.chain == [] else a.ck < |a.chain| && clst == a.chain[a.ck]
  }

  /** The index of the cluster create_chain answers. */
  function NextIndex(a: Cursor, clst: nat): nat {
    if clst == 0 then 0 else a.ck + 1
  }

  /** The k-th cluster of the file is ncl. */
  ghost predicate NextIs(b: Cursor, k: nat, ncl: nat) {
    k < |b.chain| && b.chain[k] == ncl && Span(k, b.g.csize) + b.g.csize <= |b.sects|
  }

  /** The clusters answered by create_chain continue the chain of the file. */
  lemma StretchedOk(a: Cursor, b: Cursor, f': seq<nat>, start: nat, clst: nat, ncl: nat)
    requires a.Linked() && a.Base() && StretchFrom(a, clst) && |f'| == |a.fat|
    requires 2 <= ncl < a.g.nFatent && Outcome(a.fat, f', a.g, clst, start, ncl)
    requires Recorded(a.fat, clst, ncl, a.info, b.info)
    requires b == if clst != 0 && a.ck + 1 < |a.chain| then a else Grown(a, ncl, b.info)
    ensures Step(a, b) && NextIs(b, NextIndex(a, clst), ncl)
    ensures b == a.(fat := f', chain := b.chain, sects := b.sects, sclust := if a.sclust == 0 then ncl else a.sclust,
                    info := b.info)
  {
    if clst != 0 {
      LinkAt(a.fat, a.chain, a.ck);
    }
    if b == a {
    } else {
      assert a.chain != [] ==> clst == a.chain[|a.chain| - 1];
      Grow(a, b, ncl);
    }
    FileSectorsLength(b.g, b.chain);
    SpanMono(NextIndex(a, clst), |b.chain|, a.g.csize);
  }

  /** When create_chain answers no cluster, nothing changed. */
  lemma StretchNone(a: Cursor, f': seq<nat>, start: nat, clst: nat, ncl: nat)
    requires a.Linked() && StretchFrom(a, clst) && |f'| == |a.fat|
    requires ncl < 2 && Outcome(a.fat, f', a.g, clst, start, ncl)
    ensures f' == a.fat
    ensures ncl == 0 ==> NoHit(a.fat) && NextIndex(a, clst) == |a.chain|
    ensures ncl == 1 ==> Illegal(a.fat)
  {
    if clst != 0 {
      LinkAt(a.fat, a.chain, a.ck);
    }
  }

  /** Moving the position, or the current cluster, changes nothing else. */
  lemma Repositioned(a: Cursor, b: Cursor)
    requires a.Linked() && a.Base() && b == a.(fptr := b.fptr, ck := b.ck, clust := b.clust)
    ensures SameFile(a, b)
  {
  }

  /** Entering the k-th cluster, whose first byte is at the position. */
  lemma Enter(b: Cursor, c: Cursor, k: nat, clst: nat)
    requires b.Linked() && b.Base() && NextIs(b, k, clst) && b.fptr == SS * Span(k, b.g.csize)
    requires c == b.(clust := clst, ck := k) && b.g.csize > 0
    ensures Settled(c) && Step(b, c)
  {
    hide Cursor.Linked, Cursor.Base, Frame, SameSectors;
    Repositioned(b, c);
    assert b.fptr / SS == Span(k, b.g.csize);
  }

  /** The source's csect: the sector of the position inside its cluster. */
  function Csect(fptr: nat, csize: nat): nat
    requires csize > 0
  {
    And(fptr / SS, csize - 1)
  }

  /** On a sector boundary inside a cluster the cluster stays. */
  lemma Stay(b: Cursor)
    requires b.Linked() && b.Base() && b.Placed() && b.fptr % SS == 0
    requires b.g.csize in CSIZES && Csect(b.fptr, b.g.csize) != 0
    ensures Settled(b) && b.fptr / SS == Span(b.ck, b.g.csize) + Csect(b.fptr, b.g.csize)
    ensures Csect(b.fptr, b.g.csize) < b.g.csize
  {
    MaskCsize(b.fptr / SS, b.g.csize);
    assert b.fptr > 0;
    assert b.fptr / SS == (b.fptr - 1) / SS + 1;
    Boundary(b.g.csize, b.ck, b.fptr / SS);
    FileSectorsLength(b.g, b.chain);
    SpanMono(b.ck, |b.chain|, b.g.csize);
  }

  /** On a cluster boundary the next cluster begins. */
  lemma Cross(b: Cursor)
    requires b.Placed() && b.fptr > 0 && b.fptr % SS == 0
    requires b.g.csize in CSIZES && Csect(b.fptr, b.g.csize) == 0
    ensures b.fptr == SS * Span(b.ck + 1, b.g.csize)
  {
    MaskCsize(b.fptr / SS, b.g.csize);
    assert b.fptr / SS == (b.fptr - 1) / SS + 1;
    Boundary(b.g.csize, b.ck, b.fptr / SS);
  }

  /** Inside a sector the cluster and the buffer stay. */
  lemma Inside(b: Cursor)
    requires b.Linked() && b.Base() && b.Placed() && b.fptr % SS != 0
    ensures Settled(b) && b.dsect == b.sects[b.fptr / SS]
  {
    assert b.fptr / SS == (b.fptr - 1) / SS;
  }

  /** The sector clust2sect leads to. */
  lemma SectorOfCluster(c: Cursor)
    requires c.Linked() && Settled(c) && c.fptr % SS == 0
    ensures Clust2Sect(c.g, c.clust) != 0
    ensures Clust2Sect(c.g, c.clust) + (c.fptr / SS - Span(c.ck, c.g.csize)) == c.sects[c.fptr / SS]
  {
    assert c.chain[c.ck] < c.g.nFatent;
    Clust2SectExact(c.g, c.End(), c.clust);
    ClusterRun(c, c.ck, c.fptr / SS);
  }

  /** Whole sectors of a byte sequence. */
  function ToSectors(w: seq<byte>, n: nat): (ds: seq<Sector>)
    requires SS * n <= |w|
    ensures |ds| == n
  {
    seq(n, i requires 0 <= i < n => w[SS * i..SS * i + SS])
  }

  lemma ToSectorsFlat(w: seq<byte>, n: nat)
    requires SS * n <= |w|
    ensures Flat(ToSectors(w, n), w[..SS * n])
  {
  }

  /** The first cluster of a file that has one. */
  lemma First(a: Cursor)
    requires a.Linked() && a.Base() && a.sclust != 0
    ensures NextIs(a, 0, a.sclust) && 2 <= a.sclust < NONE && Step(a, a)
  {
    FileSectorsLength(a.g, a.chain);
    SpanMono(0, |a.chain|, a.g.csize);
  }

  /** A run of sectors of the file does not hold the window's sector. */
  lemma RunInside(a: Cursor, w: nat, n: nat)
    requires a.Base() && w !in a.sects && a.fptr / SS < |a.sects| && n > 0
    requires Consecutive(a.sects, a.fptr / SS, n)
    ensures var s := a.sects[a.fptr / SS]; a.g.FatEnd() <= s && s + n <= a.End() && !(s <= w < s + n)
  {
    var j := a.fptr / SS;
    var s := a.sects[j];
    assert a.sects[j + (n - 1)] == s + (n - 1);
    forall t | s <= t < s + n
      ensures t in a.sects
    {
      assert a.sects[j + (t - s)] == t;
    }
  }

  /** What the direct transfer of n sectors needs to know about the rest of the cluster. */
  lemma RestOfCluster(a: Cursor, w: nat, n: nat)
    requires a.Linked() && Settled(a) && w !in a.sects && n > 0
    requires a.fptr / SS + n <= Span(a.ck, a.g.csize) + a.g.csize
    ensures a.fptr / SS + n <= |a.sects| && Consecutive(a.sects, a.fptr / SS, n)
    ensures var s := a.sects[a.fptr / SS]; a.g.FatEnd() <= s && s + n <= a.End() && !(s <= w < s + n)
  {
    ClusterRun(a, a.ck, a.fptr / SS);
    RunInside(a, w, n);
  }

  lemma StepThenChunk(a: Cursor, b: Cursor, c: Cursor, d: seq<byte>)
    requires Step(a, b) && a.fptr <= SS * |a.sects| && Chunk(b, c, d)
    ensures Chunk(a, c, d)
  {
    ChunkSame(a, b);
    ChunkTransitive(a, b, c, [], d);
    assert [] + d == d;
  }

  lemma StepIsChunk(a: Cursor, b: Cursor)
    requires Step(a, b) && a.fptr <= SS * |a.sects|
    ensures Chunk(a, b, [])
  {
    ChunkSame(a, b);
  }

  lemma Clipped(c: Cursor, csect: nat)
    requires c.fptr / SS == Span(c.ck, c.g.csize) + csect && Settled(c)
    ensures csect < c.g.csize
  {
  }

  /** The bytes of file with d stored at position pos, which may go beyond its end. */
  function Overwrite(file: seq<byte>, pos: nat, d: seq<byte>): (r: seq<byte>)
    requires pos <= |file|
    ensures |r| == if pos + |d| > |file| then pos + |d| else |file|
    ensures forall i :: 0 <= i < |r| ==> r[i] == if pos <= i < pos + |d| then d[i - pos] else file[i]
  {
    file[..pos] + d + (if pos + |d| < |file| then file[pos + |d|..] else [])
  }

  /** The chunks written, as contents: exactly the bytes from the old position on are
      replaced, and the size is the larger of the old one and the new position. */
  lemma ChunkBytes(a: Cursor, c: Cursor, d: seq<byte>, c': Cursor)
    requires Chunk(a, c, d) && a.fptr <= a.fsize
    requires c' == c.(fsize := if c.fptr > c.fsize then c.fptr else c.fsize)
    ensures c'.Base() && Frame(a, c') && c'.Bytes() == Overwrite(a.Bytes(), a.fptr, d)
  {
    forall i | 0 <= i < c'.fsize
      ensures c'.ByteAt(i) == if a.fptr <= i < a.fptr + |d| then d[i - a.fptr] else a.ByteAt(i)
    {
      assert c'.ByteAt(i) == c.ByteAt(i);
    }
    assert c'.Bytes() == Overwrite(a.Bytes(), a.fptr, d);
  }

  /** The size does not matter for the layout. */
  lemma Resized(c: Cursor, c': Cursor)
    requires c.Linked() && c.Placed() && c' == c.(fsize := c'.fsize)
    ensures c'.Linked() && c'.Placed()
  {
  }

  /** n bytes of the file from offset p on. */
  function Slice(a: Cursor, p: nat, n: nat): (r: seq<byte>)
    requires a.Base() && p + n <= SS * |a.sects|
    ensures |r| == n
  {
    seq<byte>(n, i requires 0 <= i < n => a.ByteAt(p + i))
  }

  /** Reading moves the position and nothing else that can be seen. */
  ghost predicate Moved(a: Cursor, b: Cursor, n: nat)
    ensures Moved(a, b, n) ==> b.fptr == a.fptr + n && b.fsize == a.fsize
  {
    SameFile(a, b) && b.fptr == a.fptr + n && b.fsize == a.fsize
  }

  lemma MovedTransitive(a: Cursor, b: Cursor, c: Cursor, m: nat, n: nat)
    requires Moved(a, b, m) && Moved(b, c, n)
    ensures Moved(a, c, m + n)
  {
    FrameTransitive(a, b, c);
  }

  lemma StepMoved(a: Cursor, b: Cursor)
    ensures Step(a, b) <==> Moved(a, b, 0)
  {
  }

  /** The contents are the same before and after reading, and so is every slice. */
  lemma MovedBytes(a: Cursor, b: Cursor, n: nat)
    requires Moved(a, b, n)
    ensures b.Bytes() == a.Bytes()
  {
    forall i: nat | i < a.fsize
      ensures b.ByteAt(i) == a.ByteAt(i)
    {
      assert b.SectorAt(i / SS) == a.SectorAt(i / SS);
    }
  }

  lemma MovedSlice(a: Cursor, b: Cursor, n: nat, p: nat, m: nat)
    requires Moved(a, b, n) && p + m <= SS * |a.sects|
    ensures p + m <= SS * |b.sects| && Slice(b, p, m) == Slice(a, p, m)
  {
    var x, y := Slice(a, p, m), Slice(b, p, m);
    forall i | 0 <= i < m
      ensures x[i] == y[i]
    {
      var q := p + i;
      assert b.SectorAt(q / SS) == a.SectorAt(q / SS);
      assert x[i] == a.ByteAt(q) && y[i] == b.ByteAt(q);
    }
  }

  lemma SliceAppend(a: Cursor, p: nat, m: nat, n: nat)
    requires a.Base() && p + m + n <= SS * |a.sects|
    ensures Slice(a, p, m) + Slice(a, p + m, n) == Slice(a, p, m + n)
  {
  }

  /** A slice below the size is a slice of the contents. */
  lemma SliceOfBytes(a: Cursor, p: nat, n: nat)
    requires a.Base() && p + n <= a.fsize
    ensures Slice(a, p, n) == a.Bytes()[p..p + n]
  {
  }

  /** The bytes of sectors, one after the other. */
  function FlatBytes(ds: seq<Sector>): (d: seq<byte>)
    ensures |d| == SS * |ds|
  {
    seq<byte>(SS * |ds|, i requires 0 <= i < SS * |ds| => ds[i / SS][i % SS])
  }

  /** A direct read: the sectors of the volume, with the dirty buffer laid over its own. */
  lemma DirectSlice(a: Cursor, ds: seq<Sector>, x: seq<byte>)
    requires a.Base() && a.fptr % SS == 0 && a.fptr / SS + |ds| <= |a.sects| && |ds| > 0
    requires Consecutive(a.sects, a.fptr / SS, |ds|)
    requires var s := a.sects[a.fptr / SS];
      && s + |ds| <= a.End() && a.g.FatEnd() <= s
      && ds == a.body[s - a.g.FatEnd()..s - a.g.FatEnd() + |ds|]
      && x == if a.dirty && s <= a.dsect < s + |ds| then Splice(FlatBytes(ds), SS * (a.dsect - s), a.buf)
              else FlatBytes(ds)
    ensures x == Slice(a, a.fptr, SS * |ds|)
  {
    hide Cursor.Laid, FlatBytes, Cursor.SectorAt, Splice, Slice, Consecutive;
    var s, y := a.sects[a.fptr / SS], Slice(a, a.fptr, SS * |ds|);
    forall i | 0 <= i < SS * |ds|
      ensures x[i] == y[i]
    {
      DirectSector(a, ds, i / SS);
      OverlaidByte(ds, a.dsect - s, a.buf, i);
      SliceByte(a, SS * |ds|, i);
    }
  }

  /** Byte i of a slice that starts on a sector boundary. */
  lemma SliceByte(a: Cursor, n: nat, i: nat)
    requires a.Base() && a.fptr % SS == 0 && a.fptr + n <= SS * |a.sects| && i < n
    ensures a.fptr / SS + i / SS < |a.sects|
    ensures Slice(a, a.fptr, n)[i] == a.SectorAt(a.fptr / SS + i / SS)[i % SS]
  {
    SectorOffset(a.fptr, i);
    assert Slice(a, a.fptr, n)[i] == a.ByteAt(a.fptr + i);
  }

  /** Sector k of a direct read. */
  lemma DirectSector(a: Cursor, ds: seq<Sector>, k: nat)
    requires a.Base() && a.fptr / SS + |ds| <= |a.sects| && k < |ds| && Consecutive(a.sects, a.fptr / SS, |ds|)
    requires var s := a.sects[a.fptr / SS];
      s + |ds| <= a.End() && a.g.FatEnd() <= s && ds == a.body[s - a.g.FatEnd()..s - a.g.FatEnd() + |ds|]
    ensures a.SectorAt(a.fptr / SS + k)
         == if a.dirty && a.dsect - a.sects[a.fptr / SS] == k then a.buf else ds[k]
  {
    var j := a.fptr / SS;
    assert a.sects[j + k] == a.sects[j] + k;
  }

  /** Byte i of sectors, and of sectors the d-th of which is overlaid. */
  lemma OverlaidByte(ds: seq<Sector>, d: int, buf: Sector, i: nat)
    requires i < SS * |ds|
    ensures FlatBytes(ds)[i] == ds[i / SS][i % SS]
    ensures 0 <= d < |ds| ==>
              Splice(FlatBytes(ds), SS * d, buf)[i] == if i / SS == d then buf[i % SS] else ds[i / SS][i % SS]
  {
    if 0 <= d < |ds| && i / SS != d {
      assert !(SS * d <= i < SS * d + SS);
    }
  }

  lemma SectorOffset(p: nat, i: nat)
    requires p % SS == 0
    ensures (p + i) / SS == p / SS + i / SS && (p + i) % SS == i % SS
  {
  }

  /** A partial read: bytes of the buffer that holds the sector. */
  lemma BufferSlice(a: Cursor, n: nat)
    requires a.Base() && a.fptr % SS + n <= SS && a.fptr / SS < |a.sects| && a.dsect == a.sects[a.fptr / SS]
    ensures a.fptr + n <= SS * |a.sects|
    ensures a.buf[a.fptr % SS..a.fptr % SS + n] == Slice(a, a.fptr, n)
  {
    assert a.SectorAt(a.fptr / SS) == a.buf;
    var x, y := a.buf[a.fptr % SS..a.fptr % SS + n], Slice(a, a.fptr, n);
    forall i | 0 <= i < n
      ensures x[i] == y[i]
    {
      var q := a.fptr + i;
      assert q / SS == a.fptr / SS && q % SS == a.fptr % SS + i;
      assert y[i] == a.ByteAt(q);
    }
  }

  /** On a cluster boundary below the size the next cluster exists. */
  lemma ReadIndex(a: Cursor)
    requires a.Linked() && a.Base() && a.Placed() && a.fptr % SS == 0 && a.fptr < a.fsize
    requires a.g.csize in CSIZES && Csect(a.fptr, a.g.csize) == 0
    ensures var k := if a.fptr == 0 then 0 else a.ck + 1;
      && k < |a.chain| && NextIs(a, k, a.chain[k]) && a.fptr == SS * Span(k, a.g.csize)
      && 2 <= a.chain[k] < NONE
    ensures a.sclust == a.chain[0] && Step(a, a)
  {
    FileSectorsLength(a.g, a.chain);
    var k := if a.fptr == 0 then 0 else a.ck + 1;
    if a.fptr > 0 {
      Cross(a);
    }
    if k >= |a.chain| {
      SpanMonoWeak(|a.chain|, k, a.g.csize);
    } else {
      SpanMono(k, |a.chain|, a.g.csize);
    }
  }

  lemma SpanMonoWeak(a: nat, b: nat, csize: nat)
    requires a <= b
    ensures Span(a, csize) <= Span(b, csize)
  {
    if a < b {
      SpanMono(a, b, csize);
    }
  }

  lemma SelfMoved(a: Cursor)
    requires a.Linked() && a.Base()
    ensures Moved(a, a, 0) && Step(a, a)
  {
  }

  /** Moving on inside the sector the buffer holds. */
  lemma AdvanceInSector(a: Cursor, b: Cursor, n: nat)
    requires a.Linked() && Settled(a) && n > 0 && b == a.(fptr := a.fptr + n)
    requires a.fptr % SS + n <= SS && a.dsect == a.sects[a.fptr / SS]
    ensures b.Placed() && Moved(a, b, n)
  {
    FileSectorsLength(a.g, a.chain);
    SpanMono(a.ck, |a.chain|, a.g.csize);
    Advance(a, b, n);
  }

  /** Moving on over whole sectors of the cluster. */
  lemma AdvanceRun(a: Cursor, b: Cursor, cc: nat)
    requires a.Linked() && Settled(a) && cc > 0 && b == a.(fptr := a.fptr + SS * cc)
    requires a.fptr % SS == 0 && a.fptr / SS + cc <= Span(a.ck, a.g.csize) + a.g.csize
    ensures b.Placed() && Moved(a, b, SS * cc)
  {
    hide Frame, SameSectors, IsChain, Cursor.Placed;
    FileSectorsLength(a.g, a.chain);
    SpanMono(a.ck, |a.chain|, a.g.csize);
    Advance(a, b, SS * cc);
  }

  lemma SpliceHead<T>(s: seq<T>, t: seq<T>)
    requires |t| <= |s|
    ensures Splice(s, 0, t)[..|t|] == t
  {
  }

  lemma SpliceAppend<T>(s: seq<T>, x: seq<T>, y: seq<T>)
    requires |x| + |y| <= |s|
    ensures Splice(Splice(s, 0, x), |x|, y) == Splice(s, 0, x + y)
  {
  }

  /** One more round of reading. */
  lemma ReadMore(a: Cursor, b: Cursor, c: Cursor, m: nat, n: nat, s: seq<byte>, t: seq<byte>)
    requires Moved(a, b, m) && Moved(b, c, n) && a.fptr + m + n <= a.fsize && m + n <= |s|
    requires t == Splice(Splice(s, 0, Slice(a, a.fptr, m)), m, Slice(b, b.fptr, n))
    ensures Moved(a, c, m + n) && t == Splice(s, 0, Slice(a, a.fptr, m + n))
  {
    hide Cursor.Linked, Frame, SameSectors;
    MovedTransitive(a, b, c, m, n);
    MovedSlice(a, b, m, b.fptr, n);
    SliceAppend(a, a.fptr, m, n);
    SpliceAppend(s, Slice(a, a.fptr, m), Slice(a, a.fptr + m, n));
  }

  lemma NothingRead(a: Cursor, s: seq<byte>)
    requires a.Linked() && a.Base() && a.fptr <= a.fsize
    ensures Moved(a, a, 0) && s == Splice(s, 0, Slice(a, a.fptr, 0))
  {
  }

  /** The end of a read, in terms of contents. */
  lemma AllRead(a: Cursor, c: Cursor, n: nat)
    requires Moved(a, c, n) && a.fptr + n <= a.fsize
    ensures c.Bytes() == a.Bytes() && Slice(a, a.fptr, n) == a.Bytes()[a.fptr..a.fptr + n] && Frame(a, c)
    ensures c.fptr == a.fptr + n && c.fsize == a.fsize
  {
    MovedBytes(a, c, n);
    SliceOfBytes(a, a.fptr, n);
  }

  /** The position is the first byte of the cluster clust. */
  ghost predicate AtStart(c: Cursor)
    ensures AtStart(c) ==> c.ck < |c.chain| && c.clust == c.chain[c.ck]
  {
    NextIs(c, c.ck, c.clust) && c.fptr == SS * Span(c.ck, c.g.csize)
  }

  /** The source's cluster arithmetic on byte offsets: p lies in the ck-th cluster. */
  lemma ByteCluster(csize: nat, ck: nat, p: nat)
    requires csize in CSIZES && Span(ck, csize) <= p / SS < Span(ck, csize) + csize && p < WORD
    ensures p / (SS * csize) == ck && And(p, WORD - SS * csize) == SS * Span(ck, csize)
    ensures forall q: nat {:trigger q / (SS * csize)} :: q / (SS * csize) >= ck <==> q >= SS * Span(ck, csize)
  {
    SpanIsProduct(ck, csize);
    var bcs := SS * csize;
    assert bcs * ck == SS * (ck * csize);
    RemainderIs(p, bcs, ck, p - bcs * ck);
    var k := 9 + Log(csize);
    ClearLow(p, k);
    forall q: nat
      ensures q / bcs >= ck <==> q >= bcs * ck
    {
      QuotientOrder(q, bcs, ck);
    }
  }

  function Log(csize: nat): (k: nat)
    requires csize in CSIZES
    ensures Pow2(9 + k) == SS * csize && k <= 7
  {
    assert Pow2(6) == 64;
    assert Pow2(9) == 512;
    assert Pow2(12) == 4096;
    assert Pow2(14) == 16384;
    if csize == 1 then 0 else if csize == 2 then 1 else if csize == 4 then 2 else if csize == 8 then 3
    else if csize == 16 then 4 else if csize == 32 then 5 else if csize == 64 then 6 else 7
  }

  lemma QuotientOrder(q: nat, m: nat, k: nat)
    requires m > 0
    ensures q / m >= k <==> q >= m * k
  {
    MulGap(m, q / m - k);
    assert m * (q / m - k) == m * (q / m) - m * k;
  }

  /** f_lseek starting from the current cluster, for a target in it or behind it. */
  lemma SeekHere(a: Cursor, b: Cursor, ofs: nat)
    requires a.Linked() && a.Base() && a.Placed() && a.fptr > 0 && a.g.csize in CSIZES
    requires 0 < ofs < WORD && a.fptr < WORD && (ofs - 1) / (SS * a.g.csize) >= (a.fptr - 1) / (SS * a.g.csize)
    requires b == a.(fptr := And(a.fptr - 1, WORD - SS * a.g.csize))
    ensures SameFile(a, b) && AtStart(b) && b.fptr < ofs
  {
    hide And;
    ByteCluster(a.g.csize, a.ck, a.fptr - 1);
    FileSectorsLength(a.g, a.chain);
    SpanMono(a.ck, |a.chain|, a.g.csize);
  }

  /** f_lseek starting from the first cluster. */
  lemma SeekFirst(a: Cursor, b: Cursor)
    requires a.Linked() && a.Base() && NextIs(a, 0, a.sclust)
    requires b == a.(fptr := 0, clust := a.sclust, ck := 0)
    ensures SameFile(a, b) && AtStart(b)
  {
  }

  /** While the target lies behind the cluster, a file long enough has a next one. */
  lemma SeekMore(b: Cursor, ofs: nat)
    requires b.Linked() && b.Base() && AtStart(b)
    requires ofs > SS * b.g.csize && b.fptr + ofs <= b.fsize
    ensures b.ck + 1 < |b.chain|
  {
    FileSectorsLength(b.g, b.chain);
    if b.ck + 1 >= |b.chain| {
      SpanMonoWeak(|b.chain|, b.ck + 1, b.g.csize);
    }
  }

  /** Going on to the next cluster. */
  lemma SeekNext(b: Cursor, c: Cursor, clst: nat)
    requires b.Linked() && b.Base() && AtStart(b) && b.ck + 1 < |b.chain| && b.chain[b.ck + 1] == clst
    requires c == b.(clust := clst, ck := b.ck + 1, fptr := b.fptr + SS * b.g.csize)
    ensures SameFile(b, c) && AtStart(c)
  {
    FileSectorsLength(b.g, b.chain);
    SpanMono(b.ck + 1, |b.chain|, b.g.csize);
  }

  /** The last cluster ends where the file's space ends. */
  lemma SeekEnd(b: Cursor)
    requires b.Linked() && AtStart(b) && b.ck + 1 == |b.chain|
    ensures b.fptr + SS * b.g.csize == SS * |b.sects|
  {
    FileSectorsLength(b.g, b.chain);
  }

  /** The end of the cluster walk: ofs bytes into the cluster, with the sector in the buffer
      perhaps still to be fetched. */
  lemma SeekIn(b: Cursor, c: Cursor, ofs: nat)
    requires b.Linked() && b.Base() && AtStart(b) && 0 < ofs <= SS * b.g.csize
    requires c == b.(fptr := b.fptr + ofs)
    ensures SameFile(b, c) && c.fptr <= SS * |c.sects|
    ensures ofs % SS == c.fptr % SS
    ensures c.fptr % SS == 0 ==> c.Placed()
    ensures ofs % SS != 0 ==> Settled(c) && Clust2Sect(c.g, c.clust) != 0
                              && Clust2Sect(c.g, c.clust) + ofs / SS == c.sects[c.fptr / SS]
  {
    hide IsChain;
    if ofs % SS != 0 {
      assert c.fptr / SS == Span(b.ck, b.g.csize) + ofs / SS;
      assert c.chain[c.ck] < c.g.nFatent;
      Clust2SectExact(c.g, c.End(), c.clust);
      ClusterRun(c, c.ck, c.fptr / SS);
    }
  }

  /** Inside a sector the buffer holds the cursor is in place. */
  lemma SeekHeld(d: Cursor)
    requires Settled(d) && d.dsect == d.sects[d.fptr / SS] && d.fptr % SS != 0
    ensures d.Placed()
  {
    assert (d.fptr - 1) / SS == d.fptr / SS;
  }

  /** After a seek the file reads as before up to its old size; what an extension uncovers
      is unspecified. */
  lemma SeekBytes(a: Cursor, c: Cursor, c': Cursor)
    requires SameFile(a, c) && c.fptr <= SS * |c.sects|
    requires c' == c.(fsize := if c.fptr > c.fsize then c.fptr else c.fsize)
    ensures c'.Base() && Frame(a, c') && a.fsize <= c'.fsize && c'.Bytes()[..a.fsize] == a.Bytes()
  {
    hide Cursor.Linked;
    var x, y := c'.Bytes()[..a.fsize], a.Bytes();
    forall i | 0 <= i < a.fsize
      ensures x[i] == y[i]
    {
      assert c'.ByteAt(i) == a.ByteAt(i) by {
        assert c.SectorAt(i / SS) == a.SectorAt(i / SS);
      }
    }
  }
}
