/** Whole runs of f_lseek, f_read, f_write and f_truncate on one open file: they refine a byte
    sequence with a position, and no other file notices. */
module FileRun {
  import opened Bits
  import opened Disk
  import opened Volume
  import opened FatTable
  import opened Chains
  import opened Allocator
  import opened FileSpace
  import opened FileCursor
  import opened FileIO
  import opened FileSeek
  import opened FileTruncate

  /** From a to b the table stays a partition into chains, in which the chain of the file is
      replaced by its new one. */
  ghost predicate Reshaped(a: Cursor, b: Cursor) {
    forall p :: Partition(a.fat, p) && Owned(a.chain) <= p ==>
      Partition(b.fat, p - Owned(a.chain) + Owned(b.chain)) && Owned(b.chain) !! (p - Owned(a.chain))
  }

  /** Every other chain and everything stored in its clusters stays, and so do the sectors before the
      data area, but for the entries of the file itself. */
  ghost predicate Unnoticed(a: Cursor, b: Cursor) {
    && a.g == b.g && a.margin == b.margin && |a.body| == |b.body| && |a.fat| == |b.fat|
    && (forall s :: a.g.FatEnd() <= s < a.g.database && s < a.End() ==> b.At(s) == a.At(s))
    && forall q :: IsChain(a.fat, q) && ValidChain(a.g, q) && Apart(q, a.chain) ==>
         && IsChain(b.fat, q) && Apart(q, b.chain)
         && forall s :: s in FileSectors(a.g, q) && a.g.FatEnd() <= s < a.End() ==> b.At(s) == a.At(s)
  }

  ghost predicate Harmless(a: Cursor, b: Cursor) {
    Reshaped(a, b) && Unnoticed(a, b)
  }

  lemma HarmlessTransitive(a: Cursor, b: Cursor, c: Cursor)
    requires Harmless(a, b) && Harmless(b, c)
    ensures Harmless(a, c)
  {
    ReshapedTransitive(a, b, c);
    UnnoticedTransitive(a, b, c);
  }

  lemma ReshapedTransitive(a: Cursor, b: Cursor, c: Cursor)
    requires Reshaped(a, b) && Reshaped(b, c)
    ensures Reshaped(a, c)
  {
    forall p | Partition(a.fat, p) && Owned(a.chain) <= p
      ensures Partition(c.fat, p - Owned(a.chain) + Owned(c.chain)) && Owned(c.chain) !! (p - Owned(a.chain))
    {
      var rest := p - Owned(a.chain);
      assert Partition(b.fat, rest + Owned(b.chain));
      assert rest + Owned(b.chain) - Owned(b.chain) == rest;
    }
  }

  lemma UnnoticedTransitive(a: Cursor, b: Cursor, c: Cursor)
    requires Unnoticed(a, b) && Unnoticed(b, c)
    ensures Unnoticed(a, c)
  {
  }

  /** Growing the chain of a file by free clusters. */
  lemma FrameReshapes(a: Cursor, b: Cursor)
    requires a.Linked() && b.Linked() && Frame(a, b)
    ensures Reshaped(a, b)
  {
    hide IsChain;
    forall p | Partition(a.fat, p) && Owned(a.chain) <= p
      ensures Partition(b.fat, p - Owned(a.chain) + Owned(b.chain)) && Owned(b.chain) !! (p - Owned(a.chain))
    {
      if b.chain == [] {
        SameTable(a.fat, b.fat, p);
        assert p - {} + {} == p;
      } else if a.chain == [] {
        NewOwner(a.fat, b.fat, p, b.chain);
        assert p - {} + {b.chain} == p + {b.chain};
      } else {
        ReplaceChain(a.fat, b.fat, p, a.chain, b.chain);
        forall q | q in p - {a.chain}
          ensures q != b.chain
        {
          assert Apart(q, a.chain) && a.chain[0] in a.chain && b.chain[0] in b.chain;
        }
      }
    }
  }

  lemma SameTable(f: seq<nat>, f': seq<nat>, p: set<seq<nat>>)
    requires Partition(f, p) && |f'| == |f| && forall c :: 2 <= c < |f| ==> f'[c] == f[c]
    ensures Partition(f', p)
  {
    forall ch | ch in p
      ensures IsChain(f', ch)
    {
      InUse(f, ch);
      SameChain(f, f', ch);
    }
  }

  /** A file without clusters takes free ones: its chain is new, all others stay. */
  lemma NewOwner(f: seq<nat>, f': seq<nat>, p: set<seq<nat>>, ch: seq<nat>)
    requires Partition(f, p) && |f'| == |f| && IsChain(f', ch)
    requires forall c :: 2 <= c < |f| && c !in ch ==> f'[c] == f[c]
    requires forall c :: 2 <= c < |f| && f[c] != 0 ==> c !in ch
    ensures Partition(f', p + {ch}) && ch !in p
  {
    forall q | q in p
      ensures IsChain(f', q) && Apart(q, ch) && q != ch
    {
      InUse(f, q);
      assert q[0] in q && ch[0] in ch;
      SameChain(f, f', q);
    }
    AddDisjoint(p, ch);
    forall c | 2 <= c < |f'| && f'[c] != 0
      ensures OnChain(c, p + {ch})
    {
      if c in ch {
        assert ch in p + {ch};
      } else {
        var q :| q in p && c in q;
        assert q in p + {ch};
      }
    }
  }

  lemma FrameUnnoticed(a: Cursor, b: Cursor)
    requires a.Linked() && b.Linked() && Frame(a, b)
    ensures Unnoticed(a, b)
  {
    FileSectorsDistinct(b.g, b.End(), b.chain);
    forall q | IsChain(a.fat, q) && ValidChain(a.g, q) && Apart(q, a.chain)
      ensures IsChain(b.fat, q) && Apart(q, b.chain)
      ensures forall s :: s in FileSectors(a.g, q) && a.g.FatEnd() <= s < a.End() ==> b.At(s) == a.At(s)
    {
      InUse(a.fat, q);
      SameChain(a.fat, b.fat, q);
      forall s | s in FileSectors(a.g, q) && a.g.FatEnd() <= s < a.End()
        ensures b.At(s) == a.At(s)
      {
        FilesApart(a.g, q, b.chain, s);
      }
    }
  }

  lemma FrameHarmless(a: Cursor, b: Cursor)
    requires a.Linked() && b.Linked() && Frame(a, b)
    ensures Harmless(a, b)
  {
    FrameReshapes(a, b);
    FrameUnnoticed(a, b);
  }

  lemma TruncatedHarmless(a: Cursor, y: Info)
    requires a.Ok() && a.fptr < a.fsize
    ensures Harmless(a, Truncated(a, y))
  {
    var b, k := Truncated(a, y), Covering(a);
    TruncatedOk(a, y);
    assert a.chain != [] && Owned(a.chain) == {a.chain};
    forall p | Partition(a.fat, p) && Owned(a.chain) <= p
      ensures Partition(b.fat, p - Owned(a.chain) + Owned(b.chain)) && Owned(b.chain) !! (p - Owned(a.chain))
    {
      TruncatedPartition(a, p);
      if k > 0 {
        forall q | q in p - {a.chain}
          ensures q != b.chain
        {
          assert Apart(q, a.chain) && a.chain[0] in a.chain && b.chain[0] in b.chain;
        }
      }
    }
    OutsideUnnoticed(a, b);
  }

  lemma OutsideUnnoticed(a: Cursor, b: Cursor)
    requires a.Linked() && Outside(a, b) && b.chain <= a.chain
    ensures Unnoticed(a, b)
  {
    FileSectorsDistinct(a.g, a.End(), a.chain);
    forall q | IsChain(a.fat, q) && ValidChain(a.g, q) && Apart(q, a.chain)
      ensures IsChain(b.fat, q) && Apart(q, b.chain)
      ensures forall s :: s in FileSectors(a.g, q) && a.g.FatEnd() <= s < a.End() ==> b.At(s) == a.At(s)
    {
      InUse(a.fat, q);
      SameChain(a.fat, b.fat, q);
      forall s | s in FileSectors(a.g, q) && a.g.FatEnd() <= s < a.End()
        ensures b.At(s) == a.At(s)
      {
        FilesApart(a.g, q, a.chain, s);
      }
    }
  }

  /** The calls on an open file, and what they answer besides FR_OK. */
  datatype Op = Seek(ofs: nat) | Read(n: nat) | Write(data: seq<byte>) | Truncate {
    predicate Fits() {
      match this
      case Seek(ofs) => ofs < WORD
      case Write(d) => |d| < WORD
      case _ => true
    }
  }

  datatype Answer = Nothing | Got(data: seq<byte>) | Count(n: nat)

  /** The abstract state of an open file: contents, position, and the table. */
  datatype Plain = Plain(file: seq<byte>, pos: nat, fat: seq<nat>)

  function Min(a: nat, b: nat): nat {
    if a < b then a else b
  }

  /** What each call does to a byte sequence with a position. A seek or a write falls short
      only when no cluster is free; the bytes a seek uncovers are unspecified. */
  ghost predicate Meets(op: Op, writable: bool, s: Plain, t: Plain, ans: Answer)
    requires s.pos <= |s.file|
  {
    t.pos <= |t.file| &&
    match op
    case Seek(ofs) =>
      var target := if writable then ofs else Min(ofs, |s.file|);
      && ans.Nothing? && s.file <= t.file
      && |t.file| == (if t.pos > |s.file| then t.pos else |s.file|)
      && (t.pos == target || (t.pos < target && NoHit(t.fat)))
    case Read(n) =>
      var m := Min(n, |s.file| - s.pos);
      t == s.(pos := s.pos + m) && ans == Got(s.file[s.pos..s.pos + m])
    case Write(d) =>
      && ans.Count? && ans.n <= |d|
      && t.file == Overwrite(s.file, s.pos, d[..ans.n]) && t.pos == s.pos + ans.n
      && if s.pos + |d| >= WORD then ans.n == 0 else ans.n == |d| || NoHit(t.fat)
    case Truncate =>
      ans.Nothing? && t.file == s.file[..s.pos] && t.pos == s.pos
  }

  ghost function Abs(fp: Fil): (s: Plain)
    requires fp.Valid()
    reads fp, fp.buf, fp.fs`winsect, fp.fs`wflag, fp.fs`lastClust, fp.fs`freeClust, fp.fs`fsiDirty, fp.fs.win,
          fp.fs.disk
    ensures s.pos <= |s.file|
  {
    Plain(fp.Bytes(), fp.fptr, fp.fs.Fat())
  }

  /** One call that answers FR_OK meets the abstract file and harms no other. */
  method Call(fp: Fil, op: Op) returns (res: FResult, ans: Answer)
    requires fp.Ready() && op.Fits()
    modifies fp.fs`winsect, fp.fs`wflag, fp.fs`lastClust, fp.fs`freeClust, fp.fs`fsiDirty, fp.fs.win, fp.fs.disk
    modifies fp`sclust, fp`chain, fp`sects, fp`clust, fp`ck, fp`fptr, fp`dirty, fp`dsect, fp`fsize, fp`written,
             fp`err, fp.buf
    ensures Kept(fp.fs) && fp.Ready()
    ensures res.FR_OK? ==> old(fp.err).FR_OK? && fp.err.FR_OK?
    ensures res.FR_OK? ==> Meets(op, fp.writable, old(Abs(fp)), Abs(fp), ans)
    ensures res.FR_OK? ==> Harmless(old(fp.Cur()), fp.Cur())
    ensures res.FR_OK? && old(CountOk(fp.fs)) ==> CountOk(fp.fs)
    ensures !res.FR_OK? ==> res == old(fp.err) || res.FR_DENIED? || (res.FR_DISK_ERR? && fp.fs.disk.faulted)
                            || (res.FR_INT_ERR? && Illegal(fp.fs.Fat()))
  {
    match op
    case Seek(ofs) =>
      ans := Nothing;
      res := CallSeek(fp, ofs);
    case Read(n) =>
      res, ans := CallRead(fp, n);
    case Write(d) =>
      res, ans := CallWrite(fp, d);
    case Truncate =>
      ans := Nothing;
      res := CallTruncate(fp);
  }

  method CallSeek(fp: Fil, ofs: nat) returns (res: FResult)
    requires fp.Ready() && ofs < WORD
    modifies fp.fs`winsect, fp.fs`wflag, fp.fs`lastClust, fp.fs`freeClust, fp.fs`fsiDirty, fp.fs.win, fp.fs.disk
    modifies fp`sclust, fp`chain, fp`sects, fp`clust, fp`ck, fp`fptr, fp`dirty, fp`dsect, fp`fsize, fp`written,
             fp`err, fp.buf
    ensures Kept(fp.fs) && fp.Ready()
    ensures res.FR_OK? ==> old(fp.err).FR_OK? && fp.err.FR_OK?
    ensures res.FR_OK? ==> Meets(Seek(ofs), fp.writable, old(Abs(fp)), Abs(fp), Nothing)
    ensures res.FR_OK? ==> Harmless(old(fp.Cur()), fp.Cur())
    ensures res.FR_OK? && old(CountOk(fp.fs)) ==> CountOk(fp.fs)
    ensures !res.FR_OK? ==> res == old(fp.err) || (res.FR_DISK_ERR? && fp.fs.disk.faulted)
                            || (res.FR_INT_ERR? && Illegal(fp.fs.Fat()))
  {
    hide Fatfs.Valid, Fatfs.View, Fatfs.Img, Fatfs.Mirrored, Fil.Cur, Geometry.Fits, Frame, Harmless,
         Cursor.Base, Cursor.Placed, Cursor.Linked, Cursor.Bytes;
    ghost var a := fp.Cur();
    res := FLseek(fp, ofs);
    if res.FR_OK? {
      FrameHarmless(a, fp.Cur());
    }
  }

  method CallRead(fp: Fil, n: nat) returns (res: FResult, ans: Answer)
    requires fp.Ready()
    modifies fp.fs`winsect, fp.fs`wflag, fp.fs.win, fp.fs.disk
    modifies fp`clust, fp`ck, fp`dirty, fp`dsect, fp`fptr, fp`err, fp.buf
    ensures Kept(fp.fs) && fp.Ready()
    ensures res.FR_OK? ==> old(fp.err).FR_OK? && fp.err.FR_OK?
    ensures res.FR_OK? ==> Meets(Read(n), fp.writable, old(Abs(fp)), Abs(fp), ans)
    ensures res.FR_OK? ==> Harmless(old(fp.Cur()), fp.Cur())
    ensures res.FR_OK? && old(CountOk(fp.fs)) ==> CountOk(fp.fs)
    ensures !res.FR_OK? ==> res == old(fp.err) || res.FR_DENIED? || (res.FR_DISK_ERR? && fp.fs.disk.faulted)
  {
    hide Fatfs.Valid, Fatfs.View, Fatfs.Img, Fatfs.Mirrored, Fil.Cur, Geometry.Fits, Frame, Harmless,
         Cursor.Base, Cursor.Placed, Cursor.Linked, Cursor.Bytes;
    ghost var a := fp.Cur();
    var br;
    var buff := new byte[n](i => 0);
    ghost var was := buff[..];
    res, br := FRead(fp, buff, n);
    ans := Got(buff[..Min(n, br)]);
    if res.FR_OK? {
      SpliceHead(was, old(fp.Bytes())[old(fp.fptr)..old(fp.fptr) + br]);
      FrameHarmless(a, fp.Cur());
    }
  }

  method CallWrite(fp: Fil, d: seq<byte>) returns (res: FResult, ans: Answer)
    requires fp.Ready() && |d| < WORD
    modifies fp.fs`winsect, fp.fs`wflag, fp.fs`lastClust, fp.fs`freeClust, fp.fs`fsiDirty, fp.fs.win, fp.fs.disk
    modifies fp`sclust, fp`chain, fp`sects, fp`clust, fp`ck, fp`fptr, fp`dirty, fp`dsect, fp`fsize, fp`written,
             fp`err, fp.buf
    ensures Kept(fp.fs) && fp.Ready()
    ensures res.FR_OK? ==> old(fp.err).FR_OK? && fp.err.FR_OK?
    ensures res.FR_OK? ==> Meets(Write(d), fp.writable, old(Abs(fp)), Abs(fp), ans)
    ensures res.FR_OK? ==> Harmless(old(fp.Cur()), fp.Cur())
    ensures res.FR_OK? && old(CountOk(fp.fs)) ==> CountOk(fp.fs)
    ensures !res.FR_OK? ==> res == old(fp.err) || res.FR_DENIED? || (res.FR_DISK_ERR? && fp.fs.disk.faulted)
                            || (res.FR_INT_ERR? && Illegal(fp.fs.Fat()))
  {
    hide Fatfs.Valid, Fatfs.View, Fatfs.Img, Fatfs.Mirrored, Fil.Cur, Geometry.Fits, Frame, Harmless,
         Cursor.Base, Cursor.Placed, Cursor.Linked, Cursor.Bytes;
    ghost var a := fp.Cur();
    var bw;
    res, bw := FWrite(fp, d);
    ans := Count(bw);
    if res.FR_OK? {
      FrameHarmless(a, fp.Cur());
    }
  }

  method CallTruncate(fp: Fil) returns (res: FResult)
    requires fp.Ready()
    modifies fp.fs`winsect, fp.fs`wflag, fp.fs`freeClust, fp.fs`fsiDirty, fp.fs.win, fp.fs.disk
    modifies fp`sclust, fp`chain, fp`sects, fp`dirty, fp`fsize, fp`written, fp`err
    ensures Kept(fp.fs) && fp.Ready()
    ensures res.FR_OK? ==> old(fp.err).FR_OK? && fp.err.FR_OK?
    ensures res.FR_OK? ==> Meets(Truncate, fp.writable, old(Abs(fp)), Abs(fp), Nothing)
    ensures res.FR_OK? ==> Harmless(old(fp.Cur()), fp.Cur())
    ensures res.FR_OK? && old(CountOk(fp.fs)) ==> CountOk(fp.fs)
    ensures !res.FR_OK? ==> res == old(fp.err) || res.FR_DENIED? || (res.FR_DISK_ERR? && fp.fs.disk.faulted)
  {
    hide Fatfs.Valid, Fatfs.View, Fatfs.Img, Fatfs.Mirrored, Fil.Cur, Geometry.Fits, Frame, Harmless,
         Cursor.Base, Cursor.Placed, Cursor.Linked, Cursor.Bytes;
    ghost var a := fp.Cur();
    res := FTruncate(fp);
    if res.FR_OK? {
      CutHarmless(a, fp.Cur());
    }
  }

  lemma CutHarmless(a: Cursor, b: Cursor)
    requires a.Ok() && b.Linked() && Outside(a, b)
    requires if a.fptr < a.fsize
             then Covering(a) <= |a.chain| && b.chain == a.chain[..Covering(a)] && b.fat == CutFat(a)
             else b == a
    ensures Harmless(a, b)
  {
    if a.fptr < a.fsize {
      TruncatedHarmless(a, b.info);
      OutsideUnnoticed(a, b);
    } else {
      FrameHarmless(a, b);
    }
  }

  /** The state after call i of a run. */
  ghost predicate Follows(ops: seq<Op>, writable: bool, trace: seq<Plain>, answers: seq<Answer>)
  {
    && |answers| <= |ops| && |trace| == |answers| + 1
    && (forall i :: 0 <= i < |trace| ==> trace[i].pos <= |trace[i].file|)
    && forall i :: 0 <= i < |answers| ==> Meets(ops[i], writable, trace[i], trace[i + 1], answers[i])
  }

  /** A run of calls, up to the first that fails: every answer is the one a byte sequence with
      a position would give, the table stays a partition into chains with only the chain of
      this file replaced, the free count stays exact, and no other file changes. */
  method Run(fp: Fil, ops: seq<Op>) returns (res: FResult, answers: seq<Answer>, ghost trace: seq<Plain>)
    requires fp.Ready() && fp.err.FR_OK? && forall i :: 0 <= i < |ops| ==> ops[i].Fits()
    modifies fp.fs`winsect, fp.fs`wflag, fp.fs`lastClust, fp.fs`freeClust, fp.fs`fsiDirty, fp.fs.win, fp.fs.disk
    modifies fp`sclust, fp`chain, fp`sects, fp`clust, fp`ck, fp`fptr, fp`dirty, fp`dsect, fp`fsize, fp`written,
             fp`err, fp.buf
    ensures Kept(fp.fs) && fp.Ready()
    ensures Follows(ops, fp.writable, trace, answers) && trace[0] == old(Abs(fp))
    ensures res.FR_OK? ==> |answers| == |ops| && fp.Valid() && trace[|ops|] == Abs(fp)
    ensures res.FR_OK? ==> Harmless(old(fp.Cur()), fp.Cur()) && (old(CountOk(fp.fs)) ==> CountOk(fp.fs))
    ensures res.FR_OK? || res.FR_DENIED? || (res.FR_DISK_ERR? && fp.fs.disk.faulted)
            || (res.FR_INT_ERR? && Illegal(fp.fs.Fat()))
  {
    hide Fatfs.Valid, Fatfs.View, Fatfs.Img, Fatfs.Mirrored, Fil.Cur, Geometry.Fits, Frame, Harmless, Meets,
         Cursor.Base, Cursor.Placed, Cursor.Linked, Cursor.Bytes;
    ghost var a := fp.Cur();
    res, answers := FR_OK, [];
    trace := [Abs(fp)];
    Unharmed(a);
    while |answers| < |ops|
      invariant |answers| <= |ops| && res.FR_OK? && fp.err.FR_OK? && fp.Ready() && Kept(fp.fs)
      invariant Follows(ops, fp.writable, trace, answers) && trace[0] == old(Abs(fp)) && trace[|answers|] == Abs(fp)
      invariant Harmless(a, fp.Cur()) && (old(CountOk(fp.fs)) ==> CountOk(fp.fs))
    {
      ghost var b := fp.Cur();
      var ans;
      res, ans := Call(fp, ops[|answers|]);
      if res != FR_OK {
        return;
      }
      HarmlessTransitive(a, b, fp.Cur());
      answers := answers + [ans];
      trace := trace + [Abs(fp)];
    }
  }

  lemma Unharmed(a: Cursor)
    requires a.Linked()
    ensures Harmless(a, a)
  {
    FrameHarmless(a, a);
  }

  /** Reading back what a complete write stored. */
  lemma ReadAfterWrite(s: Plain, t: Plain, u: Plain, v: Plain, d: seq<byte>, w: Answer, r: Answer)
    requires s.pos <= |s.file| && t.pos <= |t.file| && u.pos <= |u.file|
    requires Meets(Write(d), true, s, t, w) && w.n == |d|
    requires Meets(Seek(s.pos), true, t, u, Nothing) && u.pos == s.pos
    requires Meets(Read(|d|), true, u, v, r)
    ensures r == Got(d)
  {
    assert d[..|d|] == d;
    assert u.file == t.file;
  }
}
