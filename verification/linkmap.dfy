/** Fast seek: the cluster link map of a file, its creation by f_lseek and its use. This code
    is compiled with _USE_FASTSEEK only. */
module LinkMap {
  import opened Bits
  import opened Disk
  import opened Volume
  import opened FatTable
  import opened Chains
  import opened FileSpace
  import opened FileCursor
  import opened FileIO
  import opened FileSeek

  /** How many clusters at the head of a chain are consecutive. */
  ghost function RunLength(ch: seq<nat>): (n: nat)
    ensures n <= |ch| && (ch != [] ==> n > 0)
    ensures forall i :: 0 <= i < n ==> ch[i] == ch[0] + i
    ensures 0 < n < |ch| ==> ch[n] != ch[0] + n
  {
    if |ch| <= 1 then |ch|
    else if ch[1] != ch[0] + 1 then 1
    else
      var n := RunLength(ch[1..]);
      assert forall i :: 0 < i < n + 1 ==> ch[i] == ch[1..][i - 1];
      n + 1
  }

  /** The run-length encoding of a chain: length and first cluster of every fragment. */
  ghost function Encode(ch: seq<nat>): (items: seq<nat>)
    ensures |items| % 2 == 0
    decreases |ch|
  {
    if ch == [] then [] else [RunLength(ch), ch[0]] + Encode(ch[RunLength(ch)..])
  }

  /** Clusters 5, 6, 7 and 10: three from 5 on, one at 10. */
  lemma EncodeExample()
    ensures Encode([5, 6, 7, 10]) == [3, 5, 1, 10]
    ensures forall tbl: seq<nat> :: Holds(tbl, [3, 5, 1, 10]) ==> tbl[..6] == [6, 3, 5, 1, 10, 0]
  {
    hide RunLength;
    var ch: seq<nat> := [5, 6, 7, 10];
    var one: seq<nat> := [10];
    RunExample();
    assert ch[3..] == one && one[1..] == [];
    Unfold(ch);
    Unfold(one);
    forall tbl: seq<nat> | Holds(tbl, [3, 5, 1, 10])
      ensures tbl[..6] == [6, 3, 5, 1, 10, 0]
    {
      assert tbl[..6] == [tbl[0]] + tbl[1..5] + [tbl[5]];
    }
  }

  lemma RunExample()
    ensures RunLength([5, 6, 7, 10]) == 3 && RunLength([10]) == 1
  {
    var ch: seq<nat> := [5, 6, 7, 10];
    assert ch[1..] == [6, 7, 10] && ch[1..][1..] == [7, 10];
    assert RunLength(ch[1..][1..]) == 1;
    assert RunLength(ch[1..]) == 2;
  }

  /** The clusters a table of fragments stands for. */
  ghost function Expand(items: seq<nat>): seq<nat>
    decreases |items|
  {
    if |items| < 2 then [] else Run(items[1], items[0]) + Expand(items[2..])
  }

  lemma {:induction false} ExpandEncode(ch: seq<nat>)
    ensures Expand(Encode(ch)) == ch
    decreases |ch|
  {
    if ch != [] {
      hide *;
      FirstRun(ch);
      ExpandEncode(ch[RunLength(ch)..]);
      Unfold(ch);
      ExpandStep(RunLength(ch), ch[0], Encode(ch[RunLength(ch)..]));
    }
  }

  lemma FirstRun(ch: seq<nat>)
    requires ch != []
    ensures Run(ch[0], RunLength(ch)) + ch[RunLength(ch)..] == ch
  {
    hide *;
    RunOf(ch, RunLength(ch));
    Rejoined(ch, RunLength(ch));
  }

  lemma Rejoined(s: seq<nat>, n: nat)
    requires n <= |s|
    ensures s[..n] + s[n..] == s
  {
  }

  lemma RunOf(ch: seq<nat>, n: nat)
    requires 0 < n <= |ch| && forall i :: 0 <= i < n ==> ch[i] == ch[0] + i
    ensures Run(ch[0], n) == ch[..n]
  {
    forall i | 0 <= i < n
      ensures Run(ch[0], n)[i] == ch[..n][i]
    {
    }
  }

  lemma ExpandStep(n: nat, c: nat, rest: seq<nat>)
    ensures Expand([n, c] + rest) == Run(c, n) + Expand(rest)
  {
    assert ([n, c] + rest)[2..] == rest;
  }

  /** No fragment of the encoding is empty, and none could be joined to the next. */
  ghost predicate Compact(items: seq<nat>)
    decreases |items|
  {
    |items| >= 2 ==>
      && items[0] > 0
      && (|items| >= 4 ==> items[3] != items[1] + items[0])
      && Compact(items[2..])
  }

  lemma {:induction false} EncodeCompact(ch: seq<nat>)
    ensures Compact(Encode(ch))
    decreases |ch|
  {
    if ch != [] {
      var n := RunLength(ch);
      EncodeCompact(ch[n..]);
      assert Encode(ch)[2..] == Encode(ch[n..]);
      if |Encode(ch)| >= 4 {
        assert Encode(ch)[3] == ch[n..][0];
      }
    }
  }

  /** Following the links k times from cluster c. */
  ghost function Follow(f: seq<nat>, c: nat, k: nat): nat {
    if k == 0 then c else FatValue(f, Follow(f, c, k - 1))
  }

  lemma {:induction false} FollowChain(f: seq<nat>, ch: seq<nat>, k: nat)
    requires IsChain(f, ch) && k < |ch|
    ensures Follow(f, ch[0], k) == ch[k]
  {
    if k > 0 {
      FollowChain(f, ch, k - 1);
      LinkAt(f, ch, k - 1);
    }
  }

  /** A chain that ends in the last cluster of the volume, with an end value that looks like
      the number of the next cluster. */
  ghost predicate EndsInLink(f: seq<nat>, ch: seq<nat>) {
    ch != [] && ch[|ch| - 1] == |f| - 1 && ch[|ch| - 1] < |f| && f[ch[|ch| - 1]] == |f|
  }

  /** The table holds the fragments, behind the number of its items and before a zero. */
  ghost predicate Holds(tbl: seq<nat>, items: seq<nat>) {
    && |items| + 2 <= |tbl| && tbl[0] == |items| + 2
    && tbl[1..1 + |items|] == items && tbl[1 + |items|] == 0
  }

  /** How many of the clusters from index i on have been walked when the walk stands at index
      j, and which fragments are complete. */
  lemma {:induction false} EncodeAppend(ch: seq<nat>, i: nat, j: nat)
    requires i < j <= |ch| && (forall k :: i <= k < j ==> ch[k] == ch[i] + (k - i))
    requires j < |ch| ==> ch[j] != ch[i] + (j - i)
    requires i > 0 ==> ch[i] != ch[i - 1] + 1
    ensures Encode(ch[..j]) == Encode(ch[..i]) + [j - i, ch[i]]
    decreases i
  {
    hide Encode, RunLength;
    if i == 0 {
      RunIs(ch[..j], j);
      Unfold(ch[..j]);
      assert ch[..j][j..] == [] && ch[..0] == [];
      Empty();
    } else {
      var n := RunLength(ch[..i]);
      RunOfPrefix(ch, i, j);
      Unfold(ch[..i]);
      Unfold(ch[..j]);
      var rest, tail := ch[n..], [j - i, ch[i]];
      assert ch[..j][n..] == rest[..j - n] && ch[..i][n..] == rest[..i - n];
      EncodeAppend(rest, i - n, j - n);
      assert [n, ch[0]] + (Encode(rest[..i - n]) + tail) == ([n, ch[0]] + Encode(rest[..i - n])) + tail;
    }
  }

  lemma Empty()
    ensures Encode([]) == []
  {
  }

  lemma Unfold(ch: seq<nat>)
    requires ch != []
    ensures Encode(ch) == [RunLength(ch), ch[0]] + Encode(ch[RunLength(ch)..])
  {
  }

  lemma RunOfPrefix(ch: seq<nat>, i: nat, j: nat)
    requires 0 < i < j <= |ch| && ch[i] != ch[i - 1] + 1
    ensures RunLength(ch[..j]) == RunLength(ch[..i])
  {
    var n := RunLength(ch[..i]);
    assert ch[..i][n - 1] == ch[n - 1];
    forall k | 0 <= k < n
      ensures ch[..j][k] == ch[..j][0] + k
    {
      assert ch[..i][k] == ch[k];
    }
    if n < i {
      assert ch[..i][n] == ch[n];
    }
    RunIs(ch[..j], n);
  }

  lemma RunIs(ch: seq<nat>, n: nat)
    requires 0 < n <= |ch| && (forall k :: 0 <= k < n ==> ch[k] == ch[0] + k)
    requires n < |ch| ==> ch[n] != ch[0] + n
    ensures RunLength(ch) == n
  {
    var m := RunLength(ch);
  }

  /** The clusters i..j-1 of a chain are one fragment, and the link behind it leads elsewhere. */
  ghost predicate Fragment(f: seq<nat>, ch: seq<nat>, i: nat, j: nat, next: nat)
    requires IsChain(f, ch)
  {
    && i < j <= |ch|
    && (forall k :: i <= k < j ==> ch[k] == ch[i] + (k - i))
    && next == f[ch[j - 1]] && next != ch[j - 1] + 1
    && (j == |ch| <==> next >= |f|)
    && (j < |ch| ==> next == ch[j])
  }

  /** The inner loop of the map creation: the length of the fragment that starts at cl. */
  method GetFragment(fs: Fatfs, top: nat, ghost ch: seq<nat>, ghost i: nat) returns (res: FResult, cl: nat, ncl: nat)
    requires fs.Valid() && IsChain(fs.Fat(), ch) && i < |ch| && top == ch[i]
    modifies fs`winsect, fs`wflag, fs.win, fs.disk
    ensures Kept(fs) && fs.View() == old(fs.View())
    ensures res.FR_OK? || (res.FR_DISK_ERR? && fs.disk.faulted) || (res.FR_INT_ERR? && EndsInLink(fs.Fat(), ch))
    ensures res.FR_OK? ==> Fragment(fs.Fat(), ch, i, i + ncl, cl)
    ensures res.FR_OK? && i + ncl == |ch| ==> !EndsInLink(fs.Fat(), ch)
  {
    hide Fatfs.Valid, Fatfs.View, Fatfs.Img, Fatfs.Mirrored, Geometry.Fits;
    ghost var f := fs.Fat();
    res, cl, ncl := FR_OK, top, 0;
    var more := true;
    while more
      invariant Kept(fs) && fs.View() == old(fs.View())
      invariant i + ncl <= |ch| && forall k :: i <= k < i + ncl ==> ch[k] == ch[i] + (k - i)
      invariant more && ncl > 0 ==> cl == ch[i + ncl - 1] + 1
      invariant more ==> if i + ncl < |ch| then cl == ch[i + ncl] else cl == |f| && EndsInLink(f, ch)
      invariant !more ==> ncl > 0 && Fragment(f, ch, i, i + ncl, cl)
      decreases more, |ch| - ncl
    {
      var pcl := cl;
      ncl := ncl + 1;
      cl := GetFat(fs, cl);
      if cl <= 1 {
        ChainRuns(f, ch, i + ncl - 1);
        return FR_INT_ERR, cl, ncl;
      }
      if cl == NONE {
        return FR_DISK_ERR, cl, ncl;
      }
      LinkAt(f, ch, i + ncl - 1);
      more := cl == pcl + 1;
    }
  }

  lemma ChainRuns(f: seq<nat>, ch: seq<nat>, k: nat)
    requires IsChain(f, ch)
    ensures k < |ch| ==> FatValue(f, ch[k]) >= 2
  {
    if k < |ch| {
      InUse(f, ch);
      assert ch[k] in ch;
    }
  }

  /** Stores the length and top of a fragment behind the w - 1 items of the table. */
  method StoreFragment(cltbl: array<nat>, w: nat, ncl: nat, tcl: nat)
    requires 1 <= w && w + 1 < cltbl.Length
    modifies cltbl
    ensures cltbl[0] == old(cltbl[0]) && cltbl[1..w + 2] == old(cltbl[1..w]) + [ncl, tcl]
  {
    cltbl[w], cltbl[w + 1] := ncl, tcl;
  }

  /** f_lseek with CREATE_LINKMAP. It fails on a sound chain only if the table is too small or
      the end value of the chain passes for a link to the next cluster. */
  method CreateLinkMap(fs: Fatfs, sclust: nat, cltbl: array<nat>, ghost ch: seq<nat>) returns (res: FResult)
    requires fs.Valid() && (if sclust == 0 then ch == [] else IsChain(fs.Fat(), ch) && ch[0] == sclust)
    requires 1 <= cltbl.Length && cltbl[0] <= cltbl.Length
    modifies fs`winsect, fs`wflag, fs.win, fs.disk, cltbl
    ensures Kept(fs) && fs.View() == old(fs.View())
    ensures res in {FR_OK, FR_NOT_ENOUGH_CORE, FR_INT_ERR} || (res.FR_DISK_ERR? && fs.disk.faulted)
    ensures !res.FR_DISK_ERR? ==> (res.FR_INT_ERR? <==> EndsInLink(fs.Fat(), ch))
    ensures res.FR_OK? || res.FR_NOT_ENOUGH_CORE? ==>
              && cltbl[0] == |Encode(ch)| + 2
              && (res.FR_OK? <==> |Encode(ch)| + 2 <= old(cltbl[0]))
    ensures res.FR_OK? ==> Holds(cltbl[..], Encode(ch))
  {
    hide Fatfs.Valid, Fatfs.View, Fatfs.Img, Fatfs.Mirrored, Geometry.Fits, Encode;
    ghost var f := fs.Fat();
    var w, tlen, ulen := 1, cltbl[0], 2;
    var cl := sclust;
    ghost var i := 0;
    res := FR_OK;
    Empty();
    assert ch[..0] == [];
    if cl != 0 {
      while cl < fs.g.nFatent
        invariant i <= |ch| && Kept(fs) && fs.View() == old(fs.View()) && res.FR_OK?
        invariant if i < |ch| then cl == ch[i] < |f| else cl >= |f| && !EndsInLink(f, ch)
        invariant 0 < i < |ch| ==> ch[i] != ch[i - 1] + 1
        invariant ulen == |Encode(ch[..i])| + 2 && cltbl[0] == tlen
        invariant ulen <= tlen ==> w == ulen - 1 && cltbl[1..w] == Encode(ch[..i])
        decreases |ch| - i
      {
        var tcl, ncl := cl, 0;
        ulen := ulen + 2;
        res, cl, ncl := GetFragment(fs, cl, ch, i);
        if res != FR_OK {
          return;
        }
        EncodeAppend(ch, i, i + ncl);
        if ulen <= tlen {
          StoreFragment(cltbl, w, ncl, tcl);
          w := w + 2;
        }
        i := i + ncl;
      }
      assert ch[..i] == ch;
    }
    cltbl[0] := ulen;
    if ulen <= tlen {
      cltbl[w] := 0;
    } else {
      res := FR_NOT_ENOUGH_CORE;
    }
  }

  /** Not every sound chain gets its map: this one ends in the last cluster of a volume of one
      cluster, with a value that passes for a link. */
  lemma EndsInLinkHappens()
    ensures var f, ch := [0, 0, 3], [2]; IsChain(f, ch) && EndsInLink(f, ch)
  {
    var f, ch := [0, 0, 3], [2];
    assert IsChain(f, ch);
  }

  /** A chain with an end mark proper always gets its map. */
  lemma ProperEnd(f: seq<nat>, g: Geometry, ch: seq<nat>)
    requires IsChain(f, ch) && |f| == g.nFatent <= g.Range() - 9 && f[ch[|ch| - 1]] >= g.Range() - 8
    ensures !EndsInLink(f, ch)
  {
  }

  /** The k-th cluster, or 0 behind the end. */
  ghost function Nth(items: seq<nat>, k: nat): nat {
    var ch := Expand(items);
    if k < |ch| then ch[k] else 0
  }

  lemma NthStep(items: seq<nat>, k: nat)
    requires |items| >= 2
    ensures Nth(items, k) == if k < items[0] then items[1] + k else Nth(items[2..], k - items[0])
  {
    var run := Run(items[1], items[0]);
    assert Expand(items) == run + Expand(items[2..]);
    if k >= items[0] {
      assert k - items[0] < |Expand(items[2..])| ==> Expand(items)[k] == Expand(items[2..])[k - items[0]];
    }
  }

  /** clmt_clust. */
  method ClmtClust(cltbl: array<nat>, csize: nat, ofs: nat, ghost items: seq<nat>) returns (cl: nat)
    requires csize > 0 && Holds(cltbl[..], items) && Compact(items) && |items| % 2 == 0
    ensures cl == Nth(items, ofs / SS / csize)
  {
    var t := 1;
    cl := ofs / SS / csize;
    ghost var k := cl;
    while true
      invariant 1 <= t <= |items| + 1 && t % 2 == 1
      invariant Compact(items[t - 1..]) && Nth(items[t - 1..], cl) == Nth(items, k)
      decreases |items| - t
    {
      ghost var rest := items[t - 1..];
      assert t <= |items| ==> cltbl[t] == cltbl[..][1..1 + |items|][t - 1];
      assert t < |items| ==> cltbl[t + 1] == cltbl[..][1..1 + |items|][t];
      var ncl := cltbl[t];
      t := t + 1;
      if ncl == 0 {
        assert rest == [];
        return 0;
      }
      assert |rest| >= 2 && ncl == rest[0] && cltbl[t] == rest[1];
      NthStep(rest, cl);
      if cl < ncl {
        break;
      }
      cl := cl - ncl;
      t := t + 1;
      assert rest[2..] == items[t - 1..];
    }
    cl := cl + cltbl[t];
  }

  /** The map answers what following the chain answers, for every offset in the clusters of the
      file, and 0 behind them. */
  lemma MapFollowsChain(f: seq<nat>, ch: seq<nat>, k: nat)
    requires IsChain(f, ch)
    ensures Compact(Encode(ch)) && Nth(Encode(ch), k) == if k < |ch| then Follow(f, ch[0], k) else 0
  {
    ExpandEncode(ch);
    EncodeCompact(ch);
    if k < |ch| {
      FollowChain(f, ch, k);
    }
  }

  /** Sector j of a file lies in its cluster j / csize, at the offset the mask gives. */
  lemma SectorCluster(j: nat, csize: nat) returns (k: nat, o: nat)
    requires csize in CSIZES
    ensures k == j / csize && o == And(j, csize - 1) && o < csize && j == Span(k, csize) + o
  {
    k, o := j / csize, j % csize;
    SpanIsProduct(k, csize);
    MaskCsize(j, csize);
    assert j == csize * k + o;
  }

  lemma HasSector(a: Cursor, j: nat, k: nat)
    requires a.Linked() && j < |a.sects| && Span(k, a.g.csize) <= j
    ensures k < |a.chain|
  {
    FileSectorsLength(a.g, a.chain);
    if k >= |a.chain| {
      SpanMonoWeak(|a.chain|, k, a.g.csize);
      assert false;
    }
  }

  /** The cluster and sector fast seek jumps to, for sector j of the byte before ofs. */
  lemma SeekFast(a: Cursor, b: Cursor, ofs: nat, k: nat, o: nat)
    requires a.Linked() && a.Base() && 0 < ofs <= a.fsize
    requires o < a.g.csize && (ofs - 1) / SS == Span(k, a.g.csize) + o
    requires k < |a.chain| ==> b == a.(fptr := ofs, ck := k, clust := a.chain[k])
    ensures k < |a.chain| && SameFile(a, b) && Clust2Sect(b.g, b.clust) != 0
    ensures ofs % SS == 0 ==> b.Placed()
    ensures ofs % SS != 0 ==> Settled(b) && Clust2Sect(b.g, b.clust) + o == b.sects[ofs / SS]
  {
    hide SameFile, Frame, SameSectors;
    HasSector(a, (ofs - 1) / SS, k);
    Repositioned(a, b);
    assert a.chain[k] < a.g.nFatent;
    Clust2SectExact(a.g, a.End(), a.chain[k]);
    ClusterRun(a, k, (ofs - 1) / SS);
    if ofs % SS != 0 {
      assert ofs / SS == (ofs - 1) / SS;
    }
  }

  /** f_lseek through the link map: the position moves as by following the chain, clipped to
      the size of the file. */
  method FastSeek(fp: Fil, ofs: nat, cltbl: array<nat>) returns (res: FResult)
    requires fp.Ready() && ofs < WORD
    requires fp.err.FR_OK? ==> Holds(cltbl[..], Encode(fp.chain))
    modifies fp`clust, fp`ck, fp`fptr, fp`dirty, fp`dsect, fp`err, fp.buf, fp.fs.disk
    ensures Kept(fp.fs) && fp.Ready()
    ensures !old(fp.err).FR_OK? ==> res == old(fp.err) == fp.err && fp.Cur() == old(fp.Cur())
    ensures old(fp.err).FR_OK? ==> fp.err == res && (res.FR_OK? || (res.FR_DISK_ERR? && fp.fs.disk.faulted))
    ensures res.FR_OK? ==> Sought(fp, if ofs > old(fp.fsize) then old(fp.fsize) else ofs)
                           && fp.fs.Fat() == old(fp.fs.Fat())
  {
    hide Fatfs.Valid, Fatfs.View, Fatfs.Img, Fatfs.Mirrored, Fil.Cur, Geometry.Fits, Frame, SameSectors, SameFile,
         Cursor.Base, Cursor.Placed, Cursor.Linked, Cursor.Bytes, Encode, Nth;
    if fp.err != FR_OK {
      return fp.err;
    }
    ghost var a := fp.Cur();
    var target := ofs;
    if target > fp.fsize {
      target := fp.fsize;
    }
    res := Jump(fp, target, cltbl);
    if res.FR_OK? {
      Unextended(a, fp.Cur());
    } else {
      fp.err := res;
    }
  }

  lemma Unextended(a: Cursor, c: Cursor)
    requires SameFile(a, c) && c.fptr <= a.fsize
    ensures Frame(a, c) && c.Bytes()[..a.fsize] == a.Bytes()
  {
    assert c == c.(fsize := c.fsize);
    SeekBytes(a, c, c);
  }

  /** The move itself, for a target inside the file. */
  method Jump(fp: Fil, ofs: nat, cltbl: array<nat>) returns (res: FResult)
    requires fp.Valid() && ofs <= fp.fsize && Holds(cltbl[..], Encode(fp.chain))
    modifies fp`clust, fp`ck, fp`fptr, fp`dirty, fp`dsect, fp.buf, fp.fs.disk
    ensures Kept(fp.fs)
    ensures res.FR_OK? || (res.FR_DISK_ERR? && fp.fs.disk.faulted)
    ensures res.FR_OK? ==> fp.Mid() && fp.Cur().Placed() && SameFile(old(fp.Cur()), fp.Cur())
                           && fp.fptr == ofs && fp.fs.Fat() == old(fp.fs.Fat())
  {
    hide Fatfs.Valid, Fatfs.View, Fatfs.Img, Fatfs.Mirrored, Fil.Cur, Geometry.Fits, Frame, SameSectors, SameFile,
         Cursor.Base, Cursor.Bytes, Encode, Nth;
    ghost var a := fp.Cur();
    if ofs == 0 {
      Rewind(fp);
      return FR_OK;
    }
    var dsc := JumpTo(fp, ofs, cltbl);
    if dsc == 0 {
      return FR_INT_ERR;
    }
    dsc := dsc + And((ofs - 1) / SS, fp.fs.g.csize - 1);
    res := FR_OK;
    if fp.fptr % SS != 0 {
      res := Fetch(fp, dsc, a);
    }
  }

  /** Sets position and cluster, and answers the first sector of the cluster. */
  method JumpTo(fp: Fil, ofs: nat, cltbl: array<nat>) returns (dsc: nat)
    requires fp.Valid() && 0 < ofs <= fp.fsize && Holds(cltbl[..], Encode(fp.chain))
    modifies fp`clust, fp`ck, fp`fptr
    ensures Kept(fp.fs) && fp.fs.View() == old(fp.fs.View())
    ensures fp.Mid() && SameFile(old(fp.Cur()), fp.Cur()) && fp.fptr == ofs && dsc != 0
    ensures ofs % SS == 0 ==> fp.Cur().Placed()
    ensures ofs % SS != 0 ==>
              Settled(fp.Cur()) && dsc + And((ofs - 1) / SS, fp.fs.g.csize - 1) == fp.sects[ofs / SS]
  {
    hide Fatfs.Valid, Fatfs.View, Fatfs.Img, Fatfs.Mirrored, Geometry.Fits, Frame, SameSectors, SameFile,
         Cursor.Base, Cursor.Bytes, Cursor.Placed, Encode, Nth;
    ghost var a := fp.Cur();
    ghost var k := (ofs - 1) / SS / fp.fs.g.csize;
    ghost var b := if k < |a.chain| then a.(fptr := ofs, ck := k, clust := a.chain[k]) else a;
    ghost var q, o := SectorCluster((ofs - 1) / SS, fp.fs.g.csize);
    SeekFast(a, b, ofs, k, o);
    MapCluster(a.fat, a.chain, k);
    fp.fptr := ofs;
    fp.clust := ClmtClust(cltbl, fp.fs.g.csize, ofs - 1, Encode(fp.chain));
    fp.ck := k;
    dsc := Clust2Sect(fp.fs.g, fp.clust);
  }

  lemma MapCluster(f: seq<nat>, ch: seq<nat>, k: nat)
    requires k < |ch|
    ensures Compact(Encode(ch)) && Nth(Encode(ch), k) == ch[k]
  {
    ExpandEncode(ch);
    EncodeCompact(ch);
  }
}
