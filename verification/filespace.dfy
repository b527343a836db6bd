/** Where the bytes of a file lie: clusters, sectors and offsets of a chain. */
module FileSpace {
  import opened Bits
  import opened Disk
  import opened Volume
  import opened Chains

  /** clust2sect: the first sector of a cluster, 0 for a number that names none. */
  function Clust2Sect(g: Geometry, clst: nat): nat {
    var k := Sub32(clst, 2);
    if k >= Sub32(g.nFatent, 2) then 0 else Add32(Mul32(k, g.csize), g.database)
  }

  /** The first sector of cluster c, without wrap-around. */
  function ClusterStart(g: Geometry, c: nat): nat
    requires c >= 2
  {
    g.database + Span(c - 2, g.csize)
  }

  lemma {:induction false} SpanMono(a: nat, b: nat, csize: nat)
    requires a < b
    ensures Span(a, csize) + csize <= Span(b, csize)
    decreases b
  {
    if a < b - 1 {
      SpanMono(a, b - 1, csize);
    }
  }

  /** clust2sect tells a cluster from a bad number, and its arithmetic does not wrap. */
  lemma Clust2SectExact(g: Geometry, len: nat, clst: nat)
    requires g.Room(len) && clst < WORD
    ensures 2 <= clst < g.nFatent ==>
              Clust2Sect(g, clst) == ClusterStart(g, clst) && ClusterStart(g, clst) + g.csize <= len
    ensures !(2 <= clst < g.nFatent) ==> Clust2Sect(g, clst) == 0
    ensures 2 <= clst < g.nFatent <==> Clust2Sect(g, clst) != 0
    ensures 2 <= clst < g.nFatent ==> Clust2Sect(g, clst) == g.database + (clst - 2) * g.csize
  {
    assert Sub32(g.nFatent, 2) == g.nFatent - 2;
    if clst < 2 {
      Wraps(clst, 2);
    } else {
      assert Sub32(clst, 2) == clst - 2;
      if clst < g.nFatent {
        SpanMono(clst - 2, g.nFatent - 2, g.csize);
        MulIsSpan(clst - 2, g.csize);
        SpanIsProduct(clst - 2, g.csize);
      }
    }
  }

  lemma Wraps(a: nat, b: nat)
    requires a < b < WORD
    ensures Sub32(a, b) == WORD - (b - a)
  {
    RemainderIs(a - b + WORD, WORD, 0, WORD - (b - a));
  }

  lemma MulIsSpan(k: nat, csize: nat)
    requires Span(k, csize) < WORD
    ensures Mul32(k, csize) == Span(k, csize)
  {
    SpanIsProduct(k, csize);
  }

  /** Distinct clusters occupy disjoint sectors behind the FATs. */
  lemma ClustersApart(g: Geometry, a: nat, b: nat)
    requires a >= 2 && b >= 2 && a != b
    ensures ClusterStart(g, a) + g.csize <= ClusterStart(g, b) || ClusterStart(g, b) + g.csize <= ClusterStart(g, a)
  {
    if a < b {
      SpanMono(a - 2, b - 2, g.csize);
    } else {
      SpanMono(b - 2, a - 2, g.csize);
    }
  }

  ghost predicate ValidChain(g: Geometry, ch: seq<nat>) {
    && (forall i :: 0 <= i < |ch| ==> 2 <= ch[i] < g.nFatent)
    && (forall i, j :: 0 <= i < j < |ch| ==> ch[i] != ch[j])
  }

  /** n consecutive sectors. */
  function Run(start: nat, n: nat): seq<nat> {
    seq(n, i requires 0 <= i < n => start + i)
  }

  /** The sectors of a file in order: its clusters one after the other. */
  function FileSectors(g: Geometry, ch: seq<nat>): seq<nat>
    requires forall i :: 0 <= i < |ch| ==> 2 <= ch[i]
  {
    if ch == [] then []
    else FileSectors(g, ch[..|ch| - 1]) + Run(ClusterStart(g, ch[|ch| - 1]), g.csize)
  }

  /** Sector o of the k-th cluster is sector Span(k) + o of the file. */
  lemma {:induction false} FileSectorAt(g: Geometry, ch: seq<nat>, k: nat, o: nat)
    requires ValidChain(g, ch) && k < |ch| && o < g.csize
    ensures |FileSectors(g, ch)| == Span(|ch|, g.csize) && Span(k, g.csize) + o < Span(|ch|, g.csize)
    ensures FileSectors(g, ch)[Span(k, g.csize) + o] == ClusterStart(g, ch[k]) + o
  {
    FileSectorsLength(g, ch);
    SpanMono(k, |ch|, g.csize);
    var init := ch[..|ch| - 1];
    FileSectorsLength(g, init);
    if k < |init| {
      FileSectorAt(g, init, k, o);
    }
  }

  /** Where sector j of a file lies, in plain numbers: clusters of csize sectors follow each other from the
      first data sector on, cluster 2 first. */
  lemma SectorPlace(g: Geometry, ch: seq<nat>, j: nat)
    requires g.csize > 0 && ValidChain(g, ch) && j < |FileSectors(g, ch)|
    ensures j / g.csize < |ch| && ch[j / g.csize] >= 2
    ensures FileSectors(g, ch)[j] == g.database + (ch[j / g.csize] - 2) * g.csize + j % g.csize
  {
    hide Span, FileSectors;
    FileSectorsLength(g, ch);
    InSpan(j, |ch|, g.csize);
    FileSectorAt(g, ch, j / g.csize, j % g.csize);
    SpanIsProduct(ch[j / g.csize] - 2, g.csize);
  }

  lemma InSpan(j: nat, n: nat, csize: nat)
    requires csize > 0 && j < Span(n, csize)
    ensures j / csize < n && j == Span(j / csize, csize) + j % csize && j % csize < csize
  {
    var k := j / csize;
    SpanIsProduct(n, csize);
    SpanIsProduct(k, csize);
    assert j == csize * k + j % csize;
    if k >= n {
      MulOrder(k, n, csize);
      assert false;
    }
  }

  lemma {:induction false} FileSectorsLength(g: Geometry, ch: seq<nat>)
    requires ValidChain(g, ch)
    ensures |FileSectors(g, ch)| == Span(|ch|, g.csize)
  {
    if ch != [] {
      FileSectorsLength(g, ch[..|ch| - 1]);
    }
  }

  ghost predicate Distinct(s: seq<nat>) {
    forall i, j :: 0 <= i < j < |s| ==> s[i] != s[j]
  }

  lemma DistinctAppend(a: seq<nat>, b: seq<nat>)
    requires Distinct(a) && Distinct(b) && forall s :: s in a ==> s !in b
    ensures Distinct(a + b)
  {
    forall i, j | 0 <= i < j < |a + b|
      ensures (a + b)[i] != (a + b)[j]
    {
      if i < |a| <= j {
        assert a[i] in a && b[j - |a|] in b;
      }
    }
  }

  /** Where a sector of the file comes from. */
  lemma {:induction false} FileSectorFrom(g: Geometry, ch: seq<nat>, s: nat) returns (k: nat)
    requires ValidChain(g, ch) && s in FileSectors(g, ch)
    ensures k < |ch| && ClusterStart(g, ch[k]) <= s < ClusterStart(g, ch[k]) + g.csize
  {
    var init := ch[..|ch| - 1];
    if s in FileSectors(g, init) {
      k := FileSectorFrom(g, init, s);
    } else {
      k := |ch| - 1;
    }
  }

  /** The sectors of a file are different sectors of the volume, all behind the FATs. */
  lemma {:induction false} FileSectorsDistinct(g: Geometry, len: nat, ch: seq<nat>)
    requires g.Room(len) && ValidChain(g, ch)
    ensures Distinct(FileSectors(g, ch))
    ensures forall i :: 0 <= i < |FileSectors(g, ch)| ==> g.database <= FileSectors(g, ch)[i] < len
  {
    if ch != [] {
      var init, last := ch[..|ch| - 1], ch[|ch| - 1];
      FileSectorsDistinct(g, len, init);
      Clust2SectExact(g, len, last);
      forall s | s in FileSectors(g, init)
        ensures s !in Run(ClusterStart(g, last), g.csize)
      {
        var k := FileSectorFrom(g, init, s);
        ClustersApart(g, init[k], last);
      }
      DistinctAppend(FileSectors(g, init), Run(ClusterStart(g, last), g.csize));
    }
  }

  /** Files without a common cluster have no common sector. */
  lemma FilesApart(g: Geometry, a: seq<nat>, b: seq<nat>, s: nat)
    requires ValidChain(g, a) && ValidChain(g, b) && Apart(a, b)
    ensures !(s in FileSectors(g, a) && s in FileSectors(g, b))
  {
    if s in FileSectors(g, a) && s in FileSectors(g, b) {
      var i := FileSectorFrom(g, a, s);
      var j := FileSectorFrom(g, b, s);
      assert a[i] in a && b[j] in b;
      ClustersApart(g, a[i], b[j]);
      assert false;
    }
  }

  /** The mask csize - 1 of the source takes the remainder by csize. */
  lemma MaskCsize(x: nat, csize: nat)
    requires csize in CSIZES
    ensures And(x, csize - 1) == x % csize
  {
    var k :| 0 <= k <= 7 && Pow2(k) == csize;
    MaskIsRemainder(x, k);
  }

  /** The position csect inside the cluster, when sector j - 1 lies in cluster ck. */
  lemma Boundary(csize: nat, ck: nat, j: nat)
    requires csize > 0 && Span(ck, csize) < j <= Span(ck, csize) + csize
    ensures j % csize == 0 ==> j == Span(ck + 1, csize)
    ensures j % csize != 0 ==> j == Span(ck, csize) + j % csize
  {
    SpanIsProduct(ck, csize);
    var r := j - ck * csize;
    if r < csize {
      RemainderIs(j, csize, ck, r);
    } else {
      assert j == csize * (ck + 1) + 0;
      RemainderIs(j, csize, ck + 1, 0);
    }
  }
}
