/** Cluster chains of a file allocation table, as values: what a chain is, how a table falls
    into chains, and what linking, cutting and releasing do to them. */
module Chains {

  /** A chain: distinct clusters, each linked to the next, the last marked as the end by a
      value that names no cluster. */
  ghost predicate IsChain(f: seq<nat>, ch: seq<nat>) {
    && |ch| > 0
    && (forall i :: 0 <= i < |ch| ==> 2 <= ch[i] < |f|)
    && (forall i, j :: 0 <= i < j < |ch| ==> ch[i] != ch[j])
    && (forall i :: 0 <= i < |ch| - 1 ==> f[ch[i]] == ch[i + 1])
    && f[ch[|ch| - 1]] >= |f|
  }

  ghost predicate Apart(a: seq<nat>, b: seq<nat>) {
    forall c :: c in a ==> c !in b
  }

  ghost predicate Disjoint(p: set<seq<nat>>) {
    forall a, b :: a in p && b in p && a != b ==> Apart(a, b)
  }

  ghost predicate OnChain(c: nat, p: set<seq<nat>>) {
    exists ch :: ch in p && c in ch
  }

  /** The table is exactly the disjoint chains of p: every cluster in use is on one of them. */
  ghost predicate Partition(f: seq<nat>, p: set<seq<nat>>) {
    && (forall ch :: ch in p ==> IsChain(f, ch))
    && Disjoint(p)
    && (forall c :: 2 <= c < |f| && f[c] != 0 ==> OnChain(c, p))
  }

  /** Some entry holds the value 1, which no well-formed table contains. */
  ghost predicate Illegal(f: seq<nat>) {
    exists c :: 2 <= c < |f| && f[c] == 1
  }

  ghost function Free(f: seq<nat>): set<nat> {
    set c | 2 <= c < |f| && f[c] == 0
  }

  /** The table with every cluster of cs marked free. */
  ghost function Freed(f: seq<nat>, cs: seq<nat>): (r: seq<nat>)
    ensures |r| == |f|
  {
    seq(|f|, c requires 0 <= c < |f| => if c in cs then 0 else f[c])
  }

  /** The chain a file contributes to the partition of the table, if it has one. */
  function Owned(ch: seq<nat>): set<seq<nat>> {
    if ch == [] then {} else {ch}
  }

  lemma InUse(f: seq<nat>, ch: seq<nat>)
    requires IsChain(f, ch)
    ensures forall c :: c in ch ==> 2 <= c < |f| && f[c] >= 2
  {
    forall c | c in ch
      ensures 2 <= c < |f| && f[c] >= 2
    {
      var i :| 0 <= i < |ch| && ch[i] == c;
      if i < |ch| - 1 {
        assert f[ch[i]] == ch[i + 1];
      }
    }
  }

  /** Changing a table outside a chain leaves the chain alone. */
  lemma SameChain(f: seq<nat>, f': seq<nat>, ch: seq<nat>)
    requires IsChain(f, ch) && |f'| == |f|
    requires forall c :: c in ch ==> f'[c] == f[c]
    ensures IsChain(f', ch)
  {
    forall i | 0 <= i < |ch|
      ensures f'[ch[i]] == f[ch[i]]
    {
      assert ch[i] in ch;
    }
  }

  /** create_chain on an empty file: a free cluster becomes a chain of its own. */
  lemma NewChain(f: seq<nat>, p: set<seq<nat>>, ncl: nat, end: nat)
    requires Partition(f, p) && 2 <= ncl < |f| && f[ncl] == 0 && end >= |f|
    ensures Partition(f[ncl := end], p + {[ncl]})
  {
    var f' := f[ncl := end];
    forall ch | ch in p
      ensures IsChain(f', ch) && Apart(ch, [ncl]) && Apart([ncl], ch)
    {
      InUse(f, ch);
      SameChain(f, f', ch);
    }
    assert IsChain(f', [ncl]);
    forall c | 2 <= c < |f'| && f'[c] != 0
      ensures OnChain(c, p + {[ncl]})
    {
      if c == ncl {
        assert c in [ncl];
      } else {
        var ch :| ch in p && c in ch;
        assert ch in p + {[ncl]};
      }
    }
  }

  /** The table after ncl has been linked behind the last cluster of ch. */
  ghost function Linked(f: seq<nat>, last: nat, ncl: nat, end: nat): seq<nat>
    requires last < |f| && ncl < |f|
  {
    f[ncl := end][last := ncl]
  }

  lemma LinkedChain(f: seq<nat>, ch: seq<nat>, ncl: nat, end: nat)
    requires IsChain(f, ch) && 2 <= ncl < |f| && f[ncl] == 0 && end >= |f|
    ensures ncl !in ch
    ensures IsChain(Linked(f, ch[|ch| - 1], ncl, end), ch + [ncl])
  {
    InUse(f, ch);
    var last := ch[|ch| - 1];
    assert last in ch;
    var f', ch' := Linked(f, last, ncl, end), ch + [ncl];
    forall i | 0 <= i < |ch'| - 1
      ensures f'[ch'[i]] == ch'[i + 1]
    {
      assert ch[i] in ch;
    }
  }

  /** Replacing one chain by another that uses its clusters and free ones only. */
  lemma ReplaceChain(f: seq<nat>, f': seq<nat>, p: set<seq<nat>>, ch: seq<nat>, ch': seq<nat>)
    requires Partition(f, p) && ch in p && |f'| == |f| && IsChain(f', ch')
    requires forall c :: 2 <= c < |f| && c !in ch && f[c] != 0 ==> f'[c] == f[c] && c !in ch'
    requires forall c :: 2 <= c < |f| && c !in ch' && f'[c] != 0 ==> f[c] != 0 && c !in ch
    ensures Partition(f', p - {ch} + {ch'})
  {
    forall a | a in p - {ch}
      ensures IsChain(f', a) && Apart(a, ch')
    {
      InUse(f, a);
      assert Apart(a, ch);
      SameChain(f, f', a);
    }
    forall c | 2 <= c < |f'| && f'[c] != 0
      ensures OnChain(c, p - {ch} + {ch'})
    {
      Covered(f, f', p, ch, ch', c);
    }
    AddDisjoint(p - {ch}, ch');
  }

  lemma Covered(f: seq<nat>, f': seq<nat>, p: set<seq<nat>>, ch: seq<nat>, ch': seq<nat>, c: nat)
    requires 2 <= c < |f| == |f'| && f'[c] != 0
    requires c !in ch' ==> f[c] != 0 && c !in ch && OnChain(c, p)
    ensures OnChain(c, p - {ch} + {ch'})
  {
    if c in ch' {
      assert ch' in p - {ch} + {ch'};
    } else {
      var a :| a in p && c in a;
      assert a in p - {ch} + {ch'};
    }
  }

  lemma AddDisjoint(p: set<seq<nat>>, ch: seq<nat>)
    requires Disjoint(p) && forall a :: a in p ==> Apart(a, ch)
    ensures Disjoint(p + {ch})
  {
    forall a, b | a in p + {ch} && b in p + {ch} && a != b
      ensures Apart(a, b)
    {
      if a == ch {
        assert Apart(b, ch);
      }
    }
  }

  /** create_chain behind the tail of ch: ch grows by one cluster that was free, every other
      chain stays. */
  lemma GrowChain(f: seq<nat>, p: set<seq<nat>>, ch: seq<nat>, ncl: nat, end: nat)
    requires Partition(f, p) && ch in p && 2 <= ncl < |f| && f[ncl] == 0 && end >= |f|
    ensures Partition(Linked(f, ch[|ch| - 1], ncl, end), p - {ch} + {ch + [ncl]})
  {
    var last, f' := ch[|ch| - 1], Linked(f, ch[|ch| - 1], ncl, end);
    LinkedChain(f, ch, ncl, end);
    assert last in ch;
    forall c | 2 <= c < |f| && c !in ch && f[c] != 0
      ensures f'[c] == f[c] && c !in ch + [ncl]
    {
    }
    forall c | 2 <= c < |f| && c !in ch + [ncl] && f'[c] != 0
      ensures f[c] != 0 && c !in ch
    {
    }
    ReplaceChain(f, f', p, ch, ch + [ncl]);
  }

  /** Releasing a whole chain removes it from the partition and touches no other. */
  lemma DropChain(f: seq<nat>, p: set<seq<nat>>, ch: seq<nat>)
    requires Partition(f, p) && ch in p
    ensures Partition(Freed(f, ch), p - {ch})
  {
    var f' := Freed(f, ch);
    forall a | a in p - {ch}
      ensures IsChain(f', a)
    {
      InUse(f, a);
      assert Apart(a, ch);
      SameChain(f, f', a);
    }
    forall c | 2 <= c < |f'| && f'[c] != 0
      ensures OnChain(c, p - {ch})
    {
      var a :| a in p && c in a;
      assert a in p - {ch};
    }
  }

  /** The table after f_truncate has cut a chain behind its first k clusters. */
  ghost function Cut(f: seq<nat>, ch: seq<nat>, k: nat, end: nat): seq<nat>
    requires 0 < k <= |ch| && ch[k - 1] < |f|
  {
    Freed(f[ch[k - 1] := end], ch[k..])
  }

  lemma CutKeeps(f: seq<nat>, ch: seq<nat>, k: nat, end: nat)
    requires IsChain(f, ch) && 0 < k <= |ch| && end >= |f|
    ensures IsChain(Cut(f, ch, k, end), ch[..k])
  {
    var f' := Cut(f, ch, k, end);
    forall i | 0 <= i < k
      ensures ch[i] !in ch[k..]
    {
    }
  }

  /** Cutting keeps the first k clusters as a chain, frees the rest, and touches no other. */
  lemma CutChain(f: seq<nat>, p: set<seq<nat>>, ch: seq<nat>, k: nat, end: nat)
    requires Partition(f, p) && ch in p && 0 < k <= |ch| && end >= |f|
    ensures Partition(Cut(f, ch, k, end), p - {ch} + {ch[..k]})
  {
    var f' := Cut(f, ch, k, end);
    CutKeeps(f, ch, k, end);
    Split(ch, k);
    ReplaceChain(f, f', p, ch, ch[..k]);
  }

  lemma Split(s: seq<nat>, k: nat)
    requires k <= |s|
    ensures forall c :: c in s <==> c in s[..k] || c in s[k..]
    ensures k > 0 ==> s[k - 1] in s[..k]
  {
    assert s == s[..k] + s[k..];
    if k > 0 {
      assert s[..k][k - 1] == s[k - 1];
    }
  }

  /** Two chains of one table that start at the same cluster are the same chain. */
  lemma {:induction false} ChainFromHead(f: seq<nat>, a: seq<nat>, b: seq<nat>)
    requires IsChain(f, a) && IsChain(f, b) && a[0] == b[0]
    ensures a == b
  {
    var n := if |a| <= |b| then |a| else |b|;
    SharedPrefix(f, a, b, n);
    assert a[n - 1] == a[..n][n - 1] == b[..n][n - 1] == b[n - 1];
    LinkAt(f, a, n - 1);
    LinkAt(f, b, n - 1);
  }

  lemma LinkAt(f: seq<nat>, ch: seq<nat>, i: nat)
    requires IsChain(f, ch) && i < |ch|
    ensures i < |ch| - 1 <==> f[ch[i]] < |f|
    ensures i < |ch| - 1 ==> f[ch[i]] == ch[i + 1]
  {
    if i < |ch| - 1 {
      assert f[ch[i]] == ch[i + 1] < |f|;
    }
  }

  lemma {:induction false} SharedPrefix(f: seq<nat>, a: seq<nat>, b: seq<nat>, n: nat)
    requires IsChain(f, a) && IsChain(f, b) && a[0] == b[0] && 0 < n <= |a| && n <= |b|
    ensures a[..n] == b[..n]
  {
    if n > 1 {
      SharedPrefix(f, a, b, n - 1);
      assert a[n - 2] == a[..n - 1][n - 2] == b[..n - 1][n - 2] == b[n - 2];
      assert f[a[n - 2]] == a[n - 2 + 1] && f[b[n - 2]] == b[n - 2 + 1];
      assert a[..n] == a[..n - 1] + [a[n - 1]];
      assert b[..n] == b[..n - 1] + [b[n - 1]];
    }
  }

  /** Changing one entry from free to used or back changes the count of free ones by one. */
  lemma FreeUpdate(f: seq<nat>, c: nat, v: nat)
    requires 2 <= c < |f|
    ensures Free(f[c := v]) == if v == 0 then Free(f) + {c} else Free(f) - {c}
    ensures f[c] == 0 && v != 0 ==> |Free(f[c := v])| == |Free(f)| - 1
    ensures f[c] != 0 && v == 0 ==> |Free(f[c := v])| == |Free(f)| + 1
    ensures (f[c] == 0) == (v == 0) ==> |Free(f[c := v])| == |Free(f)|
  {
    assert Free(f[c := v]) == if v == 0 then Free(f) + {c} else Free(f) - {c};
    if (f[c] == 0) == (v == 0) {
      assert Free(f[c := v]) == Free(f);
    }
  }

  ghost function Used(f: seq<nat>): set<nat> {
    set c | 0 <= c < |f| && f[c] != 0
  }

  lemma UsedShrinks(f: seq<nat>, c: nat)
    requires c < |f| && f[c] != 0
    ensures |Used(f[c := 0])| < |Used(f)|
  {
    assert Used(f[c := 0]) == Used(f) - {c};
  }

  /** What remove_chain leaves of a table, starting at c: it frees entry after entry along the
      links until one is free already, illegal, or an end mark. It stops on every table, cyclic
      ones included, because the entries in use get fewer. */
  ghost function Release(f: seq<nat>, c: nat): (r: seq<nat>)
    ensures |r| == |f|
    ensures forall d :: 0 <= d < |f| ==> r[d] == f[d] || r[d] == 0
    decreases |Used(f)|
  {
    if c < |f| && f[c] >= 2 then
      UsedShrinks(f, c);
      Release(f[c := 0], f[c])
    else f
  }

  /** Whether remove_chain runs into an entry holding the illegal value 1. */
  ghost predicate ReleaseFails(f: seq<nat>, c: nat)
    decreases |Used(f)|
  {
    if c < |f| && f[c] >= 2 then
      UsedShrinks(f, c);
      ReleaseFails(f[c := 0], f[c])
    else c < |f| && f[c] == 1
  }

  /** On a chain, remove_chain frees exactly the clusters of the chain. */
  lemma ReleaseChain(f: seq<nat>, ch: seq<nat>)
    requires IsChain(f, ch)
    ensures Release(f, ch[0]) == Freed(f, ch) && !ReleaseFails(f, ch[0])
  {
    assert Freed(f, ch[..0]) == f;
    ReleaseFrom(f, ch, 0);
  }

  lemma {:induction false} ReleaseFrom(f: seq<nat>, ch: seq<nat>, i: nat)
    requires IsChain(f, ch) && i < |ch|
    ensures Release(Freed(f, ch[..i]), ch[i]) == Freed(f, ch)
    ensures !ReleaseFails(Freed(f, ch[..i]), ch[i])
    decreases |ch| - i
  {
    InUse(f, ch);
    assert ch[i] in ch && ch[i] !in ch[..i];
    var g := Freed(f, ch[..i]);
    assert ch[..i + 1] == ch[..i] + [ch[i]];
    assert g[ch[i] := 0] == Freed(f, ch[..i + 1]);
    LinkAt(f, ch, i);
    if i == |ch| - 1 {
      assert ch[..i + 1] == ch;
    } else {
      ReleaseFrom(f, ch, i + 1);
    }
  }

  /** What remove_chain does on any table, sound or not: it frees the clusters it comes through along the
      links, up to an end mark, a cluster it has freed already, or one that is free or illegal; only the
      last is an error. */
  lemma {:induction false} ReleaseWalk(f: seq<nat>, w: seq<nat>, i: nat)
    requires i < |w| && (forall j :: 0 <= j < |w| ==> w[j] < |f| && f[w[j]] >= 2)
    requires forall j, k :: 0 <= j < k < |w| ==> w[j] != w[k]
    requires forall j :: 0 <= j < |w| - 1 ==> f[w[j]] == w[j + 1]
    requires var e := f[w[|w| - 1]]; e >= |f| || e in w || f[e] < 2
    ensures Release(Freed(f, w[..i]), w[i]) == Freed(f, w)
    ensures ReleaseFails(Freed(f, w[..i]), w[i])
            <==> var e := f[w[|w| - 1]]; e < |f| && f[e] == 1
    decreases |w| - i
  {
    var g, e := Freed(f, w[..i]), f[w[|w| - 1]];
    assert w[i] !in w[..i];
    assert w[..i + 1] == w[..i] + [w[i]];
    assert g[w[i] := 0] == Freed(f, w[..i + 1]);
    if i == |w| - 1 {
      assert w[..i + 1] == w;
      assert e < |f| ==> Freed(f, w)[e] < 2;
      if e < |f| && e in w {
        assert Freed(f, w)[e] == 0 && f[e] >= 2;
      }
    } else {
      ReleaseWalk(f, w, i + 1);
    }
  }

  /** Ending a chain behind its k-th cluster and releasing the rest is the cut. */
  lemma ReleaseCut(f: seq<nat>, ch: seq<nat>, k: nat, end: nat)
    requires IsChain(f, ch) && 0 < k < |ch|
    ensures Release(f[ch[k - 1] := end], ch[k]) == Cut(f, ch, k, end)
    ensures !ReleaseFails(f[ch[k - 1] := end], ch[k])
  {
    var f', rest := f[ch[k - 1] := end], ch[k..];
    forall i | 0 <= i < |rest|
      ensures rest[i] == ch[k + i] && f'[rest[i]] == f[ch[k + i]]
    {
    }
    assert IsChain(f', rest);
    ReleaseChain(f', rest);
  }

  /** A table falls into chains in one way only. */
  lemma PartitionUnique(f: seq<nat>, p: set<seq<nat>>, q: set<seq<nat>>)
    requires Partition(f, p) && Partition(f, q)
    ensures p == q
  {
    forall ch | ch in p
      ensures ch in q
    {
      SameIn(f, p, q, ch);
    }
    forall ch | ch in q
      ensures ch in p
    {
      SameIn(f, q, p, ch);
    }
  }

  lemma SameIn(f: seq<nat>, p: set<seq<nat>>, q: set<seq<nat>>, ch: seq<nat>)
    requires Partition(f, p) && Partition(f, q) && ch in p
    ensures ch in q
  {
    InUse(f, ch);
    assert ch[0] in ch;
    assert OnChain(ch[0], q);
    var b :| b in q && ch[0] in b;
    var i :| 0 <= i < |b| && b[i] == ch[0];
    if i > 0 {
      InUse(f, b);
      assert b[i - 1] in b;
      assert f[b[i - 1]] == b[i - 1 + 1];
      NoPredecessor(f, p, ch, b[i - 1]);
    }
    ChainFromHead(f, ch, b);
  }

  /** No cluster in use is linked to the head of a chain. */
  lemma NoPredecessor(f: seq<nat>, p: set<seq<nat>>, ch: seq<nat>, c: nat)
    requires Partition(f, p) && ch in p && 2 <= c < |f|
    ensures f[c] != ch[0]
  {
    assert ch[0] in ch && ch[0] >= 2;
    if f[c] != 0 {
      assert OnChain(c, p);
      var a :| a in p && c in a;
      var j :| 0 <= j < |a| && a[j] == c;
      LinkAt(f, a, j);
      if j < |a| - 1 {
        assert a[j + 1] in a && a[j + 1] != a[0];
        assert a == ch || Apart(a, ch);
      }
    }
  }

  /** A table of chains holds no illegal value. */
  lemma NoIllegal(f: seq<nat>, p: set<seq<nat>>)
    requires Partition(f, p)
    ensures !Illegal(f)
  {
    forall c | 2 <= c < |f|
      ensures f[c] != 1
    {
      if f[c] != 0 {
        var ch :| ch in p && c in ch;
        InUse(f, ch);
      }
    }
  }
}
