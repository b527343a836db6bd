/** The block device under the file system: an array of 512-byte sectors. Any transfer may
    fail; a failed write may leave anything in the sectors it addressed. */
module Disk {
  import opened Bits

  const SS: nat := 512

  type Sector = s: seq<byte> | |s| == 512 witness seq(512, i => 0)

  class Drive {
    var sectors: seq<Sector>
    /** History variable: some transfer has failed since the drive was created. */
    var faulted: bool

    constructor (contents: seq<Sector>)
      ensures sectors == contents && !faulted
    {
      sectors := contents;
      faulted := false;
    }

    /** disk_read: count sectors from sect on. */
    method Read(sect: nat, count: nat) returns (ok: bool, data: seq<Sector>)
      modifies this`faulted
      ensures ok ==> sect + count <= |sectors| && data == sectors[sect..sect + count]
      ensures |data| == count
      ensures faulted == (old(faulted) || !ok)
    {
      var fails: bool := *;
      if fails || sect + count > |sectors| {
        faulted := true;
        ok := false;
        data := Junk(count);
      } else {
        ok, data := true, sectors[sect..sect + count];
      }
    }

    /** disk_write: the sectors of data from sect on. */
    method Write(sect: nat, data: seq<Sector>) returns (ok: bool)
      modifies this
      ensures |sectors| == |old(sectors)|
      ensures ok ==> sect + |data| <= |sectors| &&
                     sectors == old(sectors)[..sect] + data + old(sectors)[sect + |data|..]
      ensures forall s :: 0 <= s < |sectors| && !(sect <= s < sect + |data|) ==> sectors[s] == old(sectors)[s]
      ensures faulted == (old(faulted) || !ok)
    {
      var fails: bool := *;
      if sect + |data| > |sectors| {
        faulted := true;
        ok := false;
      } else if fails {
        faulted := true;
        ok := false;
        var junk := Junk(|data|);
        sectors := sectors[..sect] + junk + sectors[sect + |data|..];
      } else {
        ok := true;
        sectors := sectors[..sect] + data + sectors[sect + |data|..];
      }
    }
  }

  /** Whatever a failed transfer leaves behind. */
  method Junk(count: nat) returns (data: seq<Sector>)
    ensures |data| == count
  {
    data := [];
    while |data| < count
      invariant |data| <= count
    {
      var s: Sector := *;
      data := data + [s];
    }
  }

  /** mem_cpy: copies src over dst from offset off on. */
  method MemCpy(dst: array<byte>, off: nat, src: seq<byte>)
    requires off + |src| <= dst.Length
    modifies dst
    ensures dst[..] == old(dst[..])[..off] + src + old(dst[..])[off + |src|..]
    ensures |src| == dst.Length ==> dst[..] == src
  {
    var i := 0;
    while i < |src|
      invariant 0 <= i <= |src|
      invariant forall k :: 0 <= k < dst.Length ==> dst[k] == if off <= k < off + i then src[k - off] else old(dst[k])
    {
      dst[off + i] := src[i];
      i := i + 1;
    }
    assert dst[..] == old(dst[..])[..off] + src + old(dst[..])[off + |src|..];
  }

  /** mem_set: fills dst with val. */
  method MemSet(dst: array<byte>, val: byte)
    modifies dst
    ensures dst[..] == seq(dst.Length, i => val)
  {
    var i := 0;
    while i < dst.Length
      invariant 0 <= i <= dst.Length
      invariant forall j :: 0 <= j < i ==> dst[j] == val
    {
      dst[i] := val;
      i := i + 1;
    }
  }
}
