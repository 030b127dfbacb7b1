/** Files on a FAT12 volume: allocation, and reading and writing bytes over cluster chains. */
module FatVolume {
  import opened Basics
  import opened FatTable

  const BLOCK: nat := 512
  /** Distance from a cluster number to its block: boot block, two tables, root directory. */
  const BLOCK_SHIFT: nat := 31

  type Sector = s: seq<byte> | |s| == 512 witness seq(512, _ => 0)
  type Owner = nat

  function Max(a: int, b: int): int {
    if a > b then a else b
  }

  /** `s` with `b` put at `off`, which may extend it. */
  function Overwrite(s: seq<byte>, off: nat, b: seq<byte>): (r: seq<byte>)
    requires off <= |s|
    ensures |r| == Max(|s|, off + |b|)
  {
    s[..off] + b + s[Min(off + |b|, |s|)..]
  }

  // ---- Bytes along a chain ----

  function Store(disk: seq<Sector>, cl: nat, blk: Sector): seq<Sector>
    requires cl + BLOCK_SHIFT < |disk|
  {
    disk[cl + BLOCK_SHIFT := blk]
  }

  /** A block with bytes `b` put at position `at`. */
  function Patch(blk: Sector, at: nat, b: seq<byte>): Sector
    requires at + |b| <= BLOCK
  {
    blk[..at] + b + blk[at + |b|..]
  }

  predicate OnDisk(disk: seq<Sector>, c: seq<nat>) {
    forall i :: 0 <= i < |c| ==> c[i] + BLOCK_SHIFT < |disk|
  }

  predicate NoRepeat(c: seq<nat>) {
    forall i, j :: 0 <= i < j < |c| ==> c[i] != c[j]
  }

  /** All bytes stored along a chain. */
  function Flat(disk: seq<Sector>, c: seq<nat>): (s: seq<byte>)
    requires OnDisk(disk, c)
    ensures |s| == BLOCK * |c|
  {
    if c == [] then [] else Flat(disk, c[..|c| - 1]) + disk[c[|c| - 1] + BLOCK_SHIFT]
  }

  /** Changing blocks a chain does not use leaves its bytes alone. */
  lemma {:induction false} FlatFrame(disk: seq<Sector>, disk': seq<Sector>, c: seq<nat>)
    requires OnDisk(disk, c) && |disk'| == |disk|
    requires forall i :: 0 <= i < |c| ==> disk'[c[i] + BLOCK_SHIFT] == disk[c[i] + BLOCK_SHIFT]
    ensures Flat(disk', c) == Flat(disk, c)
  {
    if c != [] {
      FlatFrame(disk, disk', c[..|c| - 1]);
    }
  }

  /** The j-th block of a chain holds the chain's bytes at its position. */
  lemma {:induction false} FlatAt(disk: seq<Sector>, c: seq<nat>, j: nat)
    requires OnDisk(disk, c) && j < |c|
    ensures Flat(disk, c)[BLOCK * j..BLOCK * j + BLOCK] == disk[c[j] + BLOCK_SHIFT]
    decreases |c|
  {
    var n := |c| - 1;
    if j < n {
      FlatAt(disk, c[..n], j);
      assert Flat(disk, c)[..BLOCK * n] == Flat(disk, c[..n]);
    }
  }

  /** What a new content of the j-th block of a chain does to the chain's bytes. */
  lemma {:induction false} FlatStore(disk: seq<Sector>, c: seq<nat>, j: nat, blk: Sector)
    requires OnDisk(disk, c) && NoRepeat(c) && j < |c|
    ensures Flat(Store(disk, c[j], blk), c) == Flat(disk, c)[..BLOCK * j] + blk + Flat(disk, c)[BLOCK * j + BLOCK..]
    decreases |c|
  {
    var n := |c| - 1;
    var c1 := c[..n];
    if j < n {
      FlatStore(disk, c1, j, blk);
      assert c1[j] == c[j];
    } else {
      FlatFrame(disk, Store(disk, c[j], blk), c1);
    }
  }

  /** Putting bytes into one block of a chain overwrites the chain's bytes there. */
  lemma FlatPatch(disk: seq<Sector>, c: seq<nat>, j: nat, at: nat, b: seq<byte>)
    requires OnDisk(disk, c) && NoRepeat(c) && j < |c| && at + |b| <= BLOCK
    ensures Flat(Store(disk, c[j], Patch(disk[c[j] + BLOCK_SHIFT], at, b)), c) == Overwrite(Flat(disk, c), BLOCK * j + at, b)
  {
    var was := disk[c[j] + BLOCK_SHIFT];
    FlatAt(disk, c, j);
    FlatStore(disk, c, j, Patch(was, at, b));
    PatchInside(Flat(disk, c), BLOCK * j, was, at, b);
  }

  lemma PatchInside(s: seq<byte>, p: nat, blk: Sector, at: nat, b: seq<byte>)
    requires p + BLOCK <= |s| && s[p..p + BLOCK] == blk && at + |b| <= BLOCK
    ensures s[..p] + Patch(blk, at, b) + s[p + BLOCK..] == Overwrite(s, p + at, b)
  {
    assert blk[..at] == s[p..p + at];
    assert blk[at + |b|..] == s[p + at + |b|..p + BLOCK];
  }

  /** `data` holds, owner by owner, the bytes stored along the chains. */
  ghost predicate Stored(disk: seq<Sector>, chains: seq<seq<nat>>, data: seq<seq<byte>>)
    decreases |chains|
  {
    && |data| == |chains|
    && (chains == [] ||
        var n := |chains| - 1;
        OnDisk(disk, chains[n]) && data[n] == Flat(disk, chains[n]) && Stored(disk, chains[..n], data[..n]))
  }

  /** The same, said of all owners at once. */
  ghost predicate AllStored(disk: seq<Sector>, chains: seq<seq<nat>>, data: seq<seq<byte>>) {
    |data| == |chains| && forall f :: 0 <= f < |chains| ==> OnDisk(disk, chains[f]) && data[f] == Flat(disk, chains[f])
  }

  lemma {:induction false} StoredUnfold(disk: seq<Sector>, chains: seq<seq<nat>>, data: seq<seq<byte>>)
    requires Stored(disk, chains, data)
    ensures AllStored(disk, chains, data)
    decreases |chains|
  {
    if chains != [] {
      var n := |chains| - 1;
      StoredUnfold(disk, chains[..n], data[..n]);
      forall f | 0 <= f < n ensures OnDisk(disk, chains[f]) && data[f] == Flat(disk, chains[f]) {
        assert chains[..n][f] == chains[f] && data[..n][f] == data[f];
      }
    }
  }

  lemma {:induction false} StoredFold(disk: seq<Sector>, chains: seq<seq<nat>>, data: seq<seq<byte>>)
    requires AllStored(disk, chains, data)
    ensures Stored(disk, chains, data)
    decreases |chains|
  {
    if chains != [] {
      StoredFold(disk, chains[..|chains| - 1], data[..|chains| - 1]);
    }
  }

  lemma StoredAt(disk: seq<Sector>, chains: seq<seq<nat>>, data: seq<seq<byte>>, f: Owner)
    requires Stored(disk, chains, data) && f < |chains|
    ensures |data| == |chains| && OnDisk(disk, chains[f]) && data[f] == Flat(disk, chains[f])
    ensures |data[f]| == BLOCK * |chains[f]|
  {
    StoredUnfold(disk, chains, data);
  }

  /** Changing the chain of one owner changes what that owner stores. */
  lemma StoredRechained(disk: seq<Sector>, chains: seq<seq<nat>>, data: seq<seq<byte>>, f: Owner, c: seq<nat>)
    requires Stored(disk, chains, data) && f < |chains| && OnDisk(disk, c)
    ensures Stored(disk, chains[f := c], data[f := Flat(disk, c)])
  {
    StoredUnfold(disk, chains, data);
    StoredFold(disk, chains[f := c], data[f := Flat(disk, c)]);
  }

  /** Writing into a block of one owner overwrites that owner's bytes, and nobody else's. */
  lemma StoredPatched(e: seq<nat>, disk: seq<Sector>, chains: seq<seq<nat>>, data: seq<seq<byte>>,
                      f: Owner, j: nat, at: nat, b: seq<byte>)
    requires ChainsOk(e, chains) && Stored(disk, chains, data)
    requires f < |chains| && j < |chains[f]| && at + |b| <= BLOCK
    ensures var cl := chains[f][j];
            && cl + BLOCK_SHIFT < |disk| && |data| == |chains| && |data[f]| == BLOCK * |chains[f]|
            && Stored(Store(disk, cl, Patch(disk[cl + BLOCK_SHIFT], at, b)), chains,
                      data[f := Overwrite(data[f], BLOCK * j + at, b)])
  {
    StoredUnfold(disk, chains, data);
    ChainsUnfold(e, chains);
    var c := chains[f];
    assert IsChain(e, c) && OnDisk(disk, c);
    var disk' := Store(disk, c[j], Patch(disk[c[j] + BLOCK_SHIFT], at, b));
    FlatPatch(disk, c, j, at, b);
    forall g | 0 <= g < |chains| && g != f
      ensures OnDisk(disk', chains[g]) && data[g] == Flat(disk', chains[g])
    {
      assert Disjoint(c, chains[g]) && OnDisk(disk, chains[g]);
      FlatFrame(disk, disk', chains[g]);
    }
    StoredFold(disk', chains, data[f := Overwrite(data[f], BLOCK * j + at, b)]);
  }

  lemma FlatSnoc(disk: seq<Sector>, c: seq<nat>, cl: nat)
    requires OnDisk(disk, c + [cl])
    ensures OnDisk(disk, c) && cl + BLOCK_SHIFT < |disk|
    ensures Flat(disk, c + [cl]) == Flat(disk, c) + disk[cl + BLOCK_SHIFT]
  {
    assert (c + [cl])[|c|] == cl;
    assert (c + [cl])[..|c|] == c;
    forall i | 0 <= i < |c| ensures c[i] + BLOCK_SHIFT < |disk| {
      assert (c + [cl])[i] == c[i];
    }
  }

  /** What dropping the k-th cluster of a chain does to its bytes. */
  lemma {:induction false} FlatDropped(disk: seq<Sector>, c: seq<nat>, k: nat)
    requires OnDisk(disk, c) && k < |c|
    ensures OnDisk(disk, c[..k] + c[k + 1..])
    ensures Flat(disk, c[..k] + c[k + 1..]) == Flat(disk, c)[..BLOCK * k] + Flat(disk, c)[BLOCK * k + BLOCK..]
    decreases |c|
  {
    var n := |c| - 1;
    var c' := c[..k] + c[k + 1..];
    forall i | 0 <= i < |c'| ensures c'[i] + BLOCK_SHIFT < |disk| {
      assert c'[i] == if i < k then c[i] else c[i + 1];
    }
    if k == n {
      assert c' == c[..n];
    } else {
      FlatDropped(disk, c[..n], k);
      assert c'[..n - 1] == c[..n][..k] + c[..n][k + 1..];
      assert c'[n - 1] == c[n];
    }
  }

  /** Bytes read out of one block are bytes its owner stores. */
  lemma BlockBytes(disk: seq<Sector>, chains: seq<seq<nat>>, data: seq<seq<byte>>, f: Owner, i: nat, k: nat, m: nat)
    requires Stored(disk, chains, data) && f < |chains| && i < |chains[f]| && k + m <= BLOCK
    ensures |data| == |chains| && chains[f][i] + BLOCK_SHIFT < |disk| && BLOCK * i + BLOCK <= |data[f]|
    ensures disk[chains[f][i] + BLOCK_SHIFT][k..k + m] == data[f][BLOCK * i + k..BLOCK * i + k + m]
  {
    StoredAt(disk, chains, data, f);
    FlatSlice(disk, chains[f], i, k, m);
  }

  lemma FlatSlice(disk: seq<Sector>, c: seq<nat>, i: nat, k: nat, m: nat)
    requires OnDisk(disk, c) && i < |c| && k + m <= BLOCK
    ensures disk[c[i] + BLOCK_SHIFT][k..k + m] == Flat(disk, c)[BLOCK * i + k..BLOCK * i + k + m]
  {
    FlatAt(disk, c, i);
    SliceOfSlice(Flat(disk, c), BLOCK * i, BLOCK, k, m);
  }

  lemma SliceOfSlice(s: seq<byte>, p: nat, len: nat, k: nat, m: nat)
    requires p + len <= |s| && k + m <= len
    ensures s[p..p + len][k..k + m] == s[p + k..p + k + m]
  {
    var l, r := s[p..p + len][k..k + m], s[p + k..p + k + m];
    assert forall i :: 0 <= i < m ==> l[i] == r[i];
  }

  /** What an owner stores after the k-th cluster of its chain is dropped. */
  lemma StoredDropped(disk: seq<Sector>, chains: seq<seq<nat>>, data: seq<seq<byte>>, f: Owner, k: nat)
    requires Stored(disk, chains, data) && f < |chains| && k < |chains[f]|
    ensures |data| == |chains| && BLOCK * k + BLOCK <= |data[f]|
    ensures OnDisk(disk, chains[f][..k] + chains[f][k + 1..])
    ensures Flat(disk, chains[f][..k] + chains[f][k + 1..]) == data[f][..BLOCK * k] + data[f][BLOCK * k + BLOCK..]
  {
    StoredAt(disk, chains, data, f);
    FlatDropped(disk, chains[f], k);
  }
}
