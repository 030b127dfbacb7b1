/** The file operations of a FAT12 volume, on its packed table and its blocks. */
module FatFiles {
  import opened Basics
  import opened FatTable
  import opened FatVolume

  class Vnode {
    const owner: Owner
    var start: int
    var fsize: nat
    /** The file's contents. */
    ghost var bytes: seq<byte>

    constructor (owner: Owner)
      ensures this.owner == owner && start == 0 && fsize == 0 && bytes == []
    {
      this.owner, start, fsize, bytes := owner, 0, 0, [];
    }
  }

  datatype WriteResult = Written(offset: nat) | NoSpace | OffDisk

  class Volume {
    const limit: nat
    var fat: array<byte>
    var disk: seq<Sector>
    ghost var entries: seq<nat>
    ghost var chains: seq<seq<nat>>
    /** The bytes each owner stores along its chain. */
    ghost var data: seq<seq<byte>>

    /** Mounts a volume on whose disk the given chains store the given bytes. */
    constructor (limit: nat, fat: array<byte>, disk: seq<Sector>, ghost entries: seq<nat>, ghost chains: seq<seq<nat>>,
                 ghost data: seq<seq<byte>>)
      requires |entries| == limit && Packs(fat[..], entries, limit) && ChainsOk(entries, chains) && Stored(disk, chains, data)
      ensures Valid() && this.limit == limit && this.fat == fat && this.disk == disk && this.entries == entries
      ensures this.chains == chains && this.data == data
    {
      this.limit, this.fat, this.disk := limit, fat, disk;
      this.entries, this.chains, this.data := entries, chains, data;
    }

    ghost predicate Valid()
      reads this, fat
    {
      var ok := TableOk() && ChainsOk(entries, chains) && Stored(disk, chains, data);
      ok
    }

    /** The cluster number is that of a block the disk does not have. */
    predicate Beyond(cl: nat)
      reads this
    {
      cl + BLOCK_SHIFT >= |disk|
    }

    /** Well formed but for the last cluster of the chain of `f`, which lies beyond the disk. */
    ghost predicate Stranded(f: Owner)
      reads this, fat
    {
      var ok :=
        && TableOk() && ChainsOk(entries, chains) && f < |chains| && chains[f] != []
        && var n := |chains[f]| - 1;
        Beyond(chains[f][n]) && Stored(disk, chains[f := chains[f][..n]], data);
      ok
    }

    /** Cluster `cl` is linked behind the chain of `f`; `was` is what was stored before. */
    ghost predicate Longer(was: seq<seq<byte>>, f: Owner, cl: nat)
      reads this, fat
    {
      var ok := if Beyond(cl) then Stranded(f) && data == was else Valid() && Grown(was, data, f);
      ok
    }

    /** The vnode's contents are the beginning of what its owner stores. */
    ghost predicate Shows(vn: Vnode)
      reads this, vn
    {
      vn.owner < |data| && vn.fsize <= |data[vn.owner]| && vn.bytes == data[vn.owner][..vn.fsize]
    }

    /** Why a write at `at` cannot go on: the next cluster lies beyond the disk, or the table is full. */
    ghost predicate Stopped(vn: Vnode, lost: bool, at: nat)
      reads this, fat, vn
    {
      var ok :=
        if lost then Stranded(vn.owner) && NoneOnDisk(entries, |disk|) && Shows(vn)
        else Valid() && FileOk(vn) && Full(entries) && at % BLOCK == 0 && (vn.fsize > 0 ==> |data[vn.owner]| == Max(at, BLOCK));
      ok
    }

    /** The packed table holds the entries. */
    ghost predicate TableOk()
      reads this, fat
    {
      |entries| == limit && Packs(fat[..], entries, limit)
    }

    /** The directory entry held by a vnode describes what its owner stores. */
    ghost predicate FileOk(vn: Vnode)
      reads this, vn
    {
      var ok :=
        && vn.owner < |chains| && vn.owner < |data|
        && vn.fsize <= |data[vn.owner]| == BLOCK * |chains[vn.owner]| && vn.bytes == data[vn.owner][..vn.fsize]
        && (if vn.fsize == 0 then chains[vn.owner] == [] && vn.start == 0
            else chains[vn.owner] != [] && vn.start == chains[vn.owner][0]);
      ok
    }

    method GetClval12(clno: nat) returns (val: nat)
      requires TableOk() && clno < limit
      ensures val == entries[clno] && val < 4096
    {
      PackedAt(fat[..], entries, limit, clno);
      var lo, hi := fat[clno * 3 / 2], fat[clno * 3 / 2 + 1];
      var word: int := lo as int + hi as int * 256;
      WordEntry(lo, hi);
      val := if clno % 2 == 0 then word % 4096 else word / 16 % 4096;
    }

    method PackEntry(clno: nat, val: nat)
      requires Index(clno) + 1 < fat.Length
      modifies fat
      ensures fat[..] == SetClval(old(fat[..]), clno, val)
    {
      var i := clno * 3 / 2;
      if clno % 2 == 0 {
        fat[i] := val % 256;
        fat[i + 1] := fat[i + 1] / 16 * 16 + val / 256 % 16;
      } else {
        Times16(val);
        fat[i] := fat[i] % 16 + val * 16 % 256;
        fat[i + 1] := val / 16 % 256;
      }
    }

    method SetClval12(clno: nat, val: nat)
      requires TableOk() && clno < limit && val < 4096
      modifies this`entries, fat
      ensures TableOk() && entries == old(entries)[clno := val]
    {
      SetRefinesUpdate(fat[..], entries, clno, val);
      PackEntry(clno, val);
      entries := entries[clno := val];
    }

    /** Successor of a cluster. The root directory's fourteen blocks count as clusters -12 to 1; the result
        is an unsigned 16-bit number, so what follows -12 to -2 comes out wrong. */
    method NextCluster12(clno: int) returns (nclno: nat)
      requires TableOk() && (2 <= clno <= 0xff6 ==> clno < limit)
      ensures nclno < 0x10000
      ensures nclno == if clno < 1 then (clno + 1) % 0x10000 else if clno == 1 then END_MARK
                       else if clno <= 0xff6 then entries[clno] else 0
    {
      if clno < 1 {
        nclno := (clno + 1) % 0x10000;
      } else if clno == 1 {
        nclno := END_MARK;
      } else if clno <= 0xff6 {
        nclno := GetClval12(clno);
      } else {
        nclno := 0;
      }
    }

    /** Takes the first free cluster and terminates it, or answers 0. The scan covers more cluster numbers
        than the disk has blocks for: what it takes lies on the disk exactly if a free cluster does. */
    method AllocBlock12() returns (blk: nat)
      requires Valid()
      modifies this`entries, fat
      ensures Valid()
      ensures blk == 0 ==> entries == old(entries) && Full(entries)
      ensures blk != 0 ==> IsFree(old(entries), blk) && entries == old(entries)[blk := END_MARK]
                           && forall cl :: 2 <= cl < blk ==> !IsFree(old(entries), cl)
      ensures blk != 0 ==> (Beyond(blk) <==> NoneOnDisk(old(entries), |disk|)) && (Beyond(blk) ==> NoneOnDisk(entries, |disk|))
    {
      blk := 0;
      var i := 2;
      while i < limit
        invariant 2 <= i && entries == old(entries) && Valid()
        invariant forall cl :: 2 <= cl < i ==> !IsFree(entries, cl)
      {
        var clval := GetClval12(i);
        if clval == 0 {
          ChainsKeptByAlloc(entries, chains, i);
          FirstFree(entries, i, |disk|);
          SetClval12(i, END_MARK);
          return i;
        }
        i := i + 1;
      }
    }

    /** Follows `i` links of a chain. */
    method Walk(start: int, i: int, ghost c: seq<nat>) returns (cl: int)
      requires TableOk() && limit <= 0xff0 && IsChain(entries, c)
      requires i > 0 ==> i < |c| && start == c[0]
      ensures cl == if i > 0 then c[i] else start
    {
      cl := start;
      var k := i;
      while k > 0
        invariant i > 0 ==> 0 <= k <= i && cl == c[i - k]
        invariant i <= 0 ==> k == i && cl == start
      {
        assert entries[c[i - k]] == c[i - k + 1];
        if cl < 1 {
          cl := cl + 1;
        } else if cl == 1 {
          cl := END_MARK;
        } else {
          cl := NextCluster12(cl);
        }
        k := k - 1;
      }
    }

    /** Clears every entry of the chain `c` that starts at `start`. */
    method ClearEntries(start: nat, ghost c: seq<nat>)
      requires TableOk() && limit <= 0xff0 && IsChain(entries, c) && c != [] && start == c[0]
      modifies this`entries, fat
      ensures TableOk()
      ensures forall cl :: 0 <= cl < limit ==> entries[cl] == if cl in c then 0 else old(entries)[cl]
    {
      var clno := start;
      ghost var k := 0;
      while !(clno >= END_MIN)
        invariant 0 <= k <= |c| && TableOk()
        invariant if k < |c| then clno == c[k] else clno >= END_MIN
        invariant forall cl :: 0 <= cl < limit ==> entries[cl] == if cl in c[..k] then 0 else old(entries)[cl]
        decreases |c| - k
      {
        assert c[k] !in c[..k] && (k < |c| - 1 ==> old(entries)[c[k]] == c[k + 1]);
        var next := NextCluster12(clno);
        SetClval12(clno, 0);
        assert c[..k + 1] == c[..k] + [c[k]];
        clno := next;
        k := k + 1;
      }
      assert c[..k] == c;
    }

    /** Frees the whole chain of `f`, which starts at `start`. */
    method FreeClusterChain(start: nat, ghost f: Owner)
      requires Valid() && f < |chains| && chains[f] != [] && start == chains[f][0]
      modifies this`entries, this`chains, this`data, fat
      ensures Valid() && chains == old(chains)[f := []] && f < |old(data)| && data == old(data)[f := []]
      ensures forall cl :: 0 <= cl < limit ==> entries[cl] == if cl in old(chains[f]) then 0 else old(entries)[cl]
    {
      ChainAt(entries, chains, f);
      ClearEntries(start, chains[f]);
      ChainFreed(old(entries), entries, chains, f);
      Adopt(f, []);
    }

    /** The cluster before `cl`, the k-th of the chain `c` that starts at `start`. */
    method Predecessor(start: nat, cl: nat, ghost c: seq<nat>, ghost k: nat) returns (prev: nat)
      requires TableOk() && limit <= 0xff0 && IsChain(entries, c)
      requires 0 < k < |c| && start == c[0] && cl == c[k]
      ensures prev == c[k - 1]
    {
      prev := start;
      assert entries[c[0]] == c[1];
      var cur := NextCluster12(prev);
      ghost var i := 1;
      while cur != cl
        invariant 1 <= i <= k && prev == c[i - 1] && cur == c[i]
        decreases k - i
      {
        prev := cur;
        assert entries[c[i]] == c[i + 1];
        cur := NextCluster12(prev);
        i := i + 1;
      }
    }

    /** Makes `prev` point to `next` instead of `cl`, and frees `cl`. */
    method Bypass(prev: nat, cl: nat, next: nat, ghost f: Owner, ghost k: nat)
      requires Valid() && f < |chains| && 0 < k < |chains[f]| && prev == chains[f][k - 1] && cl == chains[f][k]
      requires prev < limit && cl < limit && next == entries[cl] && next < 4096
      modifies this`entries, this`chains, this`data, fat
      ensures Valid() && entries == old(entries)[prev := next][cl := 0]
      ensures ChainDropped(old(chains), chains, old(data), data, f, k)
    {
      ChainShortened(entries, chains, f, k);
      StoredDropped(disk, chains, data, f, k);
      SetClval12(prev, next);
      SetClval12(cl, 0);
      Adopt(f, chains[f][..k] + chains[f][k + 1..]);
    }

    /** Unlinks and frees cluster `cl`, the k-th of the chain of `f`; `start` is the chain's first cluster. */
    method DeleteClusterFromChain(start: nat, cl: nat, ghost f: Owner, ghost k: nat)
      requires Valid() && f < |chains| && 0 < k < |chains[f]| && start == chains[f][0] && cl == chains[f][k]
      modifies this`entries, this`chains, this`data, fat
      ensures Valid() && ChainDropped(old(chains), chains, old(data), data, f, k)
      ensures IsFree(entries, cl)
      ensures forall x :: 0 <= x < limit && x !in old(chains[f]) ==> entries[x] == old(entries)[x]
    {
      ChainAt(entries, chains, f);
      var prev := Predecessor(start, cl, chains[f], k);
      var next := GetClval12(cl);
      Bypass(prev, cl, next, f, k);
    }

    /** Records that the chain of `f` is now `c`. */
    ghost method Adopt(f: Owner, c: seq<nat>)
      requires TableOk() && Stored(disk, chains, data)
      requires f < |chains| && ChainsOk(entries, chains[f := c]) && OnDisk(disk, c)
      modifies this`chains, this`data
      ensures Valid() && OnDisk(disk, c) && f < |old(data)|
      ensures chains == old(chains)[f := c] && data == old(data)[f := Flat(disk, c)]
    {
      StoredAt(disk, chains, data, f);
      StoredRechained(disk, chains, data, f, c);
      chains := chains[f := c];
      data := data[f := Flat(disk, c)];
    }

    /** Records that cluster `cl` was linked behind the chain of `f`. */
    ghost method AdoptLonger(f: Owner, cl: nat, chains': seq<seq<nat>>)
      requires TableOk() && Stored(disk, chains, data)
      requires f < |chains| && chains' == chains[f := chains[f] + [cl]] && ChainsOk(entries, chains')
      modifies this`chains, this`data
      ensures chains == chains' && Longer(old(data), f, cl)
    {
      StoredAt(disk, chains, data, f);
      ghost var c := chains[f];
      if Beyond(cl) {
        assert (c + [cl])[..|c|] == c && chains[f := c + [cl]][f := c] == chains;
        chains := chains';
      } else {
        assert OnDisk(disk, c + [cl]);
        Adopt(f, c + [cl]);
        FlatSnoc(disk, c, cl);
      }
    }

    /** Gives an empty file its first cluster, or answers 0. */
    method BeginChain(vn: Vnode) returns (cl: nat)
      requires Valid() && vn.owner < |chains| && chains[vn.owner] == []
      modifies this`entries, this`chains, this`data, fat, vn`start
      ensures cl == 0 ==> Valid() && chains == old(chains) && data == old(data) && vn.start == old(vn.start) && Full(entries)
      ensures cl != 0 ==> chains == old(chains)[vn.owner := [cl]] && vn.start == cl && Longer(old(data), vn.owner, cl)
      ensures cl != 0 && Beyond(cl) ==> NoneOnDisk(entries, |disk|)
    {
      cl := AllocBlock12();
      if cl != 0 {
        ChainBegun(old(entries), chains, vn.owner, cl);
        assert chains[vn.owner] + [cl] == [cl];
        AdoptLonger(vn.owner, cl, chains[vn.owner := [cl]]);
        vn.start := cl;
      }
    }

    /** Links `cl`, which was free in `before` and is now terminated, behind `last`. */
    method LinkBehind(last: nat, cl: nat, ghost f: Owner, ghost before: seq<nat>)
      requires Valid() && ChainsOk(before, chains) && IsFree(before, cl) && entries == before[cl := END_MARK]
      requires f < |chains| && chains[f] != [] && last == chains[f][|chains[f]| - 1]
      modifies this`entries, this`chains, this`data, fat
      ensures chains == old(chains)[f := old(chains[f]) + [cl]] && Longer(old(data), f, cl)
      ensures last < |old(entries)| && entries == old(entries)[last := cl]
    {
      ChainAt(before, chains, f);
      ghost var chains' := chains[f := chains[f] + [cl]];
      ChainExtended(before, chains, f, cl);
      SetClval12(last, cl);
      AdoptLonger(f, cl, chains');
    }

    /** Links a new cluster behind `last`, the last one of the chain of `f`, or answers 0. */
    method ExtendChain(last: nat, ghost f: Owner) returns (cl: nat)
      requires Valid() && f < |chains| && chains[f] != [] && last == chains[f][|chains[f]| - 1]
      modifies this`entries, this`chains, this`data, fat
      ensures cl == 0 <==> Full(old(entries))
      ensures cl == 0 ==> Valid() && chains == old(chains) && data == old(data) && entries == old(entries)
      ensures cl != 0 ==> chains == old(chains)[f := old(chains[f]) + [cl]] && IsFree(old(entries), cl)
                          && Longer(old(data), f, cl)
      ensures cl != 0 ==> (Beyond(cl) <==> NoneOnDisk(old(entries), |disk|)) && (Beyond(cl) ==> NoneOnDisk(entries, |disk|))
    {
      cl := AllocBlock12();
      if cl != 0 {
        ghost var e := entries;
        ChainAt(entries, chains, f);
        LinkBehind(last, cl, f, old(entries));
        if cl + BLOCK_SHIFT >= |disk| {
          StillFull(e, last, cl, |disk|);
        }
      }
    }

    /** The cluster that follows `cur`, the `at`-th of the chain of `f`; a new one when `cur` is the last,
        or 0 when the volume is full. */
    method FollowOrExtend(cur: nat, ghost f: Owner, ghost at: nat) returns (cl: nat)
      requires Valid() && f < |chains| && at < |chains[f]| && cur == chains[f][at]
      modifies this`entries, this`chains, this`data, fat
      ensures cl == 0 ==> Valid() && chains == old(chains) && data == old(data) && Full(entries) && at == |chains[f]| - 1
      ensures cl != 0 && Beyond(cl) ==> Stranded(f) && data == old(data) && NoneOnDisk(entries, |disk|)
      ensures cl != 0 && !Beyond(cl) ==>
                && Valid() && f < |chains| && old(chains[f]) <= chains[f] && at + 1 < |chains[f]| && cl == chains[f][at + 1]
                && (data == old(data) || Grown(old(data), data, f))
    {
      ChainAt(entries, chains, f);
      StoredAt(disk, chains, data, f);
      ChainNext(entries, chains[f], at);
      cl := NextCluster12(cur);
      if cl >= END_MIN {
        cl := ExtendChain(cur, f);
      }
    }

    /** Finds or makes the cluster to write to at a position that is a multiple of the block size. */
    method BlockToWrite(vn: Vnode, offset: nat) returns (cl: nat)
      requires Valid() && FileOk(vn) && offset <= vn.fsize && offset % BLOCK == 0
      modifies this`entries, this`chains, this`data, fat, vn`start
      ensures cl == 0 ==> Valid() && data == old(data) && FileOk(vn) && Full(entries)
                          && (vn.fsize > 0 ==> |data[vn.owner]| == Max(offset, BLOCK))
      ensures cl != 0 && Beyond(cl) ==> Stranded(vn.owner) && data == old(data) && NoneOnDisk(entries, |disk|)
      ensures cl != 0 && !Beyond(cl) ==>
                && Valid() && (data == old(data) || Grown(old(data), data, vn.owner))
                && vn.owner < |chains| && Target(vn.fsize, offset) < |chains[vn.owner]|
                && cl == chains[vn.owner][Target(vn.fsize, offset)] && vn.start == chains[vn.owner][0]
    {
      if vn.fsize == 0 {
        cl := BeginChain(vn);
      } else {
        ghost var c := chains[vn.owner];
        ChainAt(entries, chains, vn.owner);
        var cur := Walk(vn.start, offset / BLOCK - 1, c);
        cl := FollowOrExtend(cur, vn.owner, Max(offset / BLOCK - 1, 0));
      }
    }

    /** Puts bytes into block `cl`, the j-th of the chain of `f`. */
    method PutBytes(cl: nat, at: nat, b: seq<byte>, ghost f: Owner, ghost j: nat)
      requires Valid() && f < |chains| && j < |chains[f]| && cl == chains[f][j] && at + |b| <= BLOCK
      modifies this`disk, this`data
      ensures Valid() && f < |old(data)| && |old(data[f])| == BLOCK * |chains[f]|
      ensures data == old(data)[f := Overwrite(old(data[f]), BLOCK * j + at, b)]
      ensures cl + BLOCK_SHIFT < |old(disk)| && disk == Store(old(disk), cl, Patch(old(disk)[cl + BLOCK_SHIFT], at, b))
    {
      StoredPatched(entries, disk, chains, data, f, j, at, b);
      disk := Store(disk, cl, Patch(disk[cl + BLOCK_SHIFT], at, b));
      data := data[f := Overwrite(data[f], BLOCK * j + at, b)];
    }

    /** Puts bytes into block `cl`, the j-th of the file, for a write at `offset`, and updates the size. */
    method PutShown(vn: Vnode, offset: nat, cl: nat, at: nat, b: seq<byte>, ghost j: nat)
      requires Valid() && vn.owner < |chains| && vn.owner < |data| && vn.fsize <= |data[vn.owner]|
      requires j < |chains[vn.owner]| && cl == chains[vn.owner][j] && at + |b| <= BLOCK && offset <= BLOCK * j + at
      requires b != [] && vn.start == chains[vn.owner][0]
      modifies this`disk, this`data, vn`fsize, vn`bytes
      ensures Valid() && FileOk(vn) && OnlyOwner(old(data), data, vn.owner)
      ensures |old(data[vn.owner])| == BLOCK * |chains[vn.owner]| && vn.fsize == Max(old(vn.fsize), offset + |b|)
      ensures data[vn.owner] == Overwrite(old(data[vn.owner]), BLOCK * j + at, b)
    {
      PutBytes(cl, at, b, vn.owner, j);
      if offset + |b| > vn.fsize {
        vn.fsize := offset + |b|;
      }
      vn.bytes := data[vn.owner][..vn.fsize];
    }

    /** Fills the rest of the block a position lies in. */
    method FillBlock(vn: Vnode, offset: nat, buf: seq<byte>) returns (w: nat)
      requires Valid() && FileOk(vn) && offset <= vn.fsize && offset % BLOCK != 0 && buf != []
      modifies this`disk, this`data, vn`fsize, vn`bytes
      ensures Valid() && FileOk(vn) && OnlyOwner(old(data), data, vn.owner)
      ensures Round(old(data[vn.owner]), old(vn.fsize), data[vn.owner], vn.fsize, offset, buf, w, [])
    {
      ChainAt(entries, chains, vn.owner);
      var i, at := offset / BLOCK, offset % BLOCK;
      assert BLOCK * i + at == offset && i < |chains[vn.owner]|;
      var cur := Walk(vn.start, i, chains[vn.owner]);
      var j := BLOCK - at;
      w := if j > |buf| then |buf| else j;
      PutShown(vn, offset, cur, at, buf[..w], i);
      RoundWithin(old(data[vn.owner]), old(vn.fsize), data[vn.owner], vn.fsize, offset, buf, w);
    }

    /** Puts bytes at the beginning of block `cl`, chosen for a write at `offset`. */
    method StoreBlock(vn: Vnode, offset: nat, buf: seq<byte>, cl: nat) returns (w: nat)
      requires Valid() && vn.owner < |chains| && vn.owner < |data| && buf != []
      requires vn.fsize <= |data[vn.owner]| && offset <= vn.fsize && offset % BLOCK == 0
      requires Target(vn.fsize, offset) < |chains[vn.owner]| && cl == chains[vn.owner][Target(vn.fsize, offset)]
      requires vn.start == chains[vn.owner][0]
      modifies this`disk, this`data, vn`fsize, vn`bytes
      ensures Valid() && FileOk(vn) && OnlyOwner(old(data), data, vn.owner)
      ensures Round(old(data[vn.owner]), old(vn.fsize), data[vn.owner], vn.fsize, offset, buf, w, [])
    {
      w := if |buf| >= BLOCK then BLOCK else |buf|;
      TargetPlace(vn.fsize, offset);
      PutShown(vn, offset, cl, 0, buf[..w], Target(vn.fsize, offset));
      RoundWithin(old(data[vn.owner]), old(vn.fsize), data[vn.owner], vn.fsize, offset, buf, w);
    }

    /** Writes a block, or the beginning of one, at a position that is a multiple of the block size. The
        bytes of the block linked for it, if any, are `more`. */
    method PutBlock(vn: Vnode, offset: nat, buf: seq<byte>) returns (w: nat, lost: bool, ghost more: seq<byte>)
      requires Valid() && FileOk(vn) && offset <= vn.fsize && offset % BLOCK == 0 && buf != []
      modifies this`entries, this`chains, this`disk, this`data, fat, vn
      ensures OnlyOwner(old(data), data, vn.owner)
      ensures w > 0 ==> Valid() && FileOk(vn) && Round(old(data[vn.owner]), old(vn.fsize), data[vn.owner], vn.fsize, offset, buf, w, more)
      ensures w == 0 ==> data == old(data) && vn.fsize == old(vn.fsize) && vn.bytes == old(vn.bytes)
      ensures w == 0 ==> Stopped(vn, lost, offset)
    {
      more := [];
      StoredAt(disk, chains, data, vn.owner);
      var cl := BlockToWrite(vn, offset);
      if cl == 0 {
        return 0, false, [];
      }
      if cl + BLOCK_SHIFT >= |disk| {
        return 0, true, [];
      }
      StoredAt(disk, chains, data, vn.owner);
      ghost var was, now := old(data[vn.owner]), data[vn.owner];
      more := now[|was|..];
      assert was + more == now;
      w := StoreBlock(vn, offset, buf, cl);
      lost := false;
      RoundAfter(was, more, old(vn.fsize), data[vn.owner], vn.fsize, offset, buf, w);
    }

    /** One round of the write loop. */
    method WriteRound(vn: Vnode, offset: nat, buf: seq<byte>) returns (w: nat, lost: bool, ghost more: seq<byte>)
      requires Valid() && FileOk(vn) && offset <= vn.fsize && buf != []
      modifies this`entries, this`chains, this`disk, this`data, fat, vn
      ensures OnlyOwner(old(data), data, vn.owner)
      ensures w > 0 ==> Valid() && FileOk(vn) && Round(old(data[vn.owner]), old(vn.fsize), data[vn.owner], vn.fsize, offset, buf, w, more)
      ensures w == 0 ==> data == old(data) && vn.fsize == old(vn.fsize) && vn.bytes == old(vn.bytes)
      ensures w == 0 ==> Stopped(vn, lost, offset)
    {
      if offset % BLOCK != 0 {
        w := FillBlock(vn, offset, buf);
        lost, more := false, [];
      } else {
        w, lost, more := PutBlock(vn, offset, buf);
      }
    }

    /** The write loop: it has written all of `buf`, or had to stop after `done` bytes. */
    method WriteAll(vn: Vnode, offset: nat, buf: seq<byte>)
      returns (all: bool, lost: bool, end: nat, ghost done: nat, ghost grown: seq<byte>)
      requires Valid() && FileOk(vn) && offset <= vn.fsize
      modifies this`entries, this`chains, this`disk, this`data, fat, vn
      ensures OnlyOwner(old(data), data, vn.owner) && done <= |buf| && offset + done == end <= vn.fsize
      ensures Landed(old(data[vn.owner]), old(vn.fsize), data[vn.owner], vn.fsize, offset, buf, done, grown)
      ensures if all then done == |buf| && Valid() && FileOk(vn) else done < |buf| && Stopped(vn, lost, end)
    {
      ghost var was, size := data[vn.owner], vn.fsize;
      done, grown := 0, was;
      lost, end := false, offset;
      var n, rest := |buf|, buf;
      StoredAt(disk, chains, data, vn.owner);
      LandedNothing(was, size, offset, buf);
      while n > 0
        invariant Valid() && FileOk(vn) && OnlyOwner(old(data), data, vn.owner)
        invariant done <= |buf| && n == |buf| - done && end == offset + done && rest == buf[done..]
        invariant end <= vn.fsize && Landed(was, size, data[vn.owner], vn.fsize, offset, buf, done, grown)
      {
        ghost var stored, prior, psize := data, data[vn.owner], vn.fsize;
        var w;
        ghost var more;
        w, lost, more := WriteRound(vn, end, rest);
        OnlyOwnerStill(old(data), stored, data, vn.owner);
        if w == 0 {
          return false, lost, end, done, grown;
        }
        ghost var now, nsize := data[vn.owner], vn.fsize;
        LandedStep(was, size, prior, psize, now, nsize, offset, buf, done, grown, rest, w, more);
        done, grown := done + w, grown + more;
        n, end, rest := n - w, end + w, rest[w..];
      }
      all := true;
    }

    /** Writes `buf` at `offset`, which the seek call keeps within the file. `done` tells how much of `buf` was
        consumed before the volume ran full or a cluster beyond the disk was linked, and `grown` what the
        file's owner would store had only blocks been added. */
    method Write(vn: Vnode, offset: nat, buf: seq<byte>) returns (r: WriteResult, ghost done: nat, ghost grown: seq<byte>)
      requires Valid() && FileOk(vn) && offset <= vn.fsize
      modifies this`entries, this`chains, this`disk, this`data, fat, vn
      ensures OnlyOwner(old(data), data, vn.owner) && Shows(vn)
      ensures Landed(old(data[vn.owner]), old(vn.fsize), data[vn.owner], vn.fsize, offset, buf, done, grown)
      ensures InPlace(old(vn.fsize), offset) ==> vn.bytes == Overwrite(old(vn.bytes), offset, buf[..done])
      ensures r == OffDisk ==> Stranded(vn.owner) && done < |buf| && NoneOnDisk(entries, |disk|)
      ensures r != OffDisk ==> Valid() && FileOk(vn)
      ensures r.Written? ==> done == |buf| && r.offset == offset + |buf|
      ensures r == NoSpace ==> done < |buf| && Full(entries) && (InPlace(old(vn.fsize), offset) ==> vn.fsize == offset + done == |data[vn.owner]|)
    {
      var all, lost, end;
      all, lost, end, done, grown := WriteAll(vn, offset, buf);
      LandedShows(old(data[vn.owner]), old(vn.fsize), data[vn.owner], vn.fsize, offset, buf, done, grown);
      if all {
        return Written(end), done, grown;
      }
      if lost {
        return OffDisk, done, grown;
      }
      NothingLeft(old(vn.fsize), vn.fsize, offset, done, |data[vn.owner]|);
      return NoSpace, done, grown;
    }

    /** One round of the read loop. */
    method ReadRound(vn: Vnode, at: nat, n: nat) returns (bytes: seq<byte>)
      requires Valid() && FileOk(vn) && 0 < n && at + n <= vn.fsize
      ensures 0 < |bytes| <= n && bytes == vn.bytes[at..at + |bytes|]
    {
      ChainAt(entries, chains, vn.owner);
      var i, k := at / BLOCK, at % BLOCK;
      var cur := Walk(vn.start, i, chains[vn.owner]);
      var j := BLOCK - k;
      var m := if j > n then n else j;
      BlockBytes(disk, chains, data, vn.owner, i, k, m);
      bytes := disk[cur + BLOCK_SHIFT][k..k + m];
      PrefixSlice(data[vn.owner], vn.fsize, at, at + m);
    }

    /** Reads up to `nb` bytes at `offset`; answers them and the position after them. */
    method Read(vn: Vnode, offset: nat, nb: nat) returns (end: nat, out: seq<byte>)
      requires Valid() && FileOk(vn)
      ensures end == offset + |out|
      ensures out == if offset <= |vn.bytes| then vn.bytes[offset..Min(offset + nb, |vn.bytes|)] else []
    {
      var n := if offset + nb > vn.fsize then vn.fsize - offset else nb;
      ghost var total, all := n, vn.bytes;
      out, end := [], offset;
      while n > 0
        invariant n <= total && end == offset + |out|
        invariant total > 0 ==> 0 <= n && end + n == offset + total && out == all[offset..end]
        invariant total <= 0 ==> out == []
      {
        var bytes := ReadRound(vn, end, n);
        assert all[offset..end] + all[end..end + |bytes|] == all[offset..end + |bytes|];
        out := out + bytes;
        n := n - |bytes|;
        end := end + |bytes|;
      }
    }

    /** Truncates a file to nothing. */
    method Trunc(vn: Vnode)
      requires Valid() && FileOk(vn)
      modifies this`entries, this`chains, this`data, fat, vn
      ensures Valid() && FileOk(vn) && vn.bytes == [] && chains == old(chains)[vn.owner := []]
      ensures OnlyOwner(old(data), data, vn.owner)
      ensures forall cl :: 0 <= cl < limit ==> entries[cl] == if cl in old(chains[vn.owner]) then 0 else old(entries)[cl]
    {
      if vn.fsize != 0 {
        FreeClusterChain(vn.start, vn.owner);
      }
      vn.start := 0;
      vn.fsize := 0;
      vn.bytes := [];
    }
  }

  lemma ZeroEntry(fat: seq<byte>, cl: nat)
    requires Index(cl) + 1 < |fat| && fat[Index(cl)] == 0 && fat[Index(cl) + 1] == 0
    ensures GetClval(fat, cl) == 0
  {
  }

  lemma IndexBound(cl: nat, n: nat)
    requires cl < n
    ensures 2 * Index(cl) + 3 <= 3 * n
  {
    assert 2 * (cl * 3 / 2) <= cl * 3;
  }

  lemma ZeroIs(fat: seq<byte>, e: seq<nat>, cl: nat)
    requires cl < |e| && 3 * |e| <= 2 * |fat| && e[cl] == 0 && forall i :: 0 <= i < |fat| ==> fat[i] == 0
    ensures EntryIs(fat, e, cl)
  {
    IndexBound(cl, |e|);
    ZeroEntry(fat, cl);
  }

  /** A table of zero bytes holds just free entries. */
  lemma EmptyTable(fat: seq<byte>, e: seq<nat>)
    requires 3 * |e| <= 2 * |fat|
    requires (forall i :: 0 <= i < |fat| ==> fat[i] == 0) && forall cl :: 0 <= cl < |e| ==> e[cl] == 0
    ensures Packs(fat, e, |e|)
  {
    forall cl | 0 <= cl < |e| ensures EntryIs(fat, e, cl) {
      ZeroIs(fat, e, cl);
    }
    PacksAll(fat, e, |e|);
  }

  /** No cluster on a disk of so many blocks is free. */
  ghost predicate NoneOnDisk(e: seq<nat>, blocks: nat) {
    forall cl: nat :: IsFree(e, cl) ==> cl + BLOCK_SHIFT >= blocks
  }

  /** Linking a cluster frees none. */
  lemma StillFull(e: seq<nat>, last: nat, cl: nat, blocks: nat)
    requires last < |e| && cl != 0 && NoneOnDisk(e, blocks)
    ensures NoneOnDisk(e[last := cl], blocks)
  {
    var e' := e[last := cl];
    forall x: nat | IsFree(e', x) ensures x + BLOCK_SHIFT >= blocks {
      assert IsFree(e, x);
    }
  }

  /** The first free cluster lies beyond the disk exactly if all free ones do, and taking it changes nothing then. */
  lemma FirstFree(e: seq<nat>, cl: nat, blocks: nat)
    requires IsFree(e, cl) && forall x :: 2 <= x < cl ==> !IsFree(e, x)
    ensures cl + BLOCK_SHIFT >= blocks <==> NoneOnDisk(e, blocks)
    ensures NoneOnDisk(e, blocks) ==> NoneOnDisk(e[cl := END_MARK], blocks)
  {
    if NoneOnDisk(e, blocks) {
      StillFull(e, cl, END_MARK, blocks);
    }
  }

  lemma ChainNext(e: seq<nat>, c: seq<nat>, at: nat)
    requires IsChain(e, c) && at < |c| && |e| <= 0xff0
    ensures if at == |c| - 1 then e[c[at]] >= END_MIN else e[c[at]] == c[at + 1] && 2 <= c[at + 1] < END_MIN
  {
  }

  /** Nothing but what `f` stores changed. */
  ghost predicate OnlyOwner(data: seq<seq<byte>>, data': seq<seq<byte>>, f: Owner) {
    var ok := f < |data| && f < |data'| && data' == data[f := data'[f]];
    ok
  }

  lemma OnlyOwnerStill(a: seq<seq<byte>>, b: seq<seq<byte>>, c: seq<seq<byte>>, f: Owner)
    requires OnlyOwner(a, b, f) && OnlyOwner(b, c, f)
    ensures OnlyOwner(a, c, f)
  {
  }

  /** The chain of `f` has lost its k-th cluster, and what `f` stores the bytes of that block. */
  ghost predicate ChainDropped(chains: seq<seq<nat>>, chains': seq<seq<nat>>, data: seq<seq<byte>>, data': seq<seq<byte>>,
                               f: Owner, k: nat)
  {
    var ok :=
      && f < |chains| && k < |chains[f]| && f < |data| && BLOCK * k + BLOCK <= |data[f]|
      && chains' == chains[f := chains[f][..k] + chains[f][k + 1..]]
      && data' == data[f := data[f][..BLOCK * k] + data[f][BLOCK * k + BLOCK..]];
    ok
  }

  /** What `f` stores has grown by one block at the end. */
  ghost predicate Grown(data: seq<seq<byte>>, data': seq<seq<byte>>, f: Owner) {
    var ok := OnlyOwner(data, data', f) && |data'[f]| == |data[f]| + BLOCK && data[f] <= data'[f];
    ok
  }

  lemma PrefixSlice(s: seq<byte>, n: nat, a: nat, b: nat)
    requires a <= b <= n <= |s|
    ensures s[..n][a..b] == s[a..b]
  {
  }

  // ---- Where the bytes of a write go ----

  /** Which cluster of the file a write at a multiple of the block size goes to: for position 0 of a file
      that is not empty, the second one. */
  function Target(fsize: nat, offset: nat): nat {
    if fsize == 0 then 0 else Max(offset / BLOCK, 1)
  }

  /** The write position is one for which bytes go where they belong. */
  predicate InPlace(fsize: nat, offset: nat) {
    offset > 0 || fsize == 0
  }

  /** Where the bytes go in what the owner stores. */
  function Place(fsize: nat, offset: nat): nat {
    if InPlace(fsize, offset) then offset else BLOCK
  }

  /** What one round does that writes `w` bytes of `buf` after adding the bytes `more` of a new block. */
  ghost predicate Round(was: seq<byte>, size: nat, now: seq<byte>, size': nat, offset: nat, buf: seq<byte>, w: nat, more: seq<byte>) {
    var place := Place(size, offset);
    var ok :=
      && offset <= size <= |was| && 0 < w <= |buf| && size' == Max(size, offset + w)
      && |now| == |was| + |more| && place + w <= |now| && (!InPlace(size, offset) ==> w == Min(|buf|, BLOCK))
      && forall p :: 0 <= p < |now| ==>
           now[p] == if place <= p < place + w then buf[p - place] else if p < |was| then was[p] else more[p - |was|];
    ok
  }

  lemma TargetPlace(fsize: nat, offset: nat)
    requires offset <= fsize && offset % BLOCK == 0
    ensures BLOCK * Target(fsize, offset) == Place(fsize, offset)
  {
  }

  /** A round that adds no block. */
  lemma RoundWithin(was: seq<byte>, size: nat, now: seq<byte>, size': nat, offset: nat, buf: seq<byte>, w: nat)
    requires offset <= size <= |was| && 0 < w <= |buf| && size' == Max(size, offset + w)
    requires Place(size, offset) + w <= |was| && (!InPlace(size, offset) ==> w == Min(|buf|, BLOCK))
    requires now == Overwrite(was, Place(size, offset), buf[..w])
    ensures Round(was, size, now, size', offset, buf, w, [])
  {
    forall p | 0 <= p < |now| {
      OverwriteAt(was, Place(size, offset), buf[..w], p);
    }
  }

  /** A full volume stops a write in place at the end of the file and of what its owner stores. */
  lemma NothingLeft(size: nat, size': nat, offset: nat, done: nat, stored: nat)
    requires offset + done <= size' <= stored && offset <= size && (offset + done) % BLOCK == 0
    requires if size' > 0 then stored == Max(offset + done, BLOCK) else stored == 0
    requires done == 0 ==> size' == size
    ensures InPlace(size, offset) ==> size' == offset + done == stored
  {
  }

  lemma RoundAfter(was: seq<byte>, more: seq<byte>, size: nat, now: seq<byte>, size': nat, offset: nat, buf: seq<byte>, w: nat)
    requires size <= |was| && Round(was + more, size, now, size', offset, buf, w, [])
    ensures Round(was, size, now, size', offset, buf, w, more)
  {
  }

  /** The byte stored at `p` after `done` bytes of `buf` are written at `offset` of a file of `size` bytes, where
      `s` was stored: in place; or, at position 0 of a file that is not empty, the first block's worth behind the
      first block and the rest, in its place, over it. */
  function ByteAt(s: seq<byte>, size: nat, offset: nat, buf: seq<byte>, done: nat, p: nat): byte
    requires p < |s| && done <= |buf|
  {
    if InPlace(size, offset) then
      if offset <= p < offset + done then buf[p - offset] else s[p]
    else if BLOCK <= p < done then buf[p]
    else if BLOCK <= p < BLOCK + Min(BLOCK, done) then buf[p - BLOCK]
    else s[p]
  }

  /** How far a write of `buf` at `offset` has got, after `done` bytes, with a file of `size` bytes whose owner
      stored `was`: the owner now stores `now`, that is `was` grown by whole blocks to `grown`, with the
      bytes put into it. */
  ghost predicate Landed(was: seq<byte>, size: nat, now: seq<byte>, size': nat, offset: nat, buf: seq<byte>, done: nat, grown: seq<byte>) {
    var ok :=
      && offset <= size <= |was| && done <= |buf| && was <= grown && |now| == |grown|
      && size' == (if done == 0 then size else Max(size, offset + done)) && size' <= |grown|
      && (!InPlace(size, offset) ==> BLOCK <= |was| && (done > 0 ==> BLOCK + Min(BLOCK, done) <= |grown|) && (0 < done < |buf| ==> done >= BLOCK))
      && forall p :: 0 <= p < |now| ==> now[p] == ByteAt(grown, size, offset, buf, done, p);
    ok
  }

  lemma LandedNothing(was: seq<byte>, size: nat, offset: nat, buf: seq<byte>)
    requires offset <= size <= |was| && |was| % BLOCK == 0
    ensures Landed(was, size, was, size, offset, buf, 0, was)
  {
  }

  lemma LandedStep(was: seq<byte>, size: nat, prior: seq<byte>, psize: nat, now: seq<byte>, size': nat, offset: nat,
                   buf: seq<byte>, done: nat, grown: seq<byte>, rest: seq<byte>, w: nat, more: seq<byte>)
    requires Landed(was, size, prior, psize, offset, buf, done, grown) && done < |buf| && rest == buf[done..]
    requires Round(prior, psize, now, size', offset + done, rest, w, more)
    ensures Landed(was, size, now, size', offset, buf, done + w, grown + more)
    ensures done + w <= |buf| && offset + done + w <= size'
  {
    forall p | 0 <= p < |now| ensures now[p] == ByteAt(grown + more, size, offset, buf, done + w, p) {
      if p < |prior| {
        assert prior[p] == ByteAt(grown, size, offset, buf, done, p);
      }
    }
  }

  /** What a file shows after a write in place. */
  lemma LandedShows(was: seq<byte>, size: nat, now: seq<byte>, size': nat, offset: nat, buf: seq<byte>, done: nat, grown: seq<byte>)
    requires Landed(was, size, now, size', offset, buf, done, grown)
    ensures InPlace(size, offset) ==> now[..size'] == Overwrite(was[..size], offset, buf[..done])
  {
    if InPlace(size, offset) {
      var shown, want := now[..size'], Overwrite(was[..size], offset, buf[..done]);
      forall p | 0 <= p < size' ensures shown[p] == want[p] {
        OverwriteAt(was[..size], offset, buf[..done], p);
        assert now[p] == ByteAt(grown, size, offset, buf, done, p);
      }
    }
  }

  lemma OverwriteAt(s: seq<byte>, off: nat, b: seq<byte>, p: nat)
    requires off <= |s| && p < Max(|s|, off + |b|)
    ensures Overwrite(s, off, b)[p] == if off <= p < off + |b| then b[p - off] else s[p]
  {
  }

  // ---- What reads see after writes ----

  /** Bytes written are the bytes read back; all others are as before. */
  lemma OverwriteReadsBack(s: seq<byte>, off: nat, b: seq<byte>)
    requires off <= |s|
    ensures var r := Overwrite(s, off, b);
            && r[off..off + |b|] == b && r[..off] == s[..off]
            && (off + |b| < |s| ==> |r| == |s| && r[off + |b|..] == s[off + |b|..])
  {
  }

  /** The bytes written at position 0 are those already there, and so are the ones that land behind the first
      block and are not written over again. */
  predicate Repeats(was: seq<byte>, size: nat, buf: seq<byte>) {
    var m := Min(BLOCK, |buf|);
    && m <= |was| && was[..m] == buf[..m]
    && forall p :: Max(BLOCK, |buf|) <= p < Min(BLOCK + m, size) && p < |was| ==> was[p] == buf[p - BLOCK]
  }

  /** For every buffer: a completed write makes the file its old contents overwritten at the offset exactly if it
      is not at position 0 of a file that is not empty, or happens to repeat what is there. */
  lemma WriteIsOverwriteIff(was: seq<byte>, size: nat, now: seq<byte>, size': nat, offset: nat, buf: seq<byte>, grown: seq<byte>)
    requires Landed(was, size, now, size', offset, buf, |buf|, grown) && buf != []
    ensures now[..size'] == Overwrite(was[..size], offset, buf) <==> InPlace(size, offset) || Repeats(was, size, buf)
  {
    var shown, want := now[..size'], Overwrite(was[..size], offset, buf);
    if InPlace(size, offset) {
      assert buf[..|buf|] == buf;
      LandedShows(was, size, now, size', offset, buf, |buf|, grown);
    } else if Repeats(was, size, buf) {
      forall p | 0 <= p < size' ensures shown[p] == want[p] {
        RepeatedAt(was, size, now, size', buf, grown, p);
      }
    } else if shown == want {
      OverwrittenRepeats(was, size, now, size', buf, grown);
    }
  }

  lemma RepeatedAt(was: seq<byte>, size: nat, now: seq<byte>, size': nat, buf: seq<byte>, grown: seq<byte>, p: nat)
    requires Landed(was, size, now, size', 0, buf, |buf|, grown) && !InPlace(size, 0) && Repeats(was, size, buf) && p < size'
    ensures now[p] == Overwrite(was[..size], 0, buf)[p]
  {
    OverwriteAt(was[..size], 0, buf, p);
    assert now[p] == ByteAt(grown, size, 0, buf, |buf|, p);
    var m := Min(BLOCK, |buf|);
    if p < m {
      assert was[..m][p] == buf[..m][p];
    }
  }

  lemma OverwrittenRepeats(was: seq<byte>, size: nat, now: seq<byte>, size': nat, buf: seq<byte>, grown: seq<byte>)
    requires Landed(was, size, now, size', 0, buf, |buf|, grown) && !InPlace(size, 0)
    requires now[..size'] == Overwrite(was[..size], 0, buf)
    ensures Repeats(was, size, buf)
  {
    var want, m := Overwrite(was[..size], 0, buf), Min(BLOCK, |buf|);
    forall p | 0 <= p < m ensures was[p] == buf[p] {
      assert now[..size'][p] == want[p] && now[p] == ByteAt(grown, size, 0, buf, |buf|, p);
      OverwriteAt(was[..size], 0, buf, p);
    }
    forall p | Max(BLOCK, |buf|) <= p < Min(BLOCK + m, size) ensures was[p] == buf[p - BLOCK] {
      assert now[..size'][p] == want[p] && now[p] == ByteAt(grown, size, 0, buf, |buf|, p);
      OverwriteAt(was[..size], 0, buf, p);
    }
  }

  /** Writing a hundred bytes over the first hundred of a file of two hundred: they go behind the first block, and
      the file shows what it showed before. */
  lemma WriteAtZeroMisses(was: seq<byte>, now: seq<byte>, size': nat, buf: seq<byte>, grown: seq<byte>)
    requires |was| == BLOCK && |buf| == 100 && Landed(was, 200, now, size', 0, buf, 100, grown) && buf[0] != was[0]
    ensures now[..size'] == was[..200] != Overwrite(was[..200], 0, buf)
  {
    assert Overwrite(was[..200], 0, buf)[0] == buf[0];
    forall p | 0 <= p < 200 ensures now[p] == was[p] {
      assert now[p] == ByteAt(grown, 200, 0, buf, 100, p);
    }
  }

  // ---- A cluster that is not on the disk ----

  const DISK_BLOCKS: nat := 2880

  /** A volume with one table entry for each block of its disk, of which nothing is used. */
  method EmptyVolume() returns (vol: Volume)
    ensures fresh(vol) && fresh(vol.fat) && vol.Valid() && vol.limit == DISK_BLOCKS == |vol.disk|
    ensures vol.entries == seq(DISK_BLOCKS, _ => 0)
  {
    var fat := new byte[4320](_ => 0);
    ghost var entries := seq(DISK_BLOCKS, _ => 0);
    EmptyTable(fat[..], entries);
    var empty: Sector := seq(512, _ => 0);
    vol := new Volume(DISK_BLOCKS, fat, seq(DISK_BLOCKS, _ => empty), entries, [], []);
  }

  /** The clusters from `n` on are free, those before are not. */
  ghost predicate FreeFrom(e: seq<nat>, n: nat) {
    |e| == DISK_BLOCKS && forall cl :: 2 <= cl < |e| ==> (e[cl] == 0 <==> cl >= n)
  }

  lemma TakenInTurn(e: seq<nat>, n: nat, blk: nat)
    requires FreeFrom(e, n) && 2 <= n < DISK_BLOCKS && (blk == 0 ==> Full(e))
    requires blk != 0 ==> IsFree(e, blk) && forall cl :: 2 <= cl < blk ==> !IsFree(e, cl)
    ensures blk == n && FreeFrom(e[blk := END_MARK], n + 1)
  {
    assert IsFree(e, n);
  }

  /** Every cluster from 2 on is taken in turn; after those on the disk one follows that is not. */
  method ClusterBeyondDisk() returns (vol: Volume, blk: nat)
    ensures fresh(vol) && vol.Valid() && vol.limit == DISK_BLOCKS == |vol.disk| && blk != 0 && vol.Beyond(blk)
  {
    vol := EmptyVolume();
    blk := 0;
    for n := 2 to DISK_BLOCKS - BLOCK_SHIFT + 1
      invariant fresh(vol) && fresh(vol.fat) && vol.Valid() && vol.limit == DISK_BLOCKS == |vol.disk|
      invariant (n > 2 ==> blk == n - 1) && FreeFrom(vol.entries, n)
    {
      ghost var e := vol.entries;
      blk := vol.AllocBlock12();
      TakenInTurn(e, n, blk);
    }
  }
}
