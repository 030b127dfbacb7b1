/** Directories: lookup, insertion, removal and update of entries over chains of blocks. */
module Directories {
  import opened Basics
  import opened FatTable
  import opened FatVolume
  import opened FatFiles
  import opened DirectorySlots

  /** The root directory's blocks count as clusters from -12 to 1. */
  const ROOT_START: int := -12
  const ROOT_BLOCKS: nat := 14

  datatype Outcome = Done | Duplicate | NotFound | NoDiskSpace | OutsideDisk | RootFull

  /** What a scan stops at. */
  datatype Wanted = Occupied | Taken | Vacant | Named(name: seq<byte>)

  predicate Matches(w: Wanted, e: Slot)
    requires w.Named? ==> |w.name| == NAME
  {
    match w
    case Occupied => Live(e)
    case Taken => Used(e)
    case Vacant => !Used(e)
    case Named(name) => Same(e, name, 0)
  }

  /** The clusters of a directory. */
  ghost function Clusters(root: bool, chains: seq<seq<nat>>, owner: Owner): seq<int> {
    if root then seq(ROOT_BLOCKS, i => i + ROOT_START) else if owner < |chains| then chains[owner] else []
  }

  /** The clusters exist and are different; a directory other than the root has an entry in its first block. */
  ghost predicate Placed(root: bool, entries: seq<nat>, chains: seq<seq<nat>>, disk: seq<Sector>, owner: Owner, start: int,
                         m: Listing) {
    var ok :=
      var cl := Clusters(root, chains, owner);
      && cl != [] && start == cl[0] && InRange(disk, cl) && AllDifferent(cl)
      && (!root ==> owner < |chains| && |entries| <= 0xff0 && IsChain(entries, chains[owner]) && Anchored(Slots(disk, cl)))
      && Listed(Slots(disk, cl), m);
    ok
  }

  /** The first block holds an entry. */
  ghost predicate Anchored(slots: seq<Slot>) {
    var ok := PER_BLOCK <= |slots| && exists j :: 0 <= j < PER_BLOCK && Used(slots[j]);
    ok
  }

  /** The first block holds an entry of another name. */
  ghost predicate KeepsAnchor(slots: seq<Slot>, name: seq<byte>) {
    var ok := PER_BLOCK <= |slots| && exists j :: 0 <= j < PER_BLOCK && Used(slots[j]) && NameOf(slots[j]) != name;
    ok
  }

  /** The successor the table gives a cluster. */
  function Successor(entries: seq<nat>, c: int): int {
    if c < 1 then c + 1 else if c == 1 then END_MARK else if c < |entries| && c <= 0xff6 then entries[c] else 0
  }

  ghost predicate Follows(entries: seq<nat>, cl: seq<int>, k: nat)
    requires k < |cl|
  {
    && (2 <= cl[k] <= 0xff6 ==> cl[k] < |entries|)
    && if k + 1 < |cl| then Successor(entries, cl[k]) == cl[k + 1] < END_MIN else Successor(entries, cl[k]) >= END_MIN
  }

  /** Each cluster is followed by the next one, and the last by an end mark. */
  ghost predicate Chained(entries: seq<nat>, cl: seq<int>) {
    var ok := forall k :: 0 <= k < |cl| ==> Follows(entries, cl, k);
    ok
  }

  /** Just the clusters of the root directory are below 2. */
  ghost predicate Sided(root: bool, cl: seq<int>) {
    var ok := forall k :: 0 <= k < |cl| ==> (cl[k] >= 2 <==> !root);
    ok
  }

  /** The clusters and slots of a directory. */
  lemma Layout(root: bool, entries: seq<nat>, chains: seq<seq<nat>>, disk: seq<Sector>, owner: Owner, start: int, m: Listing)
    returns (cl: seq<int>, slots: seq<Slot>)
    requires Placed(root, entries, chains, disk, owner, start, m)
    ensures cl == Clusters(root, chains, owner) && cl != [] && start == cl[0] && Chained(entries, cl)
    ensures InRange(disk, cl) && AllDifferent(cl) && slots == Slots(disk, cl) && Listed(slots, m)
    ensures Sided(root, cl) && (!root ==> owner < |chains| && cl == chains[owner] && Anchored(slots))
  {
    cl := Clusters(root, chains, owner);
    slots := Slots(disk, cl);
  }

  /** The first byte of a name may stand for the mark of a deleted entry. */
  function Shown(e: Slot): Slot {
    if e[0] == 5 then e[0 := DELETED] else e
  }

  class Directory {
    const vol: Volume
    const root: bool
    const owner: Owner
    const start: int
    /** The entries, by name. */
    ghost var m: Listing

    /** Opens a directory whose slots are properly named. */
    constructor (vol: Volume, root: bool, owner: Owner, start: int, ghost m: Listing)
      requires vol.Valid() && Placed(root, vol.entries, vol.chains, vol.disk, owner, start, m)
      ensures Valid() && this.vol == vol && this.root == root && this.owner == owner && this.start == start && this.m == m
    {
      this.vol, this.root, this.owner, this.start, this.m := vol, root, owner, start, m;
    }

    ghost predicate Valid()
      reads this, vol, vol.fat
    {
      vol.Valid() && Placed(root, vol.entries, vol.chains, vol.disk, owner, start, m)
    }

    /** The block for a new entry was linked beyond the disk: what is stored is as it was, but the directory's
        chain ends at a block that does not exist. */
    ghost predicate AddedOffDisk(disk: seq<Sector>, data: seq<seq<byte>>)
      reads this, vol, vol.fat
    {
      vol.Stranded(owner) && vol.disk == disk && vol.data == data
    }

    /** The cluster after the k-th one of the directory. */
    method Advance(cur: int, ghost cl: seq<int>, ghost k: nat) returns (next: int)
      requires vol.TableOk() && Chained(vol.entries, cl) && k < |cl| && cur == cl[k]
      ensures if k + 1 < |cl| then next == cl[k + 1] && next < END_MIN else next >= END_MIN
    {
      assert Follows(vol.entries, cl, k);
      if cur < 1 {
        next := cur + 1;
      } else if cur == 1 {
        next := END_MARK;
      } else {
        next := vol.NextCluster12(cur);
      }
    }

    /** Looks through one block from slot `j` on. */
    method ScanBlock(w: Wanted, cur: int, j: nat, ghost cl: seq<int>, ghost k: nat, ghost slots: seq<Slot>) returns (j': nat)
      requires w.Named? ==> |w.name| == NAME
      requires InRange(vol.disk, cl) && slots == Slots(vol.disk, cl) && k < |cl| && cur == cl[k] && j <= PER_BLOCK
      ensures j <= j' <= PER_BLOCK && PER_BLOCK * k + j' <= |slots|
      ensures NoMatch(w, slots, PER_BLOCK * k + j, PER_BLOCK * k + j')
      ensures j' < PER_BLOCK ==> PER_BLOCK * k + j' < |slots| && Matches(w, slots[PER_BLOCK * k + j'])
    {
      var blk := vol.disk[cur + BLOCK_SHIFT];
      j' := j;
      while j' < PER_BLOCK && !Matches(w, SlotIn(blk, j'))
        invariant j <= j' <= PER_BLOCK && NoMatch(w, slots, PER_BLOCK * k + j, PER_BLOCK * k + j')
      {
        SlotAt(vol.disk, cl, k, j');
        j' := j' + 1;
      }
      if j' < PER_BLOCK {
        SlotAt(vol.disk, cl, k, j');
      }
    }

    /** Looks through the directory from slot `j` of its k-th cluster on. */
    method Scan(w: Wanted, cur: int, j: nat, ghost cl: seq<int>, ghost k: nat, ghost slots: seq<Slot>)
      returns (found: bool, cur': int, j': nat, ghost k': nat)
      requires w.Named? ==> |w.name| == NAME
      requires vol.TableOk() && Chained(vol.entries, cl) && InRange(vol.disk, cl) && slots == Slots(vol.disk, cl)
      requires k < |cl| && cur == cl[k] && j <= PER_BLOCK
      ensures k <= k' < |cl| && cur' == cl[k']
      ensures found ==> j' < PER_BLOCK && PER_BLOCK * k + j <= PER_BLOCK * k' + j' < |slots| && Matches(w, slots[PER_BLOCK * k' + j'])
      ensures NoMatch(w, slots, PER_BLOCK * k + j, if found then PER_BLOCK * k' + j' else |slots|)
      ensures !found ==> k' == |cl| - 1
      ensures found <==> exists i :: PER_BLOCK * k + j <= i < |slots| && Matches(w, slots[i])
    {
      cur', j', k' := cur, j, k;
      while true
        invariant k <= k' < |cl| && cur' == cl[k'] && j' <= PER_BLOCK && PER_BLOCK * k + j <= PER_BLOCK * k' + j'
        invariant NoMatch(w, slots, PER_BLOCK * k + j, PER_BLOCK * k' + j')
        decreases |cl| - k'
      {
        var at := j';
        j' := ScanBlock(w, cur', at, cl, k', slots);
        NoMatchOn(w, slots, PER_BLOCK * k + j, PER_BLOCK * k' + at, PER_BLOCK * k' + j');
        if j' < PER_BLOCK {
          return true, cur', j', k';
        }
        var next := Advance(cur', cl, k');
        if next >= END_MIN {
          return false, cur', j', k';
        }
        cur', j', k' := next, 0, k' + 1;
      }
    }

    /** The next entry from slot `j` of the k-th cluster on, which is slot `at` of the directory; none before it
        has the name. */
    method NextLive(cur: int, j: nat, ghost cl: seq<int>, ghost k: nat, ghost at: nat, ghost slots: seq<Slot>,
                    ghost name: seq<byte>)
      returns (found: bool, cur': int, j': nat, ghost k': nat, ghost at': nat)
      requires vol.TableOk() && Chained(vol.entries, cl) && InRange(vol.disk, cl) && slots == Slots(vol.disk, cl)
      requires Listed(slots, m)
      requires k < |cl| && cur == cl[k] && j <= PER_BLOCK && at == PER_BLOCK * k + j && NotAmong(slots, at, name)
      ensures k' < |cl| && cur' == cl[k'] && at <= at' && NotAmong(slots, at', name)
      ensures if found then at' == PER_BLOCK * k' + j' && j' < PER_BLOCK && at' < |slots| && Live(slots[at']) else at' == |slots|
    {
      found, cur', j', k' := Scan(Occupied, cur, j, cl, k, slots);
      at' := if found then PER_BLOCK * k' + j' else |slots|;
      NoneBetween(slots, m, at, at', name);
    }

    /** The entry in a slot, if it has the name. */
    method Inspect(cur: int, j: nat, name: seq<byte>, ghost cl: seq<int>, ghost k: nat, ghost at: nat,
                   ghost slots: seq<Slot>)
      returns (r: Option<Slot>)
      requires InRange(vol.disk, cl) && slots == Slots(vol.disk, cl) && Listed(slots, m) && |name| == NAME
      requires k < |cl| && cur == cl[k] && j < PER_BLOCK && at == PER_BLOCK * k + j && at < |slots| && Live(slots[at])
      ensures r.Some? ==> name in m && r.value == m[name]
      ensures r.None? ==> NameOf(slots[at]) != name
    {
      ListedAt(slots, m, at);
      SlotAt(vol.disk, cl, k, j);
      var e := SlotIn(vol.disk[cur + BLOCK_SHIFT], j);
      SameName(e, name);
      return if Same(Shown(e), name, 0) then Some(Shown(e)) else None;
    }

    /** Looks an entry up by name. */
    method Find(name: seq<byte>) returns (r: Option<Slot>)
      requires Valid() && |name| == NAME
      ensures r == if name in m then Some(m[name]) else None
    {
      ghost var cl, slots := Layout(root, vol.entries, vol.chains, vol.disk, owner, start, m);
      r := Lookup(name, cl, slots);
    }

    method Lookup(name: seq<byte>, ghost cl: seq<int>, ghost slots: seq<Slot>) returns (r: Option<Slot>)
      requires vol.TableOk() && Chained(vol.entries, cl) && InRange(vol.disk, cl) && slots == Slots(vol.disk, cl)
      requires Listed(slots, m) && |name| == NAME && cl != [] && start == cl[0]
      ensures r == if name in m then Some(m[name]) else None
    {
      var found, cur, j, k, at := NextLive(start, 0, cl, 0, 0, slots, name);
      while found
        invariant 0 <= k < |cl| && cur == cl[k] && 0 <= at <= |slots| && NotAmong(slots, at, name)
        invariant if found then at == PER_BLOCK * k + j && 0 <= j < PER_BLOCK && at < |slots| && Live(slots[at]) else at == |slots|
        decreases |slots| - at, found
      {
        r := Inspect(cur, j, name, cl, k, at, slots);
        if r.Some? {
          return;
        }
        NotAmongNext(slots, at, name);
        found, cur, j, k, at := NextLive(cur, j + 1, cl, k, at + 1, slots, name);
      }
      ListedNot(slots, m, name);
      return None;
    }

    /** Writes a slot of the k-th block. */
    method Put(cur: int, j: nat, e: Slot, ghost cl: seq<int>, ghost k: nat, ghost slots: seq<Slot>)
      requires Valid() && cl == Clusters(root, vol.chains, owner) && InRange(vol.disk, cl) && slots == Slots(vol.disk, cl)
      requires k < |cl| && cur == cl[k] && j < PER_BLOCK
      modifies vol`disk, vol`data
      ensures vol.Valid() && InRange(vol.disk, cl) && PER_BLOCK * k + j < |slots|
      ensures Slots(vol.disk, cl) == slots[PER_BLOCK * k + j := e]
      ensures Confined(root, owner, old(vol.data), old(vol.chains), old(vol.disk), vol.data, vol.chains, vol.disk)
    {
      ghost var disk := vol.disk;
      if root {
        RootApart(vol.entries, vol.disk, vol.chains, vol.data, cur, Patch(vol.disk[cur + BLOCK_SHIFT], SLOT * j, e));
        vol.disk := vol.disk[cur + BLOCK_SHIFT := Patch(vol.disk[cur + BLOCK_SHIFT], SLOT * j, e)];
      } else {
        assert cur == vol.chains[owner][k];
        vol.PutBytes(cur, SLOT * j, e, owner, k);
      }
      SlotWritten(disk, cl, k, j, e, vol.disk);
    }

    /** Enters a directory entry under a new name, in the first free slot; a directory other than the root grows
        by a block if it has none. */
    method Add(e: Slot) returns (r: Outcome)
      requires Valid() && Proper(e)
      modifies this`m, vol`disk, vol`data, vol`entries, vol`chains, vol.fat
      ensures r != NotFound && (if r == OutsideDisk then AddedOffDisk(old(vol.disk), old(vol.data)) else Valid())
      ensures r == Duplicate <==> NameOf(e) in old(m)
      ensures r == RootFull <==> root && NameOf(e) !in old(m) && old(AllUsed(vol.disk, Clusters(root, vol.chains, owner)))
      ensures r == NoDiskSpace <==>
                !root && NameOf(e) !in old(m) && old(AllUsed(vol.disk, Clusters(root, vol.chains, owner))) && Full(old(vol.entries))
      ensures r == OutsideDisk <==>
                && !root && NameOf(e) !in old(m) && old(AllUsed(vol.disk, Clusters(root, vol.chains, owner)))
                && !Full(old(vol.entries)) && NoneOnDisk(old(vol.entries), |old(vol.disk)|)
      ensures m == if r == Done then old(m)[NameOf(e) := e] else old(m)
      ensures Confined(root, owner, old(vol.data), old(vol.chains), old(vol.disk), vol.data, vol.chains, vol.disk)
      ensures r == Done ==> Entered(old(vol.disk), old(Clusters(root, vol.chains, owner)), e, vol.disk, Clusters(root, vol.chains, owner))
      ensures r != Done && r != OutsideDisk ==> AsBefore(old(vol.disk), old(vol.chains), old(vol.entries), vol.disk, vol.chains, vol.entries)
    {
      Own(vol.entries, vol.disk, vol.chains, vol.data, root, owner);
      var was := Find(NameOf(e));
      if was.Some? {
        return Duplicate;
      }
      ghost var cl, slots := Layout(root, vol.entries, vol.chains, vol.disk, owner, start, m);
      ghost var at;
      r, at := AddNew(e, cl, slots);
    }

    /** Enters an entry whose name is new; `at` is the first free slot, or the number of slots. */
    method AddNew(e: Slot, ghost cl: seq<int>, ghost slots: seq<Slot>) returns (r: Outcome, ghost at: nat)
      requires Valid() && cl == Clusters(root, vol.chains, owner) && InRange(vol.disk, cl) && slots == Slots(vol.disk, cl)
      requires Chained(vol.entries, cl) && Sided(root, cl) && cl != [] && start == cl[0]
      requires Listed(slots, m) && Proper(e) && NameOf(e) !in m
      modifies this`m, vol`disk, vol`data, vol`entries, vol`chains, vol.fat
      ensures (at == |slots| <==> AllUsed(old(vol.disk), cl)) && at <= |slots|
      ensures r == NewOutcome(root, at == |slots|, Full(old(vol.entries)), NoneOnDisk(old(vol.entries), |old(vol.disk)|))
      ensures if r == OutsideDisk then AddedOffDisk(old(vol.disk), old(vol.data)) else Valid()
      ensures m == if r == Done then old(m)[NameOf(e) := e] else old(m)
      ensures Confined(root, owner, old(vol.data), old(vol.chains), old(vol.disk), vol.data, vol.chains, vol.disk)
      ensures r == Done ==> EnteredAt(slots, cl, e, vol.disk, Clusters(root, vol.chains, owner), at)
      ensures r != Done && r != OutsideDisk ==> AsBefore(old(vol.disk), old(vol.chains), old(vol.entries), vol.disk, vol.chains, vol.entries)
    {
      var found, cur, j, k, at' := FirstVacant(cl, slots);
      at := at';
      if found {
        Fill(cur, j, e, cl, k, at, slots);
        return Done, at;
      }
      r := AddBehind(cur, e, cl, slots);
    }

    /** Enters an entry into a directory without a free slot. */
    method AddBehind(last: int, e: Slot, ghost cl: seq<int>, ghost slots: seq<Slot>) returns (r: Outcome)
      requires Valid() && cl == Clusters(root, vol.chains, owner) && InRange(vol.disk, cl) && slots == Slots(vol.disk, cl)
      requires FirstFreeIs(slots, |slots|) && cl != [] && last == cl[|cl| - 1] && (last >= 2 <==> !root) && Proper(e) && NameOf(e) !in m
      modifies this`m, vol`disk, vol`data, vol`entries, vol`chains, vol.fat
      ensures r == NewOutcome(root, true, Full(old(vol.entries)), NoneOnDisk(old(vol.entries), |old(vol.disk)|))
      ensures if r == OutsideDisk then AddedOffDisk(old(vol.disk), old(vol.data)) else Valid()
      ensures m == if r == Done then old(m)[NameOf(e) := e] else old(m)
      ensures Confined(root, owner, old(vol.data), old(vol.chains), old(vol.disk), vol.data, vol.chains, vol.disk)
      ensures r == Done ==> EnteredAt(slots, cl, e, vol.disk, Clusters(root, vol.chains, owner), |slots|)
      ensures r != Done && r != OutsideDisk ==> AsBefore(old(vol.disk), old(vol.chains), old(vol.entries), vol.disk, vol.chains, vol.entries)
    {
      Own(vol.entries, vol.disk, vol.chains, vol.data, root, owner);
      if last >= 2 {
        r := Grow(last, e, cl, slots);
        return;
      }
      return RootFull;
    }

    /** Puts a new entry into a free slot. */
    method Fill(cur: int, j: nat, e: Slot, ghost cl: seq<int>, ghost k: nat, ghost at: nat, ghost slots: seq<Slot>)
      requires Valid() && cl == Clusters(root, vol.chains, owner) && InRange(vol.disk, cl) && slots == Slots(vol.disk, cl)
      requires Listed(slots, m)
      requires k < |cl| && cur == cl[k] && j < PER_BLOCK && at == PER_BLOCK * k + j && at < |slots|
      requires FirstFreeIs(slots, at) && Proper(e) && NameOf(e) !in m
      modifies this`m, vol`disk, vol`data
      ensures Valid() && m == old(m)[NameOf(e) := e] && EnteredAt(slots, cl, e, vol.disk, cl, at)
      ensures Confined(root, owner, old(vol.data), old(vol.chains), old(vol.disk), vol.data, vol.chains, vol.disk)
    {
      ListedAdd(slots, m, at, e);
      if !root {
        StillAnchored(slots, at, e);
      }
      WriteSlot(cur, j, e, m[NameOf(e) := e], cl, k, at, slots);
    }

    /** The first free slot; without one, the last cluster. */
    method FirstVacant(ghost cl: seq<int>, ghost slots: seq<Slot>)
      returns (found: bool, cur: int, j: nat, ghost k: nat, ghost at: nat)
      requires vol.TableOk() && Chained(vol.entries, cl) && InRange(vol.disk, cl) && slots == Slots(vol.disk, cl) && cl != []
      requires start == cl[0]
      ensures k < |cl| && cur == cl[k] && found == !AllUsed(vol.disk, cl)
      ensures FirstFreeIs(slots, at)
      ensures if found then j < PER_BLOCK && at == PER_BLOCK * k + j && at < |slots| else k == |cl| - 1 && at == |slots|
    {
      found, cur, j, k := Scan(Vacant, start, 0, cl, 0, slots);
      at := if found then PER_BLOCK * k + j else |slots|;
      forall i | 0 <= i < at ensures Used(slots[i]) {
        assert !Matches(Vacant, slots[i]);
      }
      if !found {
        NoneVacant(vol.disk, cl, slots);
      }
    }

    /** Adds a block with one entry behind the last block. */
    method Grow(last: int, e: Slot, ghost cl: seq<int>, ghost slots: seq<Slot>) returns (r: Outcome)
      requires Valid() && !root && cl == Clusters(root, vol.chains, owner) && InRange(vol.disk, cl)
      requires slots == Slots(vol.disk, cl) && FirstFreeIs(slots, |slots|)
      requires cl != [] && last == cl[|cl| - 1] && Proper(e) && NameOf(e) !in m
      modifies this`m, vol`disk, vol`data, vol`entries, vol`chains, vol.fat
      ensures r == if Full(old(vol.entries)) then NoDiskSpace
                   else if NoneOnDisk(old(vol.entries), |old(vol.disk)|) then OutsideDisk else Done
      ensures if r == OutsideDisk then AddedOffDisk(old(vol.disk), old(vol.data)) else Valid()
      ensures m == if r == Done then old(m)[NameOf(e) := e] else old(m)
      ensures Confined(root, owner, old(vol.data), old(vol.chains), old(vol.disk), vol.data, vol.chains, vol.disk)
      ensures r == NoDiskSpace ==> AsBefore(old(vol.disk), old(vol.chains), old(vol.entries), vol.disk, vol.chains, vol.entries)
      ensures r == Done ==> EnteredAt(slots, cl, e, vol.disk, Clusters(root, vol.chains, owner), |slots|)
    {
      Own(vol.entries, vol.disk, vol.chains, vol.data, root, owner);
      assert last == vol.chains[owner][|cl| - 1];
      var next := vol.ExtendChain(last, owner);
      if next == 0 {
        return NoDiskSpace;
      }
      if next + BLOCK_SHIFT >= |vol.disk| {
        return OutsideDisk;
      }
      ghost var data1, chains1, disk1 := vol.data, vol.chains, vol.disk;
      FillNew(next, e, cl);
      ConfinedTwice(root, owner, old(vol.data), old(vol.chains), old(vol.disk), data1, chains1, disk1, vol.data, vol.chains, vol.disk);
      return Done;
    }

    /** Puts an entry into the block just linked behind the clusters `cl`. */
    method FillNew(next: nat, e: Slot, ghost cl: seq<int>)
      requires vol.Valid() && !root && owner < |vol.chains| && vol.chains[owner] == cl + [next] && cl != [] && start == cl[0]
      requires InRange(vol.disk, cl) && Anchored(Slots(vol.disk, cl)) && Listed(Slots(vol.disk, cl), m)
      requires Proper(e) && NameOf(e) !in m
      modifies this`m, vol`disk, vol`data
      ensures Valid() && m == old(m)[NameOf(e) := e]
      ensures Shows(vol.disk, Clusters(root, vol.chains, owner), old(Slots(vol.disk, cl)) + Fresh(e))
      ensures Confined(root, owner, old(vol.data), old(vol.chains), old(vol.disk), vol.data, vol.chains, vol.disk)
    {
      ghost var m' := m[NameOf(e) := e];
      Own(vol.entries, vol.disk, vol.chains, vol.data, root, owner);
      StoredAt(vol.disk, vol.chains, vol.data, owner);
      ChainAt(vol.entries, vol.chains, owner);
      assert vol.chains[owner][|cl|] == next;
      vol.PutBytes(next, 0, e + Zeros(), owner, |cl|);
      BlockAdded(vol.entries, vol.chains, old(vol.disk), vol.disk, owner, start, cl, next, e, m);
      m := m';
    }

    /** Writes slot `at`, which is in the k-th block; after that the directory lists `m'`. */
    method WriteSlot(cur: int, j: nat, e: Slot, ghost m': Listing, ghost cl: seq<int>, ghost k: nat, ghost at: nat,
                     ghost slots: seq<Slot>)
      requires Valid() && cl == Clusters(root, vol.chains, owner) && InRange(vol.disk, cl) && slots == Slots(vol.disk, cl)
      requires k < |cl| && cur == cl[k] && j < PER_BLOCK && at == PER_BLOCK * k + j && at < |slots|
      requires Listed(slots[at := e], m') && (!root ==> Anchored(slots[at := e]))
      modifies this`m, vol`disk, vol`data
      ensures Valid() && m == m' && InRange(vol.disk, cl) && Slots(vol.disk, cl) == slots[at := e]
      ensures Confined(root, owner, old(vol.data), old(vol.chains), old(vol.disk), vol.data, vol.chains, vol.disk)
    {
      ghost var disk := vol.disk;
      Put(cur, j, e, cl, k, slots);
      PlacedAgain(root, vol.entries, vol.chains, disk, vol.disk, owner, start, m, m', at, e);
      m := m';
    }

    /** The slot that has a name. */
    method Locate(name: seq<byte>, ghost cl: seq<int>, ghost slots: seq<Slot>)
      returns (found: bool, cur: int, j: nat, ghost k: nat, ghost at: nat)
      requires vol.TableOk() && Chained(vol.entries, cl) && InRange(vol.disk, cl) && slots == Slots(vol.disk, cl) && cl != []
      requires start == cl[0]
      requires Listed(slots, m) && |name| == NAME && name[0] != 0 && name[0] != DELETED
      ensures found == (name in m) && k < |cl| && cur == cl[k]
      ensures found ==> j < PER_BLOCK && at == PER_BLOCK * k + j && at < |slots| && Used(slots[at]) && NameOf(slots[at]) == name
    {
      found, cur, j, k := Scan(Named(name), start, 0, cl, 0, slots);
      at := PER_BLOCK * k + j;
      if found {
        ListedAt(slots, m, at);
        SameIff(slots[at], name);
      } else {
        NotNamed(slots, m, name);
      }
    }

    /** Replaces the entry of the same name. */
    method Update(e: Slot) returns (r: Outcome)
      requires Valid() && Proper(e)
      modifies this`m, vol`disk, vol`data
      ensures Valid() && r == (if NameOf(e) in old(m) then Done else NotFound)
      ensures m == if r == Done then old(m)[NameOf(e) := e] else old(m)
      ensures Confined(root, owner, old(vol.data), old(vol.chains), old(vol.disk), vol.data, vol.chains, vol.disk)
      ensures r == Done ==> Replaced(old(vol.disk), Clusters(root, vol.chains, owner), e, vol.disk)
      ensures r == NotFound ==> vol.disk == old(vol.disk)
    {
      ghost var cl, slots := Layout(root, vol.entries, vol.chains, vol.disk, owner, start, m);
      Own(vol.entries, vol.disk, vol.chains, vol.data, root, owner);
      var found, cur, j, k, at := Locate(NameOf(e), cl, slots);
      if !found {
        return NotFound;
      }
      ListedReplace(slots, m, at, e);
      if !root {
        StillAnchored(slots, at, e);
      }
      WriteSlot(cur, j, e, m[NameOf(e) := e], cl, k, at, slots);
      assert ReplacedAt(slots, cl, e, vol.disk, at);
      return Done;
    }

    /** Marks the entry of a name as deleted; a block of a directory other than the root that holds no entry any
        more is taken out of its chain. */
    method Delete(name: seq<byte>) returns (r: Outcome)
      requires Valid() && |name| == NAME && name[0] != 0 && name[0] != DELETED
      requires root || KeepsAnchorOn(vol.disk, Clusters(root, vol.chains, owner), name)
      modifies this`m, vol`disk, vol`data, vol`entries, vol`chains, vol.fat
      ensures Valid() && r == if name in old(m) then Done else NotFound
      ensures m == old(m) - {name}
      ensures Confined(root, owner, old(vol.data), old(vol.chains), old(vol.disk), vol.data, vol.chains, vol.disk)
      ensures r == Done ==> Erased(root, old(vol.disk), old(Clusters(root, vol.chains, owner)), name, vol.disk, vol.entries, Clusters(root, vol.chains, owner))
      ensures r == NotFound ==> AsBefore(old(vol.disk), old(vol.chains), old(vol.entries), vol.disk, vol.chains, vol.entries)
    {
      ghost var cl, slots := Layout(root, vol.entries, vol.chains, vol.disk, owner, start, m);
      Own(vol.entries, vol.disk, vol.chains, vol.data, root, owner);
      var found, cur, j, k, at := Locate(name, cl, slots);
      if !found {
        assert m - {name} == m;
        return NotFound;
      }
      Erase(cur, j, name, cl, k, at, slots);
      return Done;
    }

    /** Marks a used slot as deleted, and drops its block if that is empty then. */
    method Erase(cur: int, j: nat, ghost name: seq<byte>, ghost cl: seq<int>, ghost k: nat, ghost at: nat,
                 ghost slots: seq<Slot>)
      requires Valid() && cl == Clusters(root, vol.chains, owner) && InRange(vol.disk, cl) && slots == Slots(vol.disk, cl)
      requires Listed(slots, m)
      requires k < |cl| && cur == cl[k] && (cur >= 2 <==> !root)
      requires j < PER_BLOCK && at == PER_BLOCK * k + j && at < |slots| && Used(slots[at]) && name == NameOf(slots[at])
      requires root || KeepsAnchor(slots, name)
      modifies this`m, vol`disk, vol`data, vol`entries, vol`chains, vol.fat
      ensures Valid() && m == old(m) - {name}
      ensures Confined(root, owner, old(vol.data), old(vol.chains), old(vol.disk), vol.data, vol.chains, vol.disk)
      ensures ErasedAt(root, slots, cl, name, vol.disk, vol.entries, Clusters(root, vol.chains, owner), k, j)
    {
      ghost var slots' := Mark(cur, j, name, cl, k, at, slots);
      Tidy(cur, cl, k, slots', old(vol.data), old(vol.chains), old(vol.disk));
      ErasedIs(root, slots, cl, name, vol.disk, vol.entries, Clusters(root, vol.chains, owner), k, j, at, slots');
    }

    /** Drops a block that is empty, if the directory is not the root. */
    method Tidy(cur: int, ghost cl: seq<int>, ghost k: nat, ghost slots: seq<Slot>, ghost data: seq<seq<byte>>,
                ghost chains: seq<seq<nat>>, ghost disk: seq<Sector>)
      requires Valid() && cl == Clusters(root, vol.chains, owner) && InRange(vol.disk, cl) && slots == Slots(vol.disk, cl)
      requires k < |cl| && cur == cl[k] && (cur >= 2 <==> !root)
      requires Confined(root, owner, data, chains, disk, vol.data, vol.chains, vol.disk)
      modifies vol`data, vol`entries, vol`chains, vol.fat
      ensures Valid() && Confined(root, owner, data, chains, disk, vol.data, vol.chains, vol.disk)
      ensures if root then Clusters(root, vol.chains, owner) == cl else Dropped(slots, cl, k, vol.entries, Clusters(root, vol.chains, owner))
    {
      if cur >= 2 {
        DropIfEmpty(cur, cl, k, slots);
        ConfinedTwice(root, owner, data, chains, disk, old(vol.data), old(vol.chains), old(vol.disk), vol.data, vol.chains, vol.disk);
      }
    }

    /** Marks a used slot as deleted. */
    method Mark(cur: int, j: nat, ghost name: seq<byte>, ghost cl: seq<int>, ghost k: nat, ghost at: nat,
                ghost slots: seq<Slot>)
      returns (ghost slots': seq<Slot>)
      requires Valid() && cl == Clusters(root, vol.chains, owner) && InRange(vol.disk, cl) && slots == Slots(vol.disk, cl)
      requires Listed(slots, m)
      requires k < |cl| && cur == cl[k]
      requires j < PER_BLOCK && at == PER_BLOCK * k + j && at < |slots| && Used(slots[at]) && name == NameOf(slots[at])
      requires root || KeepsAnchor(slots, name)
      modifies this`m, vol`disk, vol`data
      ensures Valid() && m == old(m) - {name} && InRange(vol.disk, cl) && slots' == Slots(vol.disk, cl)
      ensures slots' == slots[at := slots[at][0 := DELETED]]
      ensures Confined(root, owner, old(vol.data), old(vol.chains), old(vol.disk), vol.data, vol.chains, vol.disk)
    {
      SlotAt(vol.disk, cl, k, j);
      var e := SlotIn(vol.disk[cur + BLOCK_SHIFT], j)[0 := DELETED];
      assert e == slots[at][0 := DELETED];
      ListedRemove(slots, m, at, e);
      if !root {
        AnchorKept(slots, at, e, name);
      }
      WriteSlot(cur, j, e, m - {name}, cl, k, at, slots);
      slots' := slots[at := e];
    }

    /** Takes the k-th block out of the chain if all its slots are free. */
    method DropIfEmpty(cur: int, ghost cl: seq<int>, ghost k: nat, ghost slots: seq<Slot>)
      requires Valid() && !root && cl == Clusters(root, vol.chains, owner) && InRange(vol.disk, cl)
      requires slots == Slots(vol.disk, cl)
      requires k < |cl| && cur == cl[k]
      modifies vol`data, vol`entries, vol`chains, vol.fat
      ensures Valid() && Confined(root, owner, old(vol.data), old(vol.chains), old(vol.disk), vol.data, vol.chains, vol.disk)
      ensures Dropped(slots, cl, k, vol.entries, Clusters(root, vol.chains, owner))
      ensures HasEntry(slots, k) ==> vol.entries == old(vol.entries)
    {
      Own(vol.entries, vol.disk, vol.chains, vol.data, root, owner);
      var j := ScanBlock(Taken, cur, 0, cl, k, slots);
      EntryIff(slots, k, j);
      if j == PER_BLOCK {
        FirstBlockTaken(slots, k);
        vol.DeleteClusterFromChain(start, cur, owner, k);
        StoredAt(vol.disk, vol.chains, vol.data, owner);
        BlockDropped(vol.entries, vol.chains, vol.disk, owner, start, cl, k, slots, m);
      }
    }
  }

  /** What comes of entering a new name: into a free slot, if there is one, or a new block, if the directory is not the
      root, the table is not full and a free cluster is on the disk. */
  function NewOutcome(root: bool, allUsed: bool, full: bool, noneOnDisk: bool): Outcome {
    if !allUsed then Done else if root then RootFull else if full then NoDiskSpace else if noneOnDisk then OutsideDisk else Done
  }

  ghost predicate AsBefore(disk: seq<Sector>, chains: seq<seq<nat>>, entries: seq<nat>, disk': seq<Sector>, chains': seq<seq<nat>>,
                           entries': seq<nat>) {
    var ok := disk' == disk && chains' == chains && entries' == entries;
    ok
  }

  /** The slots of the clusters are just these. */
  ghost predicate Shows(disk: seq<Sector>, cl: seq<int>, slots: seq<Slot>) {
    var ok := InRange(disk, cl) && Slots(disk, cl) == slots;
    ok
  }

  // ---- Blocks without entries ----

  /** Block `k` holds an entry. */
  ghost predicate HasEntry(slots: seq<Slot>, k: nat) {
    exists j :: 0 <= j < PER_BLOCK && TakenAt(slots, k, j)
  }

  ghost predicate TakenAt(slots: seq<Slot>, k: nat, j: int) {
    0 <= PER_BLOCK * k + j < |slots| && Used(slots[PER_BLOCK * k + j])
  }

  /** Every block behind the first holds an entry. */
  ghost predicate Tight(slots: seq<Slot>) {
    var ok := forall k: nat :: 0 < k && PER_BLOCK * k < |slots| ==> HasEntry(slots, k);
    ok
  }

  ghost predicate TightOn(disk: seq<Sector>, cl: seq<int>) {
    var ok := InRange(disk, cl) && Tight(Slots(disk, cl));
    ok
  }

  /** A directory has lost its k-th cluster, which is free then, exactly if that block holds no entry. */
  ghost predicate Dropped(slots: seq<Slot>, cl: seq<int>, k: nat, entries': seq<nat>, cl': seq<int>) {
    k < |cl| && if HasEntry(slots, k) then cl' == cl else cl' == cl[..k] + cl[k + 1..] && cl[k] >= 0 && IsFree(entries', cl[k])
  }

  /** An entry has been written into a free slot and no other slot has changed; or all slots were used, and a block that
      holds just this entry has been put behind the last one. */
  ghost predicate Entered(disk: seq<Sector>, cl: seq<int>, e: Slot, disk': seq<Sector>, cl': seq<int>) {
    InRange(disk, cl) && exists at: nat :: EnteredAt(Slots(disk, cl), cl, e, disk', cl', at)
  }

  ghost predicate EnteredAt(slots: seq<Slot>, cl: seq<int>, e: Slot, disk': seq<Sector>, cl': seq<int>, at: nat) {
    && FirstFreeIs(slots, at)
    && if at < |slots| then cl' == cl && Shows(disk', cl, slots[at := e])
       else cl < cl' && |cl'| == |cl| + 1 && Shows(disk', cl', slots + Fresh(e))
  }

  /** The first free slot, or the number of slots if none is free. */
  ghost predicate FirstFreeIs(slots: seq<Slot>, at: nat) {
    var ok := at <= |slots| && (forall i :: 0 <= i < at ==> Used(slots[i])) && (at < |slots| ==> !Used(slots[at]));
    ok
  }

  /** The entry of the same name has been overwritten, and no other slot has changed. */
  ghost predicate Replaced(disk: seq<Sector>, cl: seq<int>, e: Slot, disk': seq<Sector>) {
    InRange(disk, cl) && exists at: nat :: ReplacedAt(Slots(disk, cl), cl, e, disk', at)
  }

  ghost predicate ReplacedAt(slots: seq<Slot>, cl: seq<int>, e: Slot, disk': seq<Sector>, at: nat) {
    at < |slots| && Used(slots[at]) && NameOf(slots[at]) == NameOf(e) && Shows(disk', cl, slots[at := e])
  }

  /** The slot of a name has been marked as deleted, and no other has changed; the block it is in is gone if it held no
      other entry and the directory is not the root. */
  ghost predicate Erased(root: bool, disk: seq<Sector>, cl: seq<int>, name: seq<byte>, disk': seq<Sector>, entries': seq<nat>, cl': seq<int>) {
    InRange(disk, cl) && exists k: nat, j: nat :: ErasedAt(root, Slots(disk, cl), cl, name, disk', entries', cl', k, j)
  }

  ghost predicate ErasedAt(root: bool, slots: seq<Slot>, cl: seq<int>, name: seq<byte>, disk': seq<Sector>, entries': seq<nat>, cl': seq<int>,
                           k: nat, j: nat) {
    var ok :=
      var at := PER_BLOCK * k + j;
      && k < |cl| && j < PER_BLOCK && at < |slots| && Used(slots[at]) && NameOf(slots[at]) == name
      && var slots' := slots[at := slots[at][0 := DELETED]];
         Shows(disk', cl, slots') && if root then cl' == cl else Dropped(slots', cl, k, entries', cl');
    ok
  }

  lemma ErasedIs(root: bool, slots: seq<Slot>, cl: seq<int>, name: seq<byte>, disk': seq<Sector>, entries': seq<nat>, cl': seq<int>,
                 k: nat, j: nat, at: nat, slots': seq<Slot>)
    requires k < |cl| && j < PER_BLOCK && at == PER_BLOCK * k + j && at < |slots| && Used(slots[at]) && NameOf(slots[at]) == name
    requires slots' == slots[at := slots[at][0 := DELETED]] && InRange(disk', cl) && Slots(disk', cl) == slots'
    requires if root then cl' == cl else Dropped(slots', cl, k, entries', cl')
    ensures ErasedAt(root, slots, cl, name, disk', entries', cl', k, j)
  {
  }

  lemma EntryIff(slots: seq<Slot>, k: nat, j: nat)
    requires PER_BLOCK * k + j <= |slots| && j <= PER_BLOCK && NoMatch(Taken, slots, PER_BLOCK * k, PER_BLOCK * k + j)
    requires j < PER_BLOCK ==> PER_BLOCK * k + j < |slots| && Matches(Taken, slots[PER_BLOCK * k + j])
    ensures HasEntry(slots, k) <==> j < PER_BLOCK
  {
    if j < PER_BLOCK {
      assert TakenAt(slots, k, j);
    } else {
      forall i | 0 <= i < PER_BLOCK ensures !TakenAt(slots, k, i) {
        assert !Matches(Taken, slots[PER_BLOCK * k + i]);
      }
    }
  }

  lemma TightWritten(slots: seq<Slot>, at: nat, e: Slot)
    requires at < |slots| && Used(e)
    ensures Tight(slots) ==> Tight(slots[at := e])
  {
    if Tight(slots) {
      var slots' := slots[at := e];
      forall k: nat | 0 < k && PER_BLOCK * k < |slots'| ensures HasEntry(slots', k) {
        assert HasEntry(slots, k);
        var j :| 0 <= j < PER_BLOCK && TakenAt(slots, k, j);
        assert TakenAt(slots', k, j);
      }
    }
  }

  lemma TightFresh(slots: seq<Slot>, n: nat, e: Slot)
    requires |slots| == PER_BLOCK * n && Used(e)
    ensures Tight(slots) ==> Tight(slots + Fresh(e))
  {
    if Tight(slots) {
      var slots' := slots + Fresh(e);
      forall k: nat | 0 < k && PER_BLOCK * k < |slots'| ensures HasEntry(slots', k) {
        if k < n {
          assert HasEntry(slots, k);
          var j :| 0 <= j < PER_BLOCK && TakenAt(slots, k, j);
          assert TakenAt(slots', k, j);
        } else {
          assert slots'[PER_BLOCK * k] == Fresh(e)[0];
          assert TakenAt(slots', k, 0);
        }
      }
    }
  }

  /** In a directory other than the root every block behind the first keeps an entry, whatever is entered, replaced or
      deleted. */
  lemma OperationsKeepTight(disk: seq<Sector>, cl: seq<int>, e: Slot, name: seq<byte>, disk': seq<Sector>, entries': seq<nat>, cl': seq<int>)
    requires TightOn(disk, cl) && Used(e)
    requires Entered(disk, cl, e, disk', cl') || (cl' == cl && Replaced(disk, cl, e, disk')) || Erased(false, disk, cl, name, disk', entries', cl')
    ensures TightOn(disk', cl')
  {
    var slots := Slots(disk, cl);
    if Entered(disk, cl, e, disk', cl') {
      var at: nat :| EnteredAt(slots, cl, e, disk', cl', at);
      if at < |slots| {
        TightWritten(slots, at, e);
      } else {
        TightFresh(slots, |cl|, e);
      }
    } else if cl' == cl && Replaced(disk, cl, e, disk') {
      var at: nat :| ReplacedAt(slots, cl, e, disk', at);
      TightWritten(slots, at, e);
    } else {
      var k: nat, j: nat :| ErasedAt(false, slots, cl, name, disk', entries', cl', k, j);
      TightErased(cl, name, k, j, slots, disk', entries', cl');
    }
  }

  /** Marking the only entry of a block as deleted and dropping the block leaves an entry in every other block. */
  lemma TightErased(cl: seq<int>, name: seq<byte>, k: nat, j: nat, slots: seq<Slot>, disk': seq<Sector>, entries': seq<nat>,
                    cl': seq<int>)
    requires Tight(slots) && |slots| == PER_BLOCK * |cl| && ErasedAt(false, slots, cl, name, disk', entries', cl', k, j)
    ensures TightOn(disk', cl')
  {
    var at := PER_BLOCK * k + j;
    var slots' := slots[at := slots[at][0 := DELETED]];
    forall i: nat | 0 < i < |cl| && i != k ensures HasEntry(slots', i) {
      OtherBlock(slots, k, j, i);
    }
    if HasEntry(slots', k) {
      assert Tight(slots');
    } else {
      SlotsFewer(disk', cl, k);
      BlockGone(slots', |cl|, k, slots'[..PER_BLOCK * k] + slots'[PER_BLOCK * k + PER_BLOCK..]);
    }
  }

  lemma OtherBlock(slots: seq<Slot>, k: nat, j: nat, i: nat)
    requires Tight(slots) && j < PER_BLOCK && PER_BLOCK * k + j < |slots| && 0 < i && i != k && PER_BLOCK * i < |slots|
    ensures HasEntry(slots[PER_BLOCK * k + j := slots[PER_BLOCK * k + j][0 := DELETED]], i)
  {
    var slots' := slots[PER_BLOCK * k + j := slots[PER_BLOCK * k + j][0 := DELETED]];
    assert HasEntry(slots, i);
    var x :| 0 <= x < PER_BLOCK && TakenAt(slots, i, x);
    assert TakenAt(slots', i, x);
  }

  lemma BlockGone(slots: seq<Slot>, n: nat, k: nat, slots': seq<Slot>)
    requires |slots| == PER_BLOCK * n && k < n && slots' == slots[..PER_BLOCK * k] + slots[PER_BLOCK * k + PER_BLOCK..]
    requires forall i: nat :: 0 < i < n && i != k ==> HasEntry(slots, i)
    ensures Tight(slots')
  {
    forall i: nat | 0 < i && PER_BLOCK * i < |slots'| ensures HasEntry(slots', i) {
      var i' := if i < k then i else i + 1;
      assert HasEntry(slots, i');
      var x :| 0 <= x < PER_BLOCK && TakenAt(slots, i', x);
      assert TakenAt(slots', i, x);
    }
  }

  ghost predicate KeepsAnchorOn(disk: seq<Sector>, cl: seq<int>, name: seq<byte>) {
    InRange(disk, cl) && KeepsAnchor(Slots(disk, cl), name)
  }

  /** Writing an entry into a slot keeps an entry in the first block. */
  lemma StillAnchored(slots: seq<Slot>, at: nat, e: Slot)
    requires Anchored(slots) && at < |slots| && Used(e)
    ensures Anchored(slots[at := e])
  {
    var j :| 0 <= j < PER_BLOCK && Used(slots[j]);
    assert Used(slots[at := e][j]);
  }

  lemma AnchorKept(slots: seq<Slot>, at: nat, e: Slot, name: seq<byte>)
    requires KeepsAnchor(slots, name) && at < |slots| && NameOf(slots[at]) == name
    ensures Anchored(slots[at := e])
  {
    var j :| 0 <= j < PER_BLOCK && Used(slots[j]) && NameOf(slots[j]) != name;
    assert Used(slots[at := e][j]);
  }

  lemma NotNamed(slots: seq<Slot>, m: Listing, name: seq<byte>)
    requires Listed(slots, m) && |name| == NAME && name[0] != 0 && name[0] != DELETED
    requires NoMatch(Named(name), slots, 0, |slots|)
    ensures name !in m
  {
    ListedUnfold(slots, m);
    forall i | 0 <= i < |slots| && Used(slots[i]) ensures NameOf(slots[i]) != name {
      SameIff(slots[i], name);
    }
    ListedNot(slots, m, name);
  }

  lemma FirstBlockTaken(slots: seq<Slot>, k: nat)
    requires Anchored(slots) && NoMatch(Taken, slots, PER_BLOCK * k, PER_BLOCK * k + PER_BLOCK)
    ensures k > 0
  {
    var j :| 0 <= j < PER_BLOCK && Used(slots[j]);
    assert Matches(Taken, slots[j]);
  }

  lemma NoneTaken(slots: seq<Slot>, m: Listing, a: nat, b: nat)
    requires Listed(slots, m) && PER_BLOCK <= a <= b && NoMatch(Taken, slots, a, b) && Anchored(slots)
    ensures Listed(slots[..a] + slots[b..], m) && Anchored(slots[..a] + slots[b..])
  {
    forall i | a <= i < b ensures !Used(slots[i]) {
      assert !Matches(Taken, slots[i]);
    }
    ListedFewer(slots, m, a, b);
    var j :| 0 <= j < PER_BLOCK && Used(slots[j]);
    assert Used((slots[..a] + slots[b..])[j]);
  }

  lemma BlockDropped(entries: seq<nat>, chains: seq<seq<nat>>, disk: seq<Sector>, owner: Owner, start: int, cl: seq<int>,
                     k: nat, slots: seq<Slot>, m: Listing)
    requires ChainsOk(entries, chains) && owner < |chains| && OnDisk(disk, chains[owner])
    requires 0 < k < |cl| && chains[owner] == cl[..k] + cl[k + 1..] && start == cl[0]
    requires InRange(disk, cl) && slots == Slots(disk, cl) && Anchored(slots) && Listed(slots, m)
    requires NoMatch(Taken, slots, PER_BLOCK * k, PER_BLOCK * k + PER_BLOCK)
    ensures Placed(false, entries, chains, disk, owner, start, m)
  {
    ChainInRange(entries, chains, owner, disk);
    SlotsFewer(disk, cl, k);
    NoneTaken(slots, m, PER_BLOCK * k, PER_BLOCK * k + PER_BLOCK);
    Settle(entries, chains, disk, owner, start, slots[..PER_BLOCK * k] + slots[PER_BLOCK * k + PER_BLOCK..], m);
  }

  lemma Settle(entries: seq<nat>, chains: seq<seq<nat>>, disk: seq<Sector>, owner: Owner, start: int, slots: seq<Slot>,
               m: Listing)
    requires owner < |chains| && |entries| <= 0xff0 && IsChain(entries, chains[owner]) && chains[owner] != []
    requires start == chains[owner][0]
    requires InRange(disk, chains[owner]) && AllDifferent(chains[owner]) && slots == Slots(disk, chains[owner])
    requires Anchored(slots) && Listed(slots, m)
    ensures Placed(false, entries, chains, disk, owner, start, m)
  {
  }

  function Zeros(): seq<byte> {
    seq(BLOCK - SLOT, _ => 0)
  }

  ghost predicate AllUsed(disk: seq<Sector>, cl: seq<int>) {
    var ok := InRange(disk, cl) && forall i :: 0 <= i < PER_BLOCK * |cl| ==> Used(Slots(disk, cl)[i]);
    ok
  }

  lemma NoneVacant(disk: seq<Sector>, cl: seq<int>, slots: seq<Slot>)
    requires InRange(disk, cl) && slots == Slots(disk, cl) && NoMatch(Vacant, slots, 0, |slots|)
    ensures AllUsed(disk, cl)
  {
  }

  /** Nothing but the directory changed: of the chains and of what is stored along them only its own, and the root
      directory's blocks only if it is the root. */
  ghost predicate Confined(root: bool, owner: Owner, data: seq<seq<byte>>, chains: seq<seq<nat>>, disk: seq<Sector>,
                           data': seq<seq<byte>>, chains': seq<seq<nat>>, disk': seq<Sector>) {
    var ok := if root then data' == data && chains' == chains
              else OnlyOwner(data, data', owner) && OnlyChain(chains, chains', owner) && SameRoot(disk, disk');
    ok
  }

  lemma ConfinedTwice(root: bool, owner: Owner, data: seq<seq<byte>>, chains: seq<seq<nat>>, disk: seq<Sector>,
                      data1: seq<seq<byte>>, chains1: seq<seq<nat>>, disk1: seq<Sector>,
                      data2: seq<seq<byte>>, chains2: seq<seq<nat>>, disk2: seq<Sector>)
    requires Confined(root, owner, data, chains, disk, data1, chains1, disk1)
    requires Confined(root, owner, data1, chains1, disk1, data2, chains2, disk2)
    ensures Confined(root, owner, data, chains, disk, data2, chains2, disk2)
  {
  }

  /** The blocks before the first cluster, the root directory's among them, are as they were. */
  ghost predicate SameRoot(disk: seq<Sector>, disk': seq<Sector>) {
    var ok := |disk'| == |disk| && forall b :: 0 <= b < |disk| && b < 2 + BLOCK_SHIFT ==> disk'[b] == disk[b];
    ok
  }

  ghost predicate OnlyChain(chains: seq<seq<nat>>, chains': seq<seq<nat>>, f: Owner) {
    var ok := f < |chains| && f < |chains'| && chains' == chains[f := chains'[f]];
    ok
  }

  lemma Own(entries: seq<nat>, disk: seq<Sector>, chains: seq<seq<nat>>, data: seq<seq<byte>>, root: bool, f: Owner)
    requires Stored(disk, chains, data) && (!root ==> f < |chains|)
    ensures Confined(root, f, data, chains, disk, data, chains, disk)
  {
    StoredUnfold(disk, chains, data);
  }

  /** A directory keeps its place when one slot is written. */
  lemma PlacedAgain(root: bool, entries: seq<nat>, chains: seq<seq<nat>>, disk: seq<Sector>, disk': seq<Sector>,
                    owner: Owner, start: int, m: Listing, m': Listing, i: nat, e: Slot)
    requires Placed(root, entries, chains, disk, owner, start, m)
    requires var cl := Clusters(root, chains, owner);
             && InRange(disk, cl) && InRange(disk', cl) && i < PER_BLOCK * |cl| && Slots(disk', cl) == Slots(disk, cl)[i := e]
             && Listed(Slots(disk, cl)[i := e], m') && (!root ==> Anchored(Slots(disk, cl)[i := e]))
    ensures Placed(root, entries, chains, disk', owner, start, m')
  {
  }

  function Blank(): Slot {
    seq(SLOT, _ => 0)
  }

  /** The slots of a block that holds one entry. */
  ghost function Fresh(e: Slot): seq<Slot> {
    [e] + seq(PER_BLOCK - 1, _ => Blank())
  }

  lemma FreshBlock(blk: Sector, e: Slot)
    ensures BlockSlots(Patch(blk, 0, e + Zeros())) == Fresh(e)
  {
    var s, t := BlockSlots(Patch(blk, 0, e + Zeros())), Fresh(e);
    forall j | 0 <= j < PER_BLOCK ensures s[j] == t[j] {
    }
  }

  lemma ListedFresh(slots: seq<Slot>, m: Listing, e: Slot)
    requires Listed(slots, m) && Proper(e) && NameOf(e) !in m
    ensures Listed(slots + Fresh(e), m[NameOf(e) := e])
  {
    var blanks := seq(PER_BLOCK, _ => Blank());
    ListedMore(slots, m, blanks);
    ListedAdd(slots + blanks, m, |slots|, e);
    assert (slots + blanks)[|slots| := e] == slots + Fresh(e);
  }

  lemma SlotsFrame(disk: seq<Sector>, disk': seq<Sector>, cl: seq<int>)
    requires InRange(disk, cl) && |disk'| == |disk|
    requires forall k :: 0 <= k < |cl| ==> disk'[cl[k] + BLOCK_SHIFT] == disk[cl[k] + BLOCK_SHIFT]
    ensures Slots(disk', cl) == Slots(disk, cl)
  {
    var s, s' := Slots(disk, cl), Slots(disk', cl);
    forall i | 0 <= i < |s| ensures s'[i] == s[i] {
      SlotAt(disk, cl, i / PER_BLOCK, i % PER_BLOCK);
      SlotAt(disk', cl, i / PER_BLOCK, i % PER_BLOCK);
    }
  }

  lemma SlotsFresh(disk: seq<Sector>, disk': seq<Sector>, cl: seq<int>, next: nat, e: Slot)
    requires InRange(disk, cl + [next]) && AllDifferent(cl + [next])
    requires next + BLOCK_SHIFT < |disk| && disk' == Store(disk, next, Patch(disk[next + BLOCK_SHIFT], 0, e + Zeros()))
    ensures InRange(disk, cl) && InRange(disk', cl + [next]) && Slots(disk', cl + [next]) == Slots(disk, cl) + Fresh(e)
  {
    var cl' := cl + [next];
    assert cl'[|cl|] == next;
    forall k | 0 <= k < |cl| ensures 0 <= cl[k] + BLOCK_SHIFT < |disk| && disk'[cl[k] + BLOCK_SHIFT] == disk[cl[k] + BLOCK_SHIFT] {
      assert cl'[k] == cl[k];
    }
    SlotsMore(disk', cl, next);
    FreshBlock(disk[next + BLOCK_SHIFT], e);
    SlotsFrame(disk, disk', cl);
  }

  lemma AnchoredMore(slots: seq<Slot>, more: seq<Slot>)
    requires Anchored(slots)
    ensures Anchored(slots + more)
  {
    var j :| 0 <= j < PER_BLOCK && Used(slots[j]);
    assert Used((slots + more)[j]);
  }

  lemma ChainInRange(entries: seq<nat>, chains: seq<seq<nat>>, owner: Owner, disk: seq<Sector>)
    requires ChainsOk(entries, chains) && owner < |chains| && OnDisk(disk, chains[owner])
    ensures |entries| <= 0xff0 && IsChain(entries, chains[owner]) && InRange(disk, chains[owner])
    ensures AllDifferent(chains[owner])
  {
    ChainAt(entries, chains, owner);
  }

  lemma BlockAdded(entries: seq<nat>, chains: seq<seq<nat>>, disk: seq<Sector>, disk': seq<Sector>, owner: Owner, start: int,
                   cl: seq<int>, next: nat, e: Slot, m: Listing)
    requires ChainsOk(entries, chains) && owner < |chains| && chains[owner] == cl + [next]
    requires OnDisk(disk, chains[owner])
    requires InRange(disk, cl) && cl != [] && start == cl[0] && Anchored(Slots(disk, cl)) && Listed(Slots(disk, cl), m)
    requires next + BLOCK_SHIFT < |disk| && disk' == Store(disk, next, Patch(disk[next + BLOCK_SHIFT], 0, e + Zeros()))
    requires Proper(e) && NameOf(e) !in m
    ensures Placed(false, entries, chains, disk', owner, start, m[NameOf(e) := e])
    ensures Shows(disk', chains[owner], Slots(disk, cl) + Fresh(e))
  {
    ChainInRange(entries, chains, owner, disk);
    ListedFresh(Slots(disk, cl), m, e);
    SlotsFresh(disk, disk', cl, next, e);
    AnchoredMore(Slots(disk, cl), Fresh(e));
    Settle(entries, chains, disk', owner, start, Slots(disk, cl) + Fresh(e), m[NameOf(e) := e]);
  }

  /** The root directory's blocks belong to no chain. */
  lemma RootApart(e: seq<nat>, disk: seq<Sector>, chains: seq<seq<nat>>, data: seq<seq<byte>>, cur: int, blk: Sector)
    requires ChainsOk(e, chains) && Stored(disk, chains, data) && cur < 2 && 0 <= cur + BLOCK_SHIFT < |disk|
    ensures Stored(disk[cur + BLOCK_SHIFT := blk], chains, data)
  {
    StoredUnfold(disk, chains, data);
    ChainsUnfold(e, chains);
    var disk' := disk[cur + BLOCK_SHIFT := blk];
    forall f | 0 <= f < |chains| ensures OnDisk(disk', chains[f]) && data[f] == Flat(disk', chains[f]) {
      assert IsChain(e, chains[f]) && OnDisk(disk, chains[f]);
      FlatFrame(disk, disk', chains[f]);
    }
    StoredFold(disk', chains, data);
  }

  ghost predicate NoMatch(w: Wanted, slots: seq<Slot>, from: nat, to: nat)
    requires w.Named? ==> |w.name| == NAME
  {
    to <= |slots| && forall i :: from <= i < to ==> !Matches(w, slots[i])
  }

  lemma NoMatchOn(w: Wanted, slots: seq<Slot>, a: nat, b: nat, c: nat)
    requires w.Named? ==> |w.name| == NAME
    requires NoMatch(w, slots, a, b) && NoMatch(w, slots, b, c)
    ensures NoMatch(w, slots, a, c)
  {
  }

  /** None of the first `n` slots has the name. */
  ghost predicate NotAmong(slots: seq<Slot>, n: nat, name: seq<byte>) {
    n <= |slots| && forall i :: 0 <= i < n && Used(slots[i]) ==> NameOf(slots[i]) != name
  }

  lemma NotAmongNext(slots: seq<Slot>, at: nat, name: seq<byte>)
    requires NotAmong(slots, at, name) && at < |slots| && NameOf(slots[at]) != name
    ensures NotAmong(slots, at + 1, name)
  {
  }

  lemma NoneBetween(slots: seq<Slot>, m: Listing, from: nat, to: nat, name: seq<byte>)
    requires Listed(slots, m) && NotAmong(slots, from, name) && NoMatch(Occupied, slots, from, to)
    ensures NotAmong(slots, to, name)
  {
    ListedUnfold(slots, m);
  }
}
