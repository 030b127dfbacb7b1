/** Directory entries: 32-byte slots in blocks, and the finite map from names they stand for. */
module DirectorySlots {
  import opened Basics
  import opened FatTable
  import opened FatVolume

  const SLOT: nat := 32
  /** Slots per block. */
  const PER_BLOCK: nat := 16
  const NAME: nat := 11
  const DELETED: byte := 0xE5
  const LONG_NAME: byte := 0x0f

  type Slot = s: seq<byte> | |s| == 32 witness seq(32, _ => 0)

  function NameOf(e: Slot): seq<byte> {
    e[..NAME]
  }

  predicate Used(e: Slot) {
    e[0] != 0 && e[0] != DELETED
  }

  /** Used, and not part of a long name. */
  predicate Live(e: Slot) {
    Used(e) && e[11] != LONG_NAME
  }

  /** An entry with a plain name: no byte of it ends a string, its first byte has no special meaning, and it is
      not part of a long name. */
  predicate Proper(e: Slot) {
    Used(e) && e[0] != 5 && e[11] != LONG_NAME && forall i :: 0 <= i < NAME ==> e[i] != 0
  }

  /** Two strings agree up to the end of the shorter one, or on the length of a name. */
  predicate Same(a: seq<byte>, b: seq<byte>, i: nat)
    requires |a| >= NAME && |b| >= NAME && i <= NAME
    decreases NAME - i
  {
    i == NAME || (a[i] == b[i] && (a[i] == 0 || Same(a, b, i + 1)))
  }

  lemma {:induction false} SameFrom(a: seq<byte>, b: seq<byte>, i: nat)
    requires |a| >= NAME && |b| >= NAME && i <= NAME && forall j :: 0 <= j < NAME ==> a[j] != 0
    ensures Same(a, b, i) <==> a[i..NAME] == b[i..NAME]
    decreases NAME - i
  {
    if i < NAME {
      SameFrom(a, b, i + 1);
      assert a[i..NAME] == [a[i]] + a[i + 1..NAME] && b[i..NAME] == [b[i]] + b[i + 1..NAME];
    }
  }

  /** Comparing the raw slot with a name that starts with neither mark of a free slot finds just the used slot
      of that name. */
  lemma SameIff(e: Slot, name: seq<byte>)
    requires |name| == NAME && name[0] != 0 && name[0] != DELETED && (Used(e) ==> Proper(e))
    ensures Same(e, name, 0) <==> Used(e) && NameOf(e) == name
  {
    if Used(e) {
      SameFrom(e, name, 0);
      assert name[0..NAME] == name;
    }
  }

  lemma SameName(e: Slot, name: seq<byte>)
    requires |name| == NAME && Proper(e)
    ensures Same(e, name, 0) <==> NameOf(e) == name
  {
    SameFrom(e, name, 0);
    assert name[0..NAME] == name;
  }

  // ---- Slots and the map ----

  type Listing = map<seq<byte>, Slot>

  ghost predicate HasName(slots: seq<Slot>, n: nat, name: seq<byte>)
    requires n <= |slots|
  {
    exists i :: 0 <= i < n && Used(slots[i]) && NameOf(slots[i]) == name
  }

  /** The used slots are the entries of the map, each name once. */
  ghost predicate Listed(slots: seq<Slot>, m: Listing) {
    ListedFirst(slots, |slots|, m)
  }

  /** The used ones of the first `n` slots are the entries of the map. */
  ghost predicate ListedFirst(slots: seq<Slot>, n: nat, m: Listing)
    requires n <= |slots|
  {
    if n == 0 then m == map[] else
    var e := slots[n - 1];
    if Used(e) then Proper(e) && NameOf(e) in m && m[NameOf(e)] == e && ListedFirst(slots, n - 1, m - {NameOf(e)})
    else ListedFirst(slots, n - 1, m)
  }

  /** The same, said of all slots at once. */
  ghost predicate AllListed(slots: seq<Slot>, n: nat, m: Listing)
    requires n <= |slots|
  {
    && (forall i :: 0 <= i < n && Used(slots[i]) ==> Proper(slots[i]) && NameOf(slots[i]) in m && m[NameOf(slots[i])] == slots[i])
    && (forall x :: x in m ==> HasName(slots, n, x))
    && (forall i, j :: 0 <= i < j < n && Used(slots[i]) && Used(slots[j]) ==> NameOf(slots[i]) != NameOf(slots[j]))
  }

  lemma {:induction false} FirstUnfold(slots: seq<Slot>, n: nat, m: Listing)
    requires n <= |slots| && ListedFirst(slots, n, m)
    ensures AllListed(slots, n, m)
    decreases n
  {
    if n > 0 {
      var e := slots[n - 1];
      FirstUnfold(slots, n - 1, if Used(e) then m - {NameOf(e)} else m);
      forall x | x in m ensures HasName(slots, n, x) {
        if !(Used(e) && x == NameOf(e)) {
          assert HasName(slots, n - 1, x);
        }
      }
    }
  }

  lemma {:induction false} FirstFold(slots: seq<Slot>, n: nat, m: Listing)
    requires n <= |slots| && AllListed(slots, n, m)
    ensures ListedFirst(slots, n, m)
    decreases n
  {
    if n == 0 {
      assert forall x :: x !in m;
      assert m == map[];
    } else {
      var e := slots[n - 1];
      var m' := if Used(e) then m - {NameOf(e)} else m;
      forall x | x in m' ensures HasName(slots, n - 1, x) {
        assert HasName(slots, n, x);
      }
      FirstFold(slots, n - 1, m');
    }
  }

  lemma ListedUnfold(slots: seq<Slot>, m: Listing)
    requires Listed(slots, m)
    ensures AllListed(slots, |slots|, m)
  {
    FirstUnfold(slots, |slots|, m);
  }

  lemma ListedFold(slots: seq<Slot>, m: Listing)
    requires AllListed(slots, |slots|, m)
    ensures Listed(slots, m)
  {
    FirstFold(slots, |slots|, m);
  }

  lemma ListedAt(slots: seq<Slot>, m: Listing, i: nat)
    requires Listed(slots, m) && i < |slots|
    ensures Used(slots[i]) ==> Proper(slots[i]) && NameOf(slots[i]) in m && m[NameOf(slots[i])] == slots[i]
  {
    ListedUnfold(slots, m);
  }

  lemma ListedNot(slots: seq<Slot>, m: Listing, n: seq<byte>)
    requires Listed(slots, m) && forall i :: 0 <= i < |slots| && Used(slots[i]) ==> NameOf(slots[i]) != n
    ensures n !in m
  {
    ListedUnfold(slots, m);
    assert n in m ==> HasName(slots, |slots|, n);
  }

  /** A free slot filled adds an entry. */
  lemma ListedAdd(slots: seq<Slot>, m: Listing, i: nat, e: Slot)
    requires Listed(slots, m) && i < |slots| && !Used(slots[i]) && Proper(e) && NameOf(e) !in m
    ensures Listed(slots[i := e], m[NameOf(e) := e])
  {
    ListedUnfold(slots, m);
    var slots', m' := slots[i := e], m[NameOf(e) := e];
    forall n | n in m' ensures HasName(slots', |slots'|, n) {
      if n == NameOf(e) {
        assert Used(slots'[i]);
      } else {
        assert HasName(slots, |slots|, n);
        var j :| 0 <= j < |slots| && Used(slots[j]) && NameOf(slots[j]) == n;
        assert slots'[j] == slots[j];
      }
    }
    ListedFold(slots', m');
  }

  /** A used slot given up removes its entry, and only that. */
  lemma ListedRemove(slots: seq<Slot>, m: Listing, i: nat, e: Slot)
    requires Listed(slots, m) && i < |slots| && Used(slots[i]) && !Used(e)
    ensures Listed(slots[i := e], m - {NameOf(slots[i])})
  {
    ListedUnfold(slots, m);
    var slots', m' := slots[i := e], m - {NameOf(slots[i])};
    forall n | n in m' ensures HasName(slots', |slots'|, n) {
      assert HasName(slots, |slots|, n);
      var j :| 0 <= j < |slots| && Used(slots[j]) && NameOf(slots[j]) == n;
      assert slots'[j] == slots[j];
    }
    ListedFold(slots', m');
  }

  lemma ListedReplace(slots: seq<Slot>, m: Listing, i: nat, e: Slot)
    requires Listed(slots, m) && i < |slots| && Used(slots[i]) && Proper(e) && NameOf(e) == NameOf(slots[i])
    ensures Listed(slots[i := e], m[NameOf(e) := e])
  {
    ListedUnfold(slots, m);
    var slots', m' := slots[i := e], m[NameOf(e) := e];
    forall n | n in m' ensures HasName(slots', |slots'|, n) {
      if n == NameOf(e) {
        assert Used(slots'[i]);
      } else {
        assert HasName(slots, |slots|, n);
        var j :| 0 <= j < |slots| && Used(slots[j]) && NameOf(slots[j]) == n;
        assert slots'[j] == slots[j];
      }
    }
    ListedFold(slots', m');
  }

  /** Free slots may be added at the end. */
  lemma ListedMore(slots: seq<Slot>, m: Listing, more: seq<Slot>)
    requires Listed(slots, m) && forall i :: 0 <= i < |more| ==> !Used(more[i])
    ensures Listed(slots + more, m)
  {
    ListedUnfold(slots, m);
    var slots' := slots + more;
    forall n | n in m ensures HasName(slots', |slots'|, n) {
      assert HasName(slots, |slots|, n);
      var j :| 0 <= j < |slots| && Used(slots[j]) && NameOf(slots[j]) == n;
      assert slots'[j] == slots[j];
    }
    ListedFold(slots', m);
  }

  lemma NamesKept(slots: seq<Slot>, slots': seq<Slot>, a: nat, b: nat, n: seq<byte>)
    requires a <= b <= |slots| && slots' == slots[..a] + slots[b..] && (forall i :: a <= i < b ==> !Used(slots[i]))
    requires HasName(slots, |slots|, n)
    ensures HasName(slots', |slots'|, n)
  {
    var j :| 0 <= j < |slots| && Used(slots[j]) && NameOf(slots[j]) == n;
    assert slots'[if j < a then j else j - (b - a)] == slots[j];
  }

  lemma AllListedFewer(slots: seq<Slot>, m: Listing, a: nat, b: nat, slots': seq<Slot>)
    requires AllListed(slots, |slots|, m) && a <= b <= |slots| && slots' == slots[..a] + slots[b..]
    requires forall i :: a <= i < b ==> !Used(slots[i])
    ensures AllListed(slots', |slots'|, m)
  {
    assert forall i :: 0 <= i < |slots'| ==> slots'[i] == slots[if i < a then i else i + (b - a)];
    forall n | n in m ensures HasName(slots', |slots'|, n) {
      NamesKept(slots, slots', a, b, n);
    }
  }

  /** Free slots may be dropped. */
  lemma ListedFewer(slots: seq<Slot>, m: Listing, a: nat, b: nat)
    requires Listed(slots, m) && a <= b <= |slots| && forall i :: a <= i < b ==> !Used(slots[i])
    ensures Listed(slots[..a] + slots[b..], m)
  {
    ListedUnfold(slots, m);
    AllListedFewer(slots, m, a, b, slots[..a] + slots[b..]);
    ListedFold(slots[..a] + slots[b..], m);
  }

  // ---- Slots in blocks ----

  predicate InRange(disk: seq<Sector>, cl: seq<int>) {
    forall k :: 0 <= k < |cl| ==> 0 <= cl[k] + BLOCK_SHIFT < |disk|
  }

  predicate AllDifferent(cl: seq<int>) {
    forall i, j :: 0 <= i < j < |cl| ==> cl[i] != cl[j]
  }

  function SlotIn(blk: Sector, j: nat): Slot
    requires j < PER_BLOCK
  {
    blk[SLOT * j..SLOT * j + SLOT]
  }

  ghost function BlockSlots(blk: Sector): (s: seq<Slot>)
    ensures |s| == PER_BLOCK
  {
    seq(PER_BLOCK, j requires 0 <= j < PER_BLOCK => SlotIn(blk, j))
  }

  /** The slots of the blocks of a directory, one after the other. */
  ghost function Slots(disk: seq<Sector>, cl: seq<int>): (s: seq<Slot>)
    requires InRange(disk, cl)
    ensures |s| == PER_BLOCK * |cl|
  {
    if cl == [] then [] else Slots(disk, cl[..|cl| - 1]) + BlockSlots(disk[cl[|cl| - 1] + BLOCK_SHIFT])
  }

  lemma {:induction false} SlotAt(disk: seq<Sector>, cl: seq<int>, k: nat, j: nat)
    requires InRange(disk, cl) && k < |cl| && j < PER_BLOCK
    ensures PER_BLOCK * k + j < PER_BLOCK * |cl|
    ensures Slots(disk, cl)[PER_BLOCK * k + j] == SlotIn(disk[cl[k] + BLOCK_SHIFT], j)
    decreases |cl|
  {
    var n := |cl| - 1;
    if k < n {
      SlotAt(disk, cl[..n], k, j);
    }
  }

  lemma PatchedSlot(blk: Sector, j: nat, e: Slot, i: nat)
    requires j < PER_BLOCK && i < PER_BLOCK
    ensures SlotIn(Patch(blk, SLOT * j, e), i) == if i == j then e else SlotIn(blk, i)
  {
  }

  lemma SlotAfterWrite(disk: seq<Sector>, cl: seq<int>, k: nat, j: nat, e: Slot, disk': seq<Sector>, k': nat, j': nat)
    requires InRange(disk, cl) && AllDifferent(cl) && k < |cl| && j < PER_BLOCK && k' < |cl| && j' < PER_BLOCK
    requires disk' == disk[cl[k] + BLOCK_SHIFT := Patch(disk[cl[k] + BLOCK_SHIFT], SLOT * j, e)]
    ensures SlotIn(disk'[cl[k'] + BLOCK_SHIFT], j') == if k' == k && j' == j then e else SlotIn(disk[cl[k'] + BLOCK_SHIFT], j')
  {
    PatchedSlot(disk[cl[k] + BLOCK_SHIFT], j, e, j');
    assert k' != k ==> cl[k'] != cl[k];
  }

  /** Writing one slot of one block changes just that slot of the directory. */
  lemma SlotWritten(disk: seq<Sector>, cl: seq<int>, k: nat, j: nat, e: Slot, disk': seq<Sector>)
    requires InRange(disk, cl) && AllDifferent(cl) && k < |cl| && j < PER_BLOCK
    requires disk' == disk[cl[k] + BLOCK_SHIFT := Patch(disk[cl[k] + BLOCK_SHIFT], SLOT * j, e)]
    ensures InRange(disk', cl) && PER_BLOCK * k + j < PER_BLOCK * |cl|
    ensures Slots(disk', cl) == Slots(disk, cl)[PER_BLOCK * k + j := e]
  {
    var s, s' := Slots(disk, cl), Slots(disk', cl);
    assert PER_BLOCK * k + j < PER_BLOCK * |cl|;
    var t := s[PER_BLOCK * k + j := e];
    forall i | 0 <= i < |s| ensures s'[i] == t[i] {
      var k', j' := i / PER_BLOCK, i % PER_BLOCK;
      SlotAt(disk, cl, k', j');
      SlotAt(disk', cl, k', j');
      SlotAfterWrite(disk, cl, k, j, e, disk', k', j');
    }
  }

  lemma InRangeMore(disk: seq<Sector>, cl: seq<int>, c: int)
    requires InRange(disk, cl + [c])
    ensures InRange(disk, cl) && 0 <= c + BLOCK_SHIFT < |disk|
  {
    var cl' := cl + [c];
    assert cl'[|cl|] == c && forall k :: 0 <= k < |cl| ==> cl'[k] == cl[k];
  }

  lemma SlotsMore(disk: seq<Sector>, cl: seq<int>, c: int)
    requires InRange(disk, cl + [c])
    ensures InRange(disk, cl) && 0 <= c + BLOCK_SHIFT < |disk|
    ensures Slots(disk, cl + [c]) == Slots(disk, cl) + BlockSlots(disk[c + BLOCK_SHIFT])
  {
    InRangeMore(disk, cl, c);
    var cl' := cl + [c];
    var n := |cl'| - 1;
    assert cl'[..n] == cl && cl'[n] == c;
    assert Slots(disk, cl') == Slots(disk, cl'[..n]) + BlockSlots(disk[cl'[n] + BLOCK_SHIFT]);
  }

  lemma {:induction false} SlotsFewer(disk: seq<Sector>, cl: seq<int>, k: nat)
    requires InRange(disk, cl) && k < |cl|
    ensures InRange(disk, cl[..k] + cl[k + 1..])
    ensures Slots(disk, cl[..k] + cl[k + 1..]) == Slots(disk, cl)[..PER_BLOCK * k] + Slots(disk, cl)[PER_BLOCK * k + PER_BLOCK..]
    decreases |cl|
  {
    var n := |cl| - 1;
    var cl' := cl[..k] + cl[k + 1..];
    forall i | 0 <= i < |cl'| ensures 0 <= cl'[i] + BLOCK_SHIFT < |disk| {
      assert cl'[i] == if i < k then cl[i] else cl[i + 1];
    }
    if k == n {
      assert cl' == cl[..n];
    } else {
      SlotsFewer(disk, cl[..n], k);
      assert cl'[..n - 1] == cl[..n][..k] + cl[..n][k + 1..];
      assert cl'[n - 1] == cl[n];
    }
  }
}
