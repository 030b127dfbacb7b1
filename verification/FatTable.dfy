/** The file allocation table of a FAT12 volume: twelve-bit entries packed into bytes, and the cluster
    chains they link. */
module FatTable {
  import opened Basics

  /** Values that end a chain, and the value an allocated last cluster gets. */
  const END_MIN: nat := 0xff8
  const END_MARK: nat := 0xfff

  /** Position of the first of the two bytes that hold the entry of a cluster. */
  function Index(cl: nat): nat {
    cl * 3 / 2
  }

  /** The entry of an even cluster: the low byte and the low half of the high byte. */
  function EvenEntry(lo: byte, hi: byte): nat {
    lo + hi % 16 * 256
  }

  /** The entry of an odd cluster: the high half of the low byte and the high byte. */
  function OddEntry(lo: byte, hi: byte): nat {
    lo / 16 + hi * 16
  }

  function GetClval(fat: seq<byte>, cl: nat): (v: nat)
    requires Index(cl) + 1 < |fat|
    ensures v < 4096
  {
    var lo, hi := fat[Index(cl)], fat[Index(cl) + 1];
    if cl % 2 == 0 then EvenEntry(lo, hi) else OddEntry(lo, hi)
  }

  function SetClval(fat: seq<byte>, cl: nat, v: nat): (fat': seq<byte>)
    requires Index(cl) + 1 < |fat|
    ensures |fat'| == |fat|
  {
    var lo, hi := fat[Index(cl)], fat[Index(cl) + 1];
    if cl % 2 == 0 then
      fat[Index(cl) := v % 256][Index(cl) + 1 := hi / 16 * 16 + v / 256 % 16]
    else
      fat[Index(cl) := lo % 16 + v % 16 * 16][Index(cl) + 1 := v / 16 % 256]
  }

  lemma SplitBy16(q: nat, r: nat)
    requires r < 16
    ensures (q * 16 + r) / 16 == q && (q * 16 + r) % 16 == r
  {
  }

  lemma Times16(v: nat)
    ensures v * 16 % 256 == v % 16 * 16
  {
    var q, r := v / 16, v % 16;
    assert v * 16 == q * 256 + r * 16;
  }

  lemma EvenRoundTrip(hi: byte, v: nat)
    requires v < 4096
    ensures EvenEntry(v % 256, hi / 16 * 16 + v / 256 % 16) == v
  {
    SplitBy16(hi / 16, v / 256);
    assert v / 256 % 16 == v / 256;
  }

  lemma OddRoundTrip(lo: byte, v: nat)
    requires v < 4096
    ensures OddEntry(lo % 16 + v % 16 * 16, v / 16 % 256) == v
  {
    SplitBy16(v % 16, lo % 16);
    assert v / 16 % 256 == v / 16;
  }

  /** An entry reads back as written. */
  lemma SetThenGet(fat: seq<byte>, cl: nat, v: nat)
    requires Index(cl) + 1 < |fat| && v < 4096
    ensures GetClval(SetClval(fat, cl, v), cl) == v
  {
    EvenRoundTrip(fat[Index(cl) + 1], v);
    OddRoundTrip(fat[Index(cl)], v);
  }

  /** Writing one entry is invisible at every other, although neighbours share a byte. */
  lemma SetElsewhere(fat: seq<byte>, cl: nat, v: nat, other: nat)
    requires Index(cl) + 1 < |fat| && Index(other) + 1 < |fat| && other != cl
    ensures GetClval(SetClval(fat, cl, v), other) == GetClval(fat, other)
  {
    var lo, hi := fat[Index(cl)], fat[Index(cl) + 1];
    SplitBy16(hi / 16, v / 256 % 16);
    SplitBy16(v % 16, lo % 16);
    Positions(cl, other);
  }

  /** Entries share a byte only when they are an even one and the odd one after it. */
  lemma Positions(cl: nat, other: nat)
    requires other != cl
    ensures if other == cl + 1 && cl % 2 == 0 then Index(other) == Index(cl) + 1
            else if cl == other + 1 && other % 2 == 0 then Index(cl) == Index(other) + 1
            else Index(other) > Index(cl) + 1 || Index(cl) > Index(other) + 1
  {
    IndexOf(cl);
    IndexOf(other);
  }

  lemma IndexOf(cl: nat)
    ensures Index(cl) == cl / 2 * 3 + cl % 2
  {
    var a, p := cl / 2, cl % 2;
    assert cl * 3 == (a * 3 + p) * 2 + p;
  }

  /** The entry as extracted from the two bytes taken as one word. */
  lemma WordEntry(lo: byte, hi: byte)
    ensures (lo as int + hi as int * 256) % 4096 == EvenEntry(lo, hi)
    ensures (lo as int + hi as int * 256) / 16 % 4096 == OddEntry(lo, hi)
  {
    var l: int, h: int := lo, hi;
    var q, r := h / 16, h % 16;
    SplitBy4096(q, l + r * 256);
    SplitBy16(h * 16 + l / 16, l % 16);
    assert l + h * 256 == (h * 16 + l / 16) * 16 + l % 16;
    assert h * 16 + l / 16 < 4096;
  }

  lemma SplitBy4096(q: nat, r: nat)
    requires r < 4096
    ensures (q * 4096 + r) % 4096 == r
  {
  }

  ghost predicate EntryIs(fat: seq<byte>, e: seq<nat>, cl: nat) {
    cl < |e| && Index(cl) + 1 < |fat| && e[cl] == GetClval(fat, cl)
  }

  /** The packed table holds the first `n` entries of the plain sequence `e`. */
  ghost predicate Packs(fat: seq<byte>, e: seq<nat>, n: nat) {
    n == 0 || (EntryIs(fat, e, n - 1) && Packs(fat, e, n - 1))
  }

  lemma {:induction false} PacksAll(fat: seq<byte>, e: seq<nat>, n: nat)
    requires forall cl :: 0 <= cl < n ==> EntryIs(fat, e, cl)
    ensures Packs(fat, e, n)
  {
    if n > 0 {
      PacksAll(fat, e, n - 1);
    }
  }

  lemma {:induction false} PackedAt(fat: seq<byte>, e: seq<nat>, n: nat, cl: nat)
    requires Packs(fat, e, n) && cl < n
    ensures EntryIs(fat, e, cl)
    decreases n
  {
    if cl < n - 1 {
      PackedAt(fat, e, n - 1, cl);
    }
  }

  /** Setting a packed entry is setting that element of the sequence of entries. */
  lemma SetRefinesUpdate(fat: seq<byte>, e: seq<nat>, cl: nat, v: nat)
    requires Packs(fat, e, |e|) && cl < |e| && v < 4096
    ensures Index(cl) + 1 < |fat| && Packs(SetClval(fat, cl, v), e[cl := v], |e|)
  {
    PackedAt(fat, e, |e|, cl);
    SetThenGet(fat, cl, v);
    var fat', e' := SetClval(fat, cl, v), e[cl := v];
    forall o | 0 <= o < |e|
      ensures EntryIs(fat', e', o)
    {
      PackedAt(fat, e, |e|, o);
      if o != cl {
        SetElsewhere(fat, cl, v, o);
      }
    }
    PacksAll(fat', e', |e|);
  }

  // ---- Chains ----

  /** `c` is the chain of clusters that starts at its first element: in range, without repetition,
      linked in order, terminated. */
  predicate IsChain(e: seq<nat>, c: seq<nat>) {
    && (forall i :: 0 <= i < |c| ==> 2 <= c[i] < |e|)
    && (forall i, j :: 0 <= i < j < |c| ==> c[i] != c[j])
    && (forall i :: 0 <= i < |c| - 1 ==> e[c[i]] == c[i + 1])
    && (c != [] ==> e[c[|c| - 1]] >= END_MIN)
  }

  predicate Disjoint(c: seq<nat>, d: seq<nat>) {
    forall i, j :: 0 <= i < |c| && 0 <= j < |d| ==> c[i] != d[j]
  }

  /** The tables agree on every cluster outside `c`. */
  predicate SameOutside(e: seq<nat>, e': seq<nat>, c: seq<nat>) {
    |e'| == |e| && forall cl :: 0 <= cl < |e| && cl !in c ==> e'[cl] == e[cl]
  }

  /** A volume's chains, one per owner: each well formed, no cluster shared. */
  ghost predicate ChainsOk(e: seq<nat>, chains: seq<seq<nat>>)
    decreases |chains|
  {
    if chains == [] then |e| <= 0xff0
    else
      var c, rest := chains[|chains| - 1], chains[..|chains| - 1];
      IsChain(e, c) && (forall g :: 0 <= g < |rest| ==> Disjoint(c, rest[g])) && ChainsOk(e, rest)
  }

  /** The same, said of all owners at once. */
  ghost predicate AllChainsOk(e: seq<nat>, chains: seq<seq<nat>>) {
    && |e| <= 0xff0
    && (forall f :: 0 <= f < |chains| ==> IsChain(e, chains[f]))
    && (forall f, g :: 0 <= f < |chains| && 0 <= g < |chains| && f != g ==> Disjoint(chains[f], chains[g]))
  }

  lemma {:induction false} ChainsUnfold(e: seq<nat>, chains: seq<seq<nat>>)
    requires ChainsOk(e, chains)
    ensures AllChainsOk(e, chains)
    decreases |chains|
  {
    if chains != [] {
      var n := |chains| - 1;
      ChainsUnfold(e, chains[..n]);
      forall f, g | 0 <= f < |chains| && 0 <= g < |chains| && f != g ensures Disjoint(chains[f], chains[g]) {
        if f == n {
          assert chains[g] == chains[..n][g];
        } else if g == n {
          assert chains[f] == chains[..n][f] && Disjoint(chains[n], chains[..n][f]);
        } else {
          assert chains[f] == chains[..n][f] && chains[g] == chains[..n][g];
        }
      }
    }
  }

  lemma {:induction false} ChainsFold(e: seq<nat>, chains: seq<seq<nat>>)
    requires AllChainsOk(e, chains)
    ensures ChainsOk(e, chains)
    decreases |chains|
  {
    if chains != [] {
      var rest := chains[..|chains| - 1];
      assert forall g :: 0 <= g < |rest| ==> rest[g] == chains[g];
      ChainsFold(e, rest);
    }
  }

  lemma ChainAt(e: seq<nat>, chains: seq<seq<nat>>, f: nat)
    requires ChainsOk(e, chains) && f < |chains|
    ensures |e| <= 0xff0 && IsChain(e, chains[f])
  {
    ChainsUnfold(e, chains);
  }

  predicate IsFree(e: seq<nat>, cl: nat) {
    2 <= cl < |e| && e[cl] == 0
  }

  /** No cluster is left to allocate. */
  predicate Full(e: seq<nat>) {
    forall cl :: 2 <= cl < |e| ==> !IsFree(e, cl)
  }

  lemma FreeNotInChain(e: seq<nat>, c: seq<nat>, cl: nat)
    requires IsChain(e, c) && IsFree(e, cl)
    ensures cl !in c
  {
    forall i | 0 <= i < |c| ensures c[i] != cl {
      assert i < |c| - 1 ==> e[c[i]] == c[i + 1];
    }
  }

  /** Changing the entries of some clusters only keeps every chain that avoids them. */
  lemma ChainKept(e: seq<nat>, e': seq<nat>, touched: seq<nat>, c: seq<nat>)
    requires IsChain(e, c) && SameOutside(e, e', touched) && Disjoint(touched, c)
    ensures IsChain(e', c)
  {
    assert forall i :: 0 <= i < |c| ==> c[i] !in touched;
  }

  /** Giving one owner a new chain, touching only clusters it had or that were free, keeps the whole volume
      in order. */
  lemma ChainReplaced(e: seq<nat>, e': seq<nat>, chains: seq<seq<nat>>, f: nat, touched: seq<nat>, c': seq<nat>)
    requires ChainsOk(e, chains) && f < |chains|
    requires forall i :: 0 <= i < |touched| ==> touched[i] in chains[f] || IsFree(e, touched[i])
    requires forall i :: 0 <= i < |c'| ==> c'[i] in touched
    requires SameOutside(e, e', touched) && IsChain(e', c')
    ensures ChainsOk(e', chains[f := c'])
  {
    ChainsUnfold(e, chains);
    forall g | 0 <= g < |chains| && g != f
      ensures IsChain(e', chains[g]) && Disjoint(c', chains[g]) && Disjoint(chains[g], c')
    {
      NotTouched(e, chains[f], chains[g], touched);
      ChainKept(e, e', touched, chains[g]);
      forall i, j | 0 <= i < |c'| && 0 <= j < |chains[g]| ensures c'[i] != chains[g][j] {
        assert c'[i] in touched;
      }
    }
    ChainsFold(e', chains[f := c']);
  }

  lemma NotTouched(e: seq<nat>, c: seq<nat>, d: seq<nat>, touched: seq<nat>)
    requires IsChain(e, d) && Disjoint(c, d)
    requires forall i :: 0 <= i < |touched| ==> touched[i] in c || IsFree(e, touched[i])
    ensures Disjoint(touched, d)
  {
    forall i, j | 0 <= i < |touched| && 0 <= j < |d| ensures touched[i] != d[j] {
      if touched[i] !in c {
        FreeNotInChain(e, d, touched[i]);
      }
    }
  }

  // ---- What the operations do to a chain ----

  /** Terminating a free cluster, linked nowhere yet, disturbs no chain. */
  lemma ChainsKeptByAlloc(e: seq<nat>, chains: seq<seq<nat>>, cl: nat)
    requires ChainsOk(e, chains) && IsFree(e, cl)
    ensures ChainsOk(e[cl := END_MARK], chains)
  {
    ChainsUnfold(e, chains);
    forall f | 0 <= f < |chains| ensures IsChain(e[cl := END_MARK], chains[f]) {
      FreeNotInChain(e, chains[f], cl);
      ChainKept(e, e[cl := END_MARK], [cl], chains[f]);
    }
    ChainsFold(e[cl := END_MARK], chains);
  }

  /** A terminated free cluster is the chain of a file that had none. */
  lemma ChainBegun(e: seq<nat>, chains: seq<seq<nat>>, f: nat, cl: nat)
    requires ChainsOk(e, chains) && f < |chains| && chains[f] == [] && IsFree(e, cl)
    ensures ChainsOk(e[cl := END_MARK], chains[f := [cl]])
  {
    ChainReplaced(e, e[cl := END_MARK], chains, f, [cl], [cl]);
  }

  /** A free cluster, terminated and linked behind the last one of a chain, extends the chain. */
  lemma ChainExtended(e: seq<nat>, chains: seq<seq<nat>>, f: nat, cl: nat)
    requires ChainsOk(e, chains) && f < |chains| && chains[f] != [] && IsFree(e, cl)
    ensures var c := chains[f];
            IsChain(e, c) && ChainsOk(e[cl := END_MARK][c[|c| - 1] := cl], chains[f := c + [cl]])
  {
    ChainsUnfold(e, chains);
    var c := chains[f];
    FreeNotInChain(e, c, cl);
    LinkedBehind(e, c, cl);
    ChainReplaced(e, e[cl := END_MARK][c[|c| - 1] := cl], chains, f, c + [cl], c + [cl]);
  }

  lemma LinkedBehind(e: seq<nat>, c: seq<nat>, cl: nat)
    requires IsChain(e, c) && c != [] && IsFree(e, cl) && cl !in c
    ensures IsChain(e[cl := END_MARK][c[|c| - 1] := cl], c + [cl])
    ensures SameOutside(e, e[cl := END_MARK][c[|c| - 1] := cl], c + [cl])
    ensures forall i :: 0 <= i < |c + [cl]| ==> (c + [cl])[i] in c || IsFree(e, (c + [cl])[i])
  {
    var last := c[|c| - 1];
    var e', c' := e[cl := END_MARK][last := cl], c + [cl];
    assert forall i :: 0 <= i < |c| - 1 ==> c[i] != last && e'[c[i]] == e[c[i]];
    assert c'[|c|] == cl && last in c';
  }

  /** A chain whose every entry is cleared is gone, and its clusters are free. */
  lemma ChainFreed(e: seq<nat>, e': seq<nat>, chains: seq<seq<nat>>, f: nat)
    requires ChainsOk(e, chains) && f < |chains|
    requires SameOutside(e, e', chains[f])
    ensures ChainsOk(e', chains[f := []])
  {
    ChainReplaced(e, e', chains, f, chains[f], []);
  }

  /** Bypassing the k-th cluster of a chain and clearing its entry removes just that cluster. */
  lemma ChainShortened(e: seq<nat>, chains: seq<seq<nat>>, f: nat, k: nat)
    requires ChainsOk(e, chains) && f < |chains| && 0 < k < |chains[f]|
    ensures var c := chains[f];
            IsChain(e, c) && ChainsOk(e[c[k - 1] := e[c[k]]][c[k] := 0], chains[f := c[..k] + c[k + 1..]])
  {
    ChainsUnfold(e, chains);
    var c := chains[f];
    var e' := e[c[k - 1] := e[c[k]]][c[k] := 0];
    Bypassed(e, c, k);
    ChainReplaced(e, e', chains, f, c, c[..k] + c[k + 1..]);
  }

  lemma Bypassed(e: seq<nat>, c: seq<nat>, k: nat)
    requires IsChain(e, c) && 0 < k < |c|
    ensures IsChain(e[c[k - 1] := e[c[k]]][c[k] := 0], c[..k] + c[k + 1..])
  {
    var e' := e[c[k - 1] := e[c[k]]][c[k] := 0];
    var c' := c[..k] + c[k + 1..];
    assert forall i :: 0 <= i < k ==> c'[i] == c[i];
    assert forall i :: k <= i < |c'| ==> c'[i] == c[i + 1];
    forall i | 0 <= i < |c'| - 1 ensures e'[c'[i]] == c'[i + 1] {
      if i < k - 1 {
        assert e[c[i]] == c[i + 1];
      } else if i == k - 1 {
        assert e[c[k]] == c[k + 1];
      } else {
        assert e[c[i + 1]] == c[i + 2];
      }
    }
  }
}
