/** The kernel's byte allocator: a sorted, merged list of available blocks and a list of used ones, grown out
    of the page allocator. Blocks are runs of bytes. */
module KernelHeap {
  import opened Basics
  import opened PageRuns
  import opened CoreMemory

  const MALLOC_MAX: nat := 0x01000000
  /** List nodes that fit in a page of the node pool. */
  const NODES_PER_PAGE: nat := 341

  /** The bytes of a set of pages. */
  ghost function Bytes(pages: iset<nat>): iset<nat> {
    iset b: nat | b / PAGE_SIZE in pages
  }

  /** The block is among the shortest that suffice. */
  predicate BestFit(l: seq<Run>, size: nat, k: nat) {
    k < |l| && l[k].count >= size && forall j :: 0 <= j < |l| && l[j].count >= size ==> l[k].count <= l[j].count
  }

  /** Available and used blocks are disjoint and cover exactly the pages acquired. */
  ghost predicate Partition(avail: seq<Run>, used: seq<Run>, acquired: iset<nat>) {
    var ok :=
      && Canonical(avail) && Apart(used) && (forall i :: 0 <= i < |used| ==> used[i].count > 0)
      && Pages(avail) !! Pages(used)
      && Pages(avail) + Pages(used) == Bytes(acquired);
    ok
  }

  /** The bytes of a run of pages. */
  function PageBlock(ch: Run): Run {
    Run(ch.page * PAGE_SIZE, ch.count * PAGE_SIZE)
  }

  /** The bytes at `ptr` are the beginning of a best fit of `from`, and `now` is what it leaves. */
  ghost predicate HandedFrom(from: seq<Run>, size: nat, ptr: nat, now: seq<Run>) {
    exists k: nat :: BestFit(from, size, k) && ptr == from[k].page && now == Take(from, k, size)
  }

  // ---- What can be had ----

  /** All that decides whether memory can be had: the available and the used blocks, the pages of the node pool, and
      the free runs of pages. */
  datatype Store = Store(avail: seq<Run>, used: seq<Run>, poolPages: nat, blocks: seq<Run>)

  /** A list node is unused, or a page is left for more of them. */
  predicate HasNode(st: Store) {
    |st.avail| + |st.used| < NODES_PER_PAGE * st.poolPages || st.blocks != []
  }

  function WithNode(st: Store): Store {
    if |st.avail| + |st.used| < NODES_PER_PAGE * st.poolPages then st
    else st.(poolPages := st.poolPages + 1, blocks := LeftOver(st.blocks, 1))
  }

  /** Where the search for the best fit stands after `t` blocks. */
  function Best(l: seq<Run>, size: nat, t: nat): (k: int)
    requires t <= |l|
    ensures -1 <= k < t && (k >= 0 ==> l[k].count >= size)
  {
    if t == 0 then -1 else
    var k := Best(l, size, t - 1);
    if l[t - 1].count >= size && (k == -1 || l[t - 1].count < l[k].count) then t - 1 else k
  }

  /** The best fit is an exact one, or there is a node for what is left of it. */
  predicate CanHandOut(st: Store, size: nat) {
    var k := Best(st.avail, size, |st.avail|);
    k >= 0 && (st.avail[k].count == size || HasNode(st))
  }

  function HandedOut(st: Store, size: nat): Store
    requires CanHandOut(st, size)
  {
    Serving(st, Best(st.avail, size, |st.avail|), size)
  }

  /** The beginning of the `k`th block is handed out. */
  function Serving(st: Store, k: nat, size: nat): Store
    requires k < |st.avail| && size <= st.avail[k].count
  {
    var st' := if st.avail[k].count == size then st else WithNode(st);
    st'.(avail := Take(st.avail, k, size), used := [Run(st.avail[k].page, size)] + st.used)
  }

  function PagesFor(size: nat): nat {
    (size + PAGE_SIZE - 1) / PAGE_SIZE
  }

  /** A run of enough pages is free, and there is a node for them. */
  predicate CanRefill(st: Store, size: nat) {
    Granted(st.blocks, PagesFor(size)).count == PagesFor(size) && HasNode(st.(blocks := LeftOver(st.blocks, PagesFor(size))))
  }

  function AfterRefill(st: Store, size: nat): Store {
    var ch := Granted(st.blocks, PagesFor(size));
    WithNode(st.(blocks := LeftOver(st.blocks, PagesFor(size)))).(avail := Insert(st.avail, PageBlock(ch)))
  }

  /** A block of the size can be had: from the available blocks if one of them suffices, otherwise after a refill. */
  predicate CanAlloc(st: Store, size: nat) {
    && 0 < size <= MALLOC_MAX
    && if Best(st.avail, size, |st.avail|) >= 0 then CanHandOut(st, size)
       else CanRefill(st, size) && CanHandOut(AfterRefill(st, size), size)
  }

  function Allocated(st: Store, size: nat): Store
    requires CanAlloc(st, size)
  {
    HandedOut(if Best(st.avail, size, |st.avail|) >= 0 then st else AfterRefill(st, size), size)
  }

  lemma {:induction false} BestIs(l: seq<Run>, size: nat, t: nat)
    requires t <= |l|
    ensures var k := Best(l, size, t);
            if k == -1 then forall j :: 0 <= j < t ==> l[j].count < size
            else l[k].count >= size && forall j :: 0 <= j < t && l[j].count >= size ==> l[k].count <= l[j].count
  {
    if t > 0 {
      BestIs(l, size, t - 1);
    }
  }

  /** No block suffices, and `from` is the list with as many new whole pages as the size calls for. */
  ghost predicate Refilled(avail: seq<Run>, acquired: iset<nat>, size: nat, got: Run, from: seq<Run>) {
    && (forall j :: 0 <= j < |avail| ==> avail[j].count < size)
    && got.count == (size + PAGE_SIZE - 1) / PAGE_SIZE && Range(got) !! acquired && from == Insert(avail, PageBlock(got))
  }

  /** The list a block of the given size is chosen from. */
  ghost predicate Offered(avail: seq<Run>, acquired: iset<nat>, size: nat, from: seq<Run>) {
    if exists j :: 0 <= j < |avail| && avail[j].count >= size then from == avail
    else exists got :: Refilled(avail, acquired, size, got, from)
  }

  lemma EnoughPages(count: nat, size: nat)
    requires size > 0 && count <= PagesFor(size)
    ensures count * 4096 >= size <==> count == PagesFor(size)
    ensures PagesFor(size) > 0 && PagesFor(size) == (size + 4095) / 4096
  {
  }

  lemma APageIsLeft(blocks: seq<Run>)
    requires Canonical(blocks)
    ensures if blocks == [] then Pages(blocks) == iset{} else Min(1, blocks[0].count) == 1
  {
  }

  class Heap {
    const core: Core
    var avail: seq<Run>
    var used: seq<Run>
    var poolPages: nat
    /** Pages taken for blocks, and for list nodes. */
    ghost var acquired: iset<nat>
    ghost var pool: iset<nat>

    ghost predicate Valid()
      reads this, core
    {
      var ok :=
        && core.Valid() && Partition(avail, used, acquired)
        && acquired !! pool && acquired !! Pages(core.blocks) && pool !! Pages(core.blocks)
        && AllRam(core.ram, acquired + pool);
      ok
    }

    constructor (core: Core)
      requires core.Valid()
      ensures Valid() && this.core == core && acquired == iset{} && pool == iset{}
      ensures State() == Store([], [], 0, core.blocks)
    {
      this.core, avail, used, poolPages, acquired, pool := core, [], [], 0, iset{}, iset{};
      new;
      assert Pages([]) == iset{};
    }

    ghost function State(): Store
      reads this, core
    {
      Store(avail, used, poolPages, core.blocks)
    }

    /** Every page this heap and the page allocator have between them. */
    ghost function AllPages(): iset<nat>
      reads this, core
    {
      acquired + pool + Pages(core.blocks)
    }

    /** Links a block into the available list, merging it with the blocks it touches. */
    method InsertAvailNode(p: Run)
      requires Canonical(avail) && p.count > 0 && Range(p) !! Pages(avail)
      modifies this`avail
      ensures avail == Insert(old(avail), p)
    {
      Fits(avail, p);
      if avail == [] {
        avail := [p];
        return;
      }
      if avail[0].page > p.page {
        assert avail[..0] == [];
        if p.page + p.count == avail[0].page {
          avail := [Run(p.page, avail[0].count + p.count)] + avail[1..];
        } else {
          avail := [p] + avail;
        }
        return;
      }
      InsertInside(p);
    }

    /** Merges `p` into the i-th block, which ends where `p` begins, and into the next one if they touch. */
    method MergeUp(i: nat, p: Run)
      requires i < |avail| && avail[i].page + avail[i].count == p.page
      modifies this`avail
      ensures avail == InsertAt(old(avail), i + 1, p)
    {
      var size := avail[i].count + p.count;
      if i + 1 < |avail| && avail[i].page + size == avail[i + 1].page {
        avail := avail[..i] + [Run(avail[i].page, size + avail[i + 1].count)] + avail[i + 2..];
      } else {
        avail := avail[..i] + [Run(avail[i].page, size)] + avail[i + 1..];
      }
    }

    /** Places `p` before the i-th block, merging the two if they touch. */
    method PlaceAt(i: nat, p: Run)
      requires i <= |avail| && !JoinsPrev(avail, i, p)
      modifies this`avail
      ensures avail == InsertAt(old(avail), i, p)
    {
      if i < |avail| {
        if p.page + p.count == avail[i].page {
          avail := avail[..i] + [Run(p.page, avail[i].count + p.count)] + avail[i + 1..];
        } else {
          avail := avail[..i] + [p] + avail[i..];
        }
      } else {
        assert avail + [p] == avail[..i] + [p] + avail[i..];
        avail := avail + [p];
      }
    }

    /** Searches the list for the place of a block: the first block that does not end below it. */
    method FindPlace(p: Run) returns (i: nat)
      ensures i <= |avail| && (forall j :: 0 <= j < i ==> avail[j].End() < p.page)
      ensures i == |avail| || avail[i].End() >= p.page
    {
      i := 0;
      while i < |avail| && avail[i].page + avail[i].count < p.page
        invariant 0 <= i <= |avail| && forall j :: 0 <= j < i ==> avail[j].End() < p.page
      {
        i := i + 1;
      }
    }

    /** The same for a block that is not the lowest. */
    method InsertInside(p: Run)
      requires Canonical(avail) && p.count > 0 && Range(p) !! Pages(avail) && avail != [] && avail[0].page <= p.page
      modifies this`avail
      ensures avail == Insert(old(avail), p)
    {
      Fits(avail, p);
      var i := FindPlace(p);
      SearchEnds(avail, p, i);
      if i < |avail| && avail[i].page + avail[i].count == p.page {
        MergeUp(i, p);
      } else {
        PlaceAt(i, p);
      }
    }

    /** A list node to record a block in; takes another page for the pool when all nodes are in use. There is
        one exactly if not all are, or a page is left. */
    method CreateMemListNode() returns (ok: bool)
      requires Valid()
      modifies this`poolPages, this`pool, core`blocks
      ensures Valid() && AllPages() == old(AllPages()) && pool >= old(pool)
      ensures (ok <==> HasNode(old(State()))) && State() == if ok then WithNode(old(State())) else old(State())
    {
      if |avail| + |used| < NODES_PER_PAGE * poolPages {
        return true;
      }
      APageIsLeft(core.blocks);
      var ch := core.CoreAlloc(1);
      assert ch.count >= 1 ==> ch.page in Range(ch);
      if ch.count < 1 {
        return false;
      }
      poolPages := poolPages + 1;
      pool := pool + Range(ch);
      return true;
    }

    /** Searches the available list for the best fit. */
    method ChooseAvail(size: nat) returns (k: int)
      ensures -1 <= k < |avail| && k == Best(avail, size, |avail|)
      ensures k == -1 <==> forall j :: 0 <= j < |avail| ==> avail[j].count < size
      ensures k >= 0 ==> BestFit(avail, size, k)
    {
      k := -1;
      for i := 0 to |avail|
        invariant k == Best(avail, size, i) && (k >= 0 ==> avail[k].count >= size)
      {
        if avail[i].count >= size && (k == -1 || avail[i].count - size < avail[k].count - size) {
          k := i;
        }
      }
      BestIs(avail, size, |avail|);
    }

    /** Adds a page run got from the page allocator to the available list. */
    method Grow(ch: Run)
      requires Valid() && ch.count > 0 && Range(ch) !! acquired && Range(ch) !! pool && Range(ch) !! Pages(core.blocks)
      requires AllRam(core.ram, Range(ch))
      modifies this`avail, this`acquired
      ensures Valid() && acquired == old(acquired) + Range(ch) && avail == Insert(old(avail), PageBlock(ch))
      ensures exists i :: 0 <= i < |avail| && avail[i].count >= ch.count * PAGE_SIZE
    {
      var p := PageBlock(ch);
      Acquired(avail, used, acquired, ch);
      InsertHasRoom(avail, p);
      InsertAvailNode(p);
      acquired := acquired + Range(ch);
    }

    /** Gets enough pages for `size` bytes and adds them to the available list. */
    method Refill(size: nat) returns (ok: bool, ghost got: Run)
      requires Valid() && size > 0
      modifies this`avail, this`acquired, this`poolPages, this`pool, core`blocks
      ensures Valid() && AllPages() == old(AllPages())
      ensures (ok <==> CanRefill(old(State()), size)) && State() == if ok then AfterRefill(old(State()), size) else old(State())
      ensures ok ==> avail == Insert(old(avail), PageBlock(got)) && got.count == PagesFor(size) && Range(got) !! old(acquired)
      ensures ok ==> exists i :: 0 <= i < |avail| && avail[i].count >= size
      ensures !ok ==> avail == old(avail) && acquired == old(acquired)
    {
      var ch := core.CoreAlloc((size + 4095) / 4096);
      got := ch;
      EnoughPages(ch.count, size);
      assert State() == old(State()).(blocks := LeftOver(old(core.blocks), PagesFor(size)));
      if ch.count * 4096 < size {
        if ch.count > 0 {
          GiveBack(ch, old(core.blocks));
        }
        return false, got;
      }
      ok := AddPages(ch, old(core.blocks));
    }

    /** Adds pages just taken off the page allocator to the available list, or gives them back. */
    method AddPages(ch: Run, ghost before: seq<Run>) returns (ok: bool)
      requires Valid() && ch.count > 0 && Range(ch) !! AllPages() && AllRam(core.ram, Range(ch))
      requires Canonical(before) && Pages(before) == Pages(core.blocks) + Range(ch)
      modifies this`avail, this`acquired, this`poolPages, this`pool, core`blocks
      ensures Valid() && AllPages() == old(AllPages()) + Range(ch)
      ensures (ok <==> HasNode(old(State())))
      ensures ok ==> State() == WithNode(old(State())).(avail := Insert(old(avail), PageBlock(ch)))
      ensures !ok ==> avail == old(avail) && used == old(used) && poolPages == old(poolPages) && core.blocks == before
      ensures if ok then exists i :: 0 <= i < |avail| && avail[i].count >= ch.count * PAGE_SIZE else acquired == old(acquired)
    {
      ok := CreateMemListNode();
      if ok {
        Grow(ch);
      } else {
        GiveBack(ch, before);
      }
    }

    /** Gives a run of pages that was taken off the page allocator back to it. */
    method GiveBack(ch: Run, ghost before: seq<Run>)
      requires core.Valid() && Range(ch) !! Pages(core.blocks) && forall p :: p in Range(ch) ==> RamPage(core.ram, p)
      requires ch.count > 0 && Canonical(before) && Pages(before) == Pages(core.blocks) + Range(ch)
      modifies core`blocks
      ensures core.Valid() && core.blocks == before && Pages(core.blocks) == old(Pages(core.blocks)) + Range(ch)
    {
      assert ch.page in Range(ch);
      core.CoreFree(ch);
      CanonicalUnique(core.blocks, before);
    }

    /** Hands `size` bytes of the k-th available block out. */
    method HandOut(k: nat, size: nat) returns (r: Option<nat>)
      requires Valid() && k < |avail| && 0 < size <= avail[k].count
      modifies this`avail, this`used, this`poolPages, this`pool, core`blocks
      ensures Valid() && AllPages() == old(AllPages())
      ensures r.Some? <==> old(avail)[k].count == size || HasNode(old(State()))
      ensures r.None? ==> State() == old(State())
      ensures r.Some? ==> r.value == old(avail)[k].page && State() == Serving(old(State()), k, size)
                          && Range(Run(r.value, size)) !! Pages(old(used))
    {
      Handed(avail, used, acquired, k, size);
      var p := avail[k];
      if p.count > size {
        var ok := CreateMemListNode();
        if !ok {
          return None;
        }
        avail := avail[..k] + [Run(p.page + size, p.count - size)] + avail[k + 1..];
      } else {
        assert avail[..k] + [] + avail[k + 1..] == avail[..k] + avail[k + 1..];
        avail := avail[..k] + avail[k + 1..];
      }
      used := [Run(p.page, size)] + used;
      return Some(p.page);
    }

    /** Hands out `size` bytes of the best fit. */
    method HandOutBest(k: nat, size: nat) returns (r: Option<nat>)
      requires Valid() && size > 0 && k < |avail| && k == Best(avail, size, |avail|)
      modifies this`avail, this`used, this`poolPages, this`pool, core`blocks
      ensures Valid() && AllPages() == old(AllPages()) && (r.Some? <==> CanHandOut(old(State()), size))
      ensures r.None? ==> used == old(used)
      ensures r.Some? ==> State() == HandedOut(old(State()), size) && HandedFrom(old(avail), size, r.value, avail)
                          && used == [Run(r.value, size)] + old(used) && Range(Run(r.value, size)) !! Pages(old(used))
    {
      BestIs(avail, size, |avail|);
      assert BestFit(avail, size, k);
      r := HandOut(k, size);
    }

    /** Makes sure that a block suffices, if need be by a refill. */
    method Provide(size: nat) returns (k: int)
      requires Valid() && size > 0
      modifies this`avail, this`acquired, this`poolPages, this`pool, core`blocks
      ensures Valid() && AllPages() == old(AllPages()) && used == old(used) && -1 <= k < |avail|
      ensures k >= 0 <==> Best(old(avail), size, |old(avail)|) >= 0 || CanRefill(old(State()), size)
      ensures k >= 0 ==> k == Best(avail, size, |avail|) && Offered(old(avail), old(acquired), size, avail)
      ensures k >= 0 ==> State() == if Best(old(avail), size, |old(avail)|) >= 0 then old(State()) else AfterRefill(old(State()), size)
    {
      k := ChooseAvail(size);
      if k == -1 {
        var ok;
        ghost var got;
        ok, got := Refill(size);
        if ok {
          assert Refilled(old(avail), old(acquired), size, got, avail);
          k := ChooseAvail(size);
        }
      }
    }

    /** Allocates `size` bytes, if they can be had. `from` is the list the block was chosen from: the available blocks,
        or, when none of them suffices, these together with as many whole pages as the size calls for. */
    method Kmalloc(size: nat) returns (r: Option<nat>, ghost from: seq<Run>)
      requires Valid()
      modifies this`avail, this`used, this`acquired, this`poolPages, this`pool, core`blocks
      ensures Valid() && AllPages() == old(AllPages())
      ensures r.Some? <==> CanAlloc(old(State()), size)
      ensures r.Some? ==> State() == Allocated(old(State()), size)
      ensures r.None? ==> used == old(used)
      ensures r.Some? ==> used == [Run(r.value, size)] + old(used) && Range(Run(r.value, size)) !! Pages(old(used))
      ensures r.Some? ==> Offered(old(avail), old(acquired), size, from) && HandedFrom(from, size, r.value, avail)
    {
      from := avail;
      if size <= 0 || size > MALLOC_MAX {
        return None, from;
      }
      var k := Provide(size);
      if k == -1 {
        return None, from;
      }
      from := avail;
      r := HandOutBest(k, size);
    }

    /** Position of the used block that starts at `ptr`, or -1. */
    method FindUsed(ptr: nat) returns (k: int)
      ensures -1 <= k < |used| && (k >= 0 ==> used[k].page == ptr)
      ensures forall j :: 0 <= j < (if k == -1 then |used| else k) ==> used[j].page != ptr
    {
      for i := 0 to |used|
        invariant forall j :: 0 <= j < i ==> used[j].page != ptr
      {
        if used[i].page == ptr {
          return i;
        }
      }
      return -1;
    }

    /** Frees the block that starts at `ptr`, if there is one. */
    method Kfree(ptr: nat)
      requires Valid()
      modifies this`avail, this`used
      ensures Valid() && AllPages() == old(AllPages()) && acquired == old(acquired)
      ensures used == Drop(old(used), ptr)
      ensures (forall j :: 0 <= j < |old(used)| ==> old(used)[j].page != ptr) ==> avail == old(avail) && used == old(used)
      ensures (exists j :: 0 <= j < |old(used)| && old(used)[j].page == ptr) ==>
                (exists k: nat :: k < |old(used)| && old(used)[k].page == ptr && avail == Insert(old(avail), old(used)[k]))
    {
      var k := FindUsed(ptr);
      if k == -1 {
        DropNone(used, ptr);
        return;
      }
      DropAt(used, ptr, k);
      GivenBack(avail, used, acquired, k);
      var p := used[k];
      used := used[..k] + used[k + 1..];
      InsertAvailNode(p);
    }
  }

  /** The blocks without the one that starts at `ptr`. */
  function Drop(used: seq<Run>, ptr: nat): seq<Run> {
    if used == [] then [] else if used[0].page == ptr then used[1..] else [used[0]] + Drop(used[1..], ptr)
  }

  lemma {:induction false} DropNone(used: seq<Run>, ptr: nat)
    requires forall j :: 0 <= j < |used| ==> used[j].page != ptr
    ensures Drop(used, ptr) == used
    decreases |used|
  {
    if used != [] {
      assert used[0].page != ptr;
      DropNone(used[1..], ptr);
      assert used == [used[0]] + used[1..];
    }
  }

  lemma {:induction false} DropAt(used: seq<Run>, ptr: nat, k: nat)
    requires k < |used| && used[k].page == ptr && forall j :: 0 <= j < k ==> used[j].page != ptr
    ensures Drop(used, ptr) == used[..k] + used[k + 1..]
    decreases k
  {
    if k > 0 {
      DropAt(used[1..], ptr, k - 1);
      assert used[..k] + used[k + 1..] == [used[0]] + (used[1..][..k - 1] + used[1..][k..]);
    }
  }

  /** Where the search for the place of a block stops: at the neighbour it touches from above, or at its place. */
  lemma SearchEnds(l: seq<Run>, p: Run, i: nat)
    requires Canonical(l) && p.count > 0 && l != [] && l[0].page <= p.page && i <= |l|
    requires forall j :: 0 <= j < i ==> l[j].End() < p.page
    requires var b := Below(l, p.page); (b > 0 ==> l[b - 1].End() <= p.page) && (b < |l| ==> p.End() <= l[b].page)
    requires i == |l| || l[i].End() >= p.page
    ensures var b := Below(l, p.page);
            b > 0 && i == if l[b - 1].End() == p.page then b - 1 else b
  {
  }

  // ---- Blocks change hands ----

  /** A block moves from the available list to the used one. */
  lemma Handed(avail: seq<Run>, used: seq<Run>, acquired: iset<nat>, k: nat, size: nat)
    requires Partition(avail, used, acquired) && k < |avail| && 0 < size <= avail[k].count
    ensures var r := Run(avail[k].page, size);
            Partition(Take(avail, k, size), [r] + used, acquired) && Range(r) !! Pages(used)
  {
    var r := Run(avail[k].page, size);
    TakeOk(avail, k, size);
    Prepended(used, r);
  }

  lemma Prepended(used: seq<Run>, r: Run)
    ensures Pages([r] + used) == Range(r) + Pages(used)
    ensures Apart(used) && Range(r) !! Pages(used) ==> Apart([r] + used)
  {
    var x := [r] + used;
    forall p: nat ensures In(x, p) <==> Has(r, p) || In(used, p) {
      Join([], [r], used, p);
      Single(r, p);
      assert [] + [r] + used == x;
    }
    if Apart(used) && Range(r) !! Pages(used) {
      forall i, j | 0 <= i < j < |x| ensures Range(x[i]) !! Range(x[j]) {
        if i == 0 {
          forall p | p in Range(x[j]) ensures p in Pages(used) {
            HasIn(used, j - 1, p);
          }
        } else {
          assert x[i] == used[i - 1] && x[j] == used[j - 1];
        }
      }
    }
  }

  /** A block moves from the used list back to the available one. */
  lemma GivenBack(avail: seq<Run>, used: seq<Run>, acquired: iset<nat>, k: nat)
    requires Partition(avail, used, acquired) && k < |used|
    ensures Range(used[k]) !! Pages(avail)
    ensures Partition(Insert(avail, used[k]), used[..k] + used[k + 1..], acquired)
  {
    var r, rest := used[k], used[..k] + used[k + 1..];
    Removed(used, k);
    assert Range(r) <= Pages(used);
    InsertOk(avail, r);
  }

  lemma Removed(used: seq<Run>, k: nat)
    requires k < |used|
    ensures var rest := used[..k] + used[k + 1..];
            && Pages(used) == Pages(rest) + Range(used[k])
            && (Apart(used) ==> Apart(rest) && Range(used[k]) !! Pages(rest))
  {
    var rest := used[..k] + used[k + 1..];
    forall p: nat ensures In(used, p) <==> In(rest, p) || Has(used[k], p) {
      SplicePages(used, k, k + 1, [], p);
      assert used[k..k + 1] == [used[k]] && used[..k] + [] + used[k + 1..] == rest;
      Single(used[k], p);
    }
    assert forall i :: 0 <= i < |rest| ==> rest[i] == used[if i < k then i else i + 1];
    if Apart(used) {
      forall p | p in Pages(rest) ensures p !in Range(used[k]) {
        var i :| 0 <= i < |rest| && Has(rest[i], p);
        var j := if i < k then i else i + 1;
        assert p in Range(used[j]);
      }
    }
  }

  /** New pages join the available list. */
  lemma Acquired(avail: seq<Run>, used: seq<Run>, acquired: iset<nat>, ch: Run)
    requires Partition(avail, used, acquired) && ch.count > 0 && Range(ch) !! acquired
    ensures var p := Run(ch.page * PAGE_SIZE, ch.count * PAGE_SIZE);
            Range(p) !! Pages(avail) && Partition(Insert(avail, p), used, acquired + Range(ch))
  {
    var p := Run(ch.page * PAGE_SIZE, ch.count * PAGE_SIZE);
    forall b: nat ensures Has(p, b) <==> Has(ch, b / PAGE_SIZE) {
    }
    assert Bytes(acquired + Range(ch)) == Bytes(acquired) + Range(p);
    assert Range(p) !! Bytes(acquired);
    InsertOk(avail, p);
  }
}
