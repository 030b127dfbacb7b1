/** Memory segments: page tables and frames taken from the page allocator, records taken from the byte
    allocator, and all of them given back. */
module Segments {
  import opened Basics
  import opened PageRuns
  import opened CoreMemory
  import opened KernelHeap

  /** Entries of a page directory and of a page table. */
  const ENTRIES: nat := 1024
  /** Fragments a segment's memory may be allocated in. */
  const MAX_FRAGMENTS: nat := 32

  type Table = t: seq<nat> | |t| == 1024 witness seq(1024, _ => 0)

  // ---- Frames held ----

  /** Frame numbers and table pages held by a list of page tables; 0 stands for an unused entry. */
  ghost function Held(pgtable: seq<nat>, tables: map<nat, Table>): multiset<nat> {
    if pgtable == [] then multiset{}
    else TableHeld(pgtable[0], tables) + Held(pgtable[1..], tables)
  }

  /** No frame is held twice. */
  ghost predicate Once(m: multiset<nat>) {
    forall f :: f in m && f != 0 ==> m[f] == 1
  }

  ghost function Frames(m: multiset<nat>): iset<nat> {
    iset f: nat | f in m && f != 0
  }

  lemma MoreFrames(m: multiset<nat>, n: multiset<nat>)
    ensures Frames(m + n) == Frames(m) + Frames(n)
    ensures Once(m + n) ==> Once(m) && Once(n) && Frames(m) !! Frames(n)
  {
    assert forall f :: (m + n)[f] == m[f] + n[f];
    if Once(m + n) {
      forall f | f in m && f != 0 ensures m[f] == 1 && f !in n {
        assert f in m + n;
      }
      forall f | f in n && f != 0 ensures n[f] == 1 {
        assert f in m + n;
      }
    }
  }

  /** Bytes of the record that lists a page table. */
  const NODE_SIZE: nat := 8

  /** A segment: its record, its page tables in order, and the records that list them. */
  datatype Seg = Seg(record: nat, pgtable: seq<nat>, nodes: seq<nat>)

  /** The blocks of the byte allocator without those that start at the given addresses. */
  ghost function DropAll(used: seq<Run>, ptrs: seq<nat>): seq<Run>
    decreases |ptrs|
  {
    if ptrs == [] then used else DropAll(Drop(used, ptrs[0]), ptrs[1..])
  }

  /** The blocks of the records, the one allocated last first. */
  ghost function Records(nodes: seq<nat>): seq<Run> {
    if nodes == [] then [] else [Run(nodes[|nodes| - 1], NODE_SIZE)] + Records(nodes[..|nodes| - 1])
  }

  // ---- What can be had ----

  /** A page for a page table can be had, and a record to list it. */
  predicate CanTakeTable(st: Store) {
    Granted(st.blocks, 1).count == 1 && CanAlloc(st.(blocks := LeftOver(st.blocks, 1)), NODE_SIZE)
  }

  function TableTaken(st: Store): Store
    requires CanTakeTable(st)
  {
    Allocated(st.(blocks := LeftOver(st.blocks, 1)), NODE_SIZE)
  }

  function TakeTable(st: Store): Option<Store> {
    if CanTakeTable(st) then Some(TableTaken(st)) else None
  }

  /** How often a step can be repeated, up to `n` times, and where that leads. */
  function Times<S>(next: S -> Option<S>, s: S, n: nat): (k: nat)
    ensures k <= n
    decreases n
  {
    if n == 0 || next(s).None? then 0 else 1 + Times(next, next(s).value, n - 1)
  }

  function After<S>(next: S -> Option<S>, s: S, n: nat): S
    decreases n
  {
    if n == 0 || next(s).None? then s else After(next, next(s).value, n - 1)
  }

  /** How many of `n` page tables can be had, and what is there after that. */
  function Tables(st: Store, n: nat): (k: nat)
    ensures k <= n
  {
    Times(TakeTable, st, n)
  }

  function AfterTables(st: Store, n: nat): Store {
    After(TakeTable, st, n)
  }

  /** A segment can be had: its record, its page tables, and its pages in few enough fragments. */
  predicate CanCreate(st: Store, record: nat, tables: nat, pages: nat) {
    && CanAlloc(st, record) && Tables(Allocated(st, record), tables) == tables
    && pages <= Most(AfterTables(Allocated(st, record), tables).blocks, MAX_FRAGMENTS)
  }

  /** The record and a first page table can be had, but not the whole segment. */
  predicate LeavesStale(st: Store, record: nat, tables: nat, pages: nat) {
    CanAlloc(st, record) && Tables(Allocated(st, record), tables) > 0 && !CanCreate(st, record, tables, pages)
  }

  class Vm {
    const heap: Heap
    /** Bytes of a segment's record. */
    const recordSize: nat
    /** Page directory: the page of each page table, 0 if there is none. */
    var pd: seq<nat>
    /** Contents of the pages that serve as page tables. */
    var tables: map<nat, Table>

    constructor (heap: Heap, recordSize: nat)
      requires heap.Valid() && 0 !in heap.AllPages()
      ensures Valid() && this.heap == heap && this.recordSize == recordSize && pd == seq(ENTRIES, _ => 0)
    {
      this.heap, this.recordSize, pd, tables := heap, recordSize, seq(ENTRIES, _ => 0), map[];
    }

    ghost predicate Valid()
      reads this, heap, heap.core
    {
      heap.Valid() && 0 !in heap.AllPages() && |pd| == ENTRIES
    }

    /** Gives the pending run of the release loop back. */
    method FreeRun(start: nat, n: nat)
      requires heap.core.Valid() && Range(Run(start, n)) !! Pages(heap.core.blocks) && n > 0
      requires AllRam(heap.core.ram, Range(Run(start, n)))
      modifies heap.core`blocks
      ensures heap.core.Valid() && Pages(heap.core.blocks) == old(Pages(heap.core.blocks)) + Range(Run(start, n))
    {
      assert start in Range(Run(start, n));
      heap.core.CoreFree(Run(start, n));
    }

    /** Gives the frames of one page table back, grouped into runs. */
    method ReleaseFrames(entries: seq<nat>)
      requires heap.core.Valid() && Once(multiset(entries)) && Frames(multiset(entries)) !! Pages(heap.core.blocks)
      requires AllRam(heap.core.ram, Frames(multiset(entries)))
      modifies heap.core`blocks
      ensures heap.core.Valid() && Pages(heap.core.blocks) == old(Pages(heap.core.blocks)) + Frames(multiset(entries))
    {
      var start, prev, n := 0, 0, 0;
      ghost var pending: iset<nat> := iset{};
      for j := 0 to |entries|
        invariant heap.core.Valid() && prev == start && 0 <= n <= 2 && (n == 0 <==> start == 0)
        invariant pending == Range(Run(start, n)) && pending <= Frames(multiset(entries[..j]))
        invariant Pages(heap.core.blocks) == old(Pages(heap.core.blocks)) + (Frames(multiset(entries[..j])) - pending)
      {
        NextEntry(entries, j);
        var phys := entries[j];
        if phys == 0 {
          if start != 0 {
            FreeRun(start, n);
            start, prev, n := 0, 0, 0;
          }
        } else if prev == 0 {
          start, prev, n := phys, phys, 1;
        } else if prev + 1 == phys {
          n := n + 1;
        } else {
          FreeRun(start, n);
          start, prev, n := phys, phys, 1;
        }
        pending := Range(Run(start, n));
      }
      assert entries[..|entries|] == entries;
      if n > 0 {
        FreeRun(start, n);
      }
    }

    /** Gives the frames of a page table back, and the page of the table itself. */
    method ReleaseTable(t: nat)
      requires heap.core.Valid() && t in tables && t != 0
      requires Once(TableHeld(t, tables)) && Frames(TableHeld(t, tables)) !! Pages(heap.core.blocks)
      requires AllRam(heap.core.ram, Frames(TableHeld(t, tables)))
      modifies heap.core`blocks
      ensures heap.core.Valid() && Pages(heap.core.blocks) == old(Pages(heap.core.blocks)) + Frames(TableHeld(t, tables))
    {
      MoreFrames(multiset(tables[t]), multiset{t});
      assert Frames(multiset{t}) == iset{t};
      assert forall p: nat :: Has(Run(t, 1), p) <==> p == t;
      ReleaseFrames(tables[t]);
      FreeRun(t, 1);
    }

    /** Gives a page table with its frames back, and the record that lists it. */
    method ReleaseListed(t: nat, node: nat, ghost m: multiset<nat>)
      requires heap.Valid() && t in tables && t != 0 && m == TableHeld(t, tables) && Once(m)
      requires Frames(m) !! heap.AllPages() && AllRam(heap.core.ram, Frames(m))
      modifies heap.core`blocks, heap`avail, heap`used
      ensures heap.Valid() && heap.AllPages() == old(heap.AllPages()) + Frames(m) && heap.used == Drop(old(heap.used), node)
    {
      ReleaseTable(t);
      heap.Kfree(node);
    }

    /** One round of the destruction of a segment, of whose pages the tables from `i` on still hold `left`. */
    method ReleaseNth(seg: Seg, i: nat, ghost left: multiset<nat>, ghost all: iset<nat>, ghost before: iset<nat>)
      returns (ghost rest: multiset<nat>)
      requires heap.Valid() && Linked(seg.pgtable, tables) && i < |seg.pgtable| == |seg.nodes|
      requires AllRam(heap.core.ram, all) && all !! before
      requires Remains(seg.pgtable, tables, i, left, all, before, heap.AllPages())
      modifies heap.core`blocks, heap`avail, heap`used
      ensures heap.Valid() && Remains(seg.pgtable, tables, i + 1, rest, all, before, heap.AllPages())
      ensures heap.used == Drop(old(heap.used), seg.nodes[i])
    {
      rest := FirstTable(seg.pgtable, tables, i, left);
      ghost var m := TableHeld(seg.pgtable[i], tables);
      FewerRemain(seg.pgtable, tables, i, left, rest, m, all, before, heap.AllPages());
      ReleaseListed(seg.pgtable[i], seg.nodes[i], m);
    }

    /** Gives all page tables of a segment back, each with its frames and its record. */
    method ReleaseTables(seg: Seg, ghost all: iset<nat>)
      requires heap.Valid() && Linked(seg.pgtable, tables) && |seg.nodes| == |seg.pgtable|
      requires Once(Held(seg.pgtable, tables)) && Frames(Held(seg.pgtable, tables)) == all
      requires all !! heap.AllPages() && AllRam(heap.core.ram, all)
      modifies heap.core`blocks, heap`avail, heap`used
      ensures heap.Valid() && heap.AllPages() == old(heap.AllPages()) + all
      ensures heap.used == DropAll(old(heap.used), seg.nodes)
    {
      ghost var left := Held(seg.pgtable, tables);
      assert seg.nodes[..0] == [];
      AllRemain(seg.pgtable, tables, left, all, heap.AllPages());
      for i := 0 to |seg.pgtable|
        invariant heap.Valid() && Remains(seg.pgtable, tables, i, left, all, old(heap.AllPages()), heap.AllPages())
        invariant heap.used == DropAll(old(heap.used), seg.nodes[..i])
      {
        NextDropped(old(heap.used), seg.nodes, i);
        left := ReleaseNth(seg, i, left, all, old(heap.AllPages()));
      }
      assert seg.nodes[..|seg.nodes|] == seg.nodes;
      NoneRemain(seg.pgtable, tables, left, all, old(heap.AllPages()), heap.AllPages());
    }

    /** Destroys a segment: gives the frames of each of its page tables back, then the table's page and its
        record, and in the end the segment's record. */
    method DestroySegment(seg: Seg)
      requires heap.Valid() && Linked(seg.pgtable, tables) && |seg.nodes| == |seg.pgtable|
      requires Once(Held(seg.pgtable, tables)) && Frames(Held(seg.pgtable, tables)) !! heap.AllPages()
      requires AllRam(heap.core.ram, Frames(Held(seg.pgtable, tables)))
      modifies heap.core`blocks, heap`avail, heap`used
      ensures heap.Valid() && heap.AllPages() == old(heap.AllPages()) + Frames(Held(seg.pgtable, tables))
      ensures heap.used == DropAll(old(heap.used), seg.nodes + [seg.record])
    {
      DropAllSnoc(heap.used, seg.nodes, seg.record);
      ReleaseTables(seg, Frames(Held(seg.pgtable, tables)));
      heap.Kfree(seg.record);
    }

    /** Takes a page for a page table off the page allocator, and a record to list it; neither without the
        other. */
    method TakePage() returns (ok: bool, t: nat, node: nat)
      requires Valid()
      modifies heap.core`blocks, heap`avail, heap`used, heap`acquired, heap`poolPages, heap`pool
      ensures heap.Valid() && Took(old(heap.State()), heap.State(), ok)
      ensures if ok then t in old(heap.AllPages()) && heap.AllPages() == old(heap.AllPages()) - iset{t}
                         && heap.used == [Run(node, NODE_SIZE)] + old(heap.used)
              else heap.AllPages() == old(heap.AllPages()) && heap.used == old(heap.used)
    {
      var ch := heap.core.CoreAlloc(1);
      if ch.count < 1 {
        return false, 0, 0;
      }
      t := ch.page;
      assert forall p: nat :: Has(ch, p) <==> p == t;
      assert Range(ch) == iset{t} && heap.AllPages() == old(heap.AllPages()) - iset{t};
      var r, _ := heap.Kmalloc(NODE_SIZE);
      if r.None? {
        ReturnPage(ch, old(heap.AllPages()));
        return false, 0, 0;
      }
      return true, t, r.value;
    }

    /** Gives a page just taken back. */
    method ReturnPage(ch: Run, ghost before: iset<nat>)
      requires heap.Valid() && ch.count > 0 && AllRam(heap.core.ram, Range(ch)) && Range(ch) !! heap.AllPages()
      requires before == heap.AllPages() + Range(ch)
      modifies heap.core`blocks
      ensures heap.Valid() && heap.AllPages() == before
    {
      assert ch.page in Range(ch);
      heap.core.CoreFree(ch);
    }

    /** Makes a page table in a directory slot that has none, for a segment that has `pgtable` so far. */
    method AddTable(slot: nat, pgtable: seq<nat>, nodes: seq<nat>, ghost before: iset<nat>)
      returns (ok: bool, pgtable': seq<nat>, nodes': seq<nat>)
      requires Valid() && slot < ENTRIES && Linked(pgtable, tables) && Blank(pgtable, tables) && |nodes| == |pgtable|
      requires Owns(pgtable, tables, before, heap.AllPages())
      modifies this`pd, this`tables, heap.core`blocks, heap`avail, heap`used, heap`acquired, heap`poolPages, heap`pool
      ensures Valid() && Linked(pgtable', tables) && Blank(pgtable', tables) && |nodes'| == |pgtable'|
      ensures Owns(pgtable', tables, before, heap.AllPages())
      ensures Took(old(heap.State()), heap.State(), ok)
      ensures if ok then (exists t, node :: pgtable' == pgtable + [t] && nodes' == nodes + [node] && pd == old(pd)[slot := t]
                                            && heap.used == [Run(node, NODE_SIZE)] + old(heap.used))
              else pgtable' == pgtable && nodes' == nodes && pd == old(pd) && heap.used == old(heap.used)
    {
      var t, node;
      ok, t, node := TakePage();
      if !ok {
        return false, pgtable, nodes;
      }
      OwnsWith(pgtable, tables, before, old(heap.AllPages()), t);
      tables := tables[t := Empty()];
      pd := pd[slot := t];
      return true, pgtable + [t], nodes + [node];
    }

    /** The page tables in the directory slots from `first` on, with the records that list them, are all that was
        taken since the directory, the used blocks and the pages were these. */
    ghost predicate Expanded(pd0: seq<nat>, used: seq<Run>, pages: iset<nat>, first: nat, pgtable: seq<nat>, nodes: seq<nat>)
      reads this, heap, heap.core
    {
      var ok :=
        && Valid() && Linked(pgtable, tables) && Owns(pgtable, tables, pages, heap.AllPages()) && Blank(pgtable, tables)
        && InSlots(pd0, pd, first, pgtable) && |nodes| == |pgtable| && heap.used == Records(nodes) + used;
      ok
    }

    /** One more page table, in the next directory slot. */
    method ExpandOnce(slot: nat, pgtable: seq<nat>, nodes: seq<nat>, ghost pd0: seq<nat>, ghost used: seq<Run>,
                      ghost pages: iset<nat>, ghost first: nat, ghost st: Store, ghost path: seq<Store>)
      returns (ok: bool, pgtable': seq<nat>, nodes': seq<nat>, ghost path': seq<Store>)
      requires Expanded(pd0, used, pages, first, pgtable, nodes) && slot == first + |pgtable| < ENTRIES
      requires path != [] && Trail(TakeTable, st, path, heap.State(), true)
      modifies this`pd, this`tables, heap.core`blocks, heap`avail, heap`used, heap`acquired, heap`poolPages, heap`pool
      ensures Expanded(pd0, used, pages, first, pgtable', nodes')
      ensures |pgtable'| == if ok then |pgtable| + 1 else |pgtable|
      ensures |path'| == (if ok then |path| + 1 else |path|) && Trail(TakeTable, st, path', heap.State(), ok)
    {
      ghost var now := heap.State();
      ok, pgtable', nodes' := AddTable(slot, pgtable, nodes, pages);
      TrailOn(TakeTable, st, path, now, heap.State(), ok);
      path' := if ok then path + [heap.State()] else path;
      if ok {
        RecordsSnoc(nodes, nodes', used);
      }
    }

    /** Makes page tables for all directory slots from `first` to `last`, which have none. On failure the
        tables made so far are left in the list. */
    method ExpandPageTables(first: nat, last: nat) returns (ok: bool, pgtable: seq<nat>, nodes: seq<nat>, ghost path: seq<Store>)
      requires Valid() && first <= last < ENTRIES && forall x :: first <= x <= last ==> pd[x] == 0
      modifies this`pd, this`tables, heap.core`blocks, heap`avail, heap`used, heap`acquired, heap`poolPages, heap`pool
      ensures Expanded(old(pd), old(heap.used), old(heap.AllPages()), first, pgtable, nodes)
      ensures (ok <==> |pgtable| == last - first + 1) && |pgtable| <= last - first + 1
      ensures |path| == |pgtable| + 1 && Trail(TakeTable, old(heap.State()), path, heap.State(), ok)
    {
      pgtable, nodes, path := [], [], [heap.State()];
      var slot := first;
      ghost var pd0, used, pages, st := pd, heap.used, heap.AllPages(), heap.State();
      assert Frames(multiset{}) == iset{} && Records([]) + used == used;
      while slot <= last
        invariant first <= slot <= last + 1 && |pgtable| == slot - first
        invariant Expanded(pd0, used, pages, first, pgtable, nodes) && |path| == |pgtable| + 1 && Trail(TakeTable, st, path, heap.State(), true)
      {
        StillFree(pd0, pd, first, pgtable, slot);
        if pd[slot] == 0 {
          ok, pgtable, nodes, path := ExpandOnce(slot, pgtable, nodes, pd0, used, pages, first, st, path);
          if !ok {
            return;
          }
        }
        slot := slot + 1;
      }
      return true, pgtable, nodes, path;
    }

    /** Sets the page table entry of logical page `p` to a frame. */
    method MapPage(p: nat, frame: nat, ghost first: nat, ghost pgtable: seq<nat>, ghost held: iset<nat>)
      requires Holds(pgtable, tables, held) && Slots(pd, first, pgtable)
      requires first * ENTRIES <= p < (first + |pgtable|) * ENTRIES
      requires EntryAt(pd, tables, p) == 0 && frame != 0 && frame !in held
      modifies this`tables
      ensures Holds(pgtable, tables, held + iset{frame})
      ensures Mapped(pd, old(tables), tables, first, |pgtable|, p, Run(frame, 1))
    {
      PageMapped(pd, tables, first, pgtable, p, frame, held);
      var pt := pd[p / ENTRIES];
      tables := tables[pt := tables[pt][p % ENTRIES := frame]];
    }

    /** Maps the pages of one fragment from logical page `cur` on. */
    method MapFragment(ch: Run, cur: nat, ghost first: nat, ghost pgtable: seq<nat>, ghost held: iset<nat>)
      requires Holds(pgtable, tables, held) && Slots(pd, first, pgtable)
      requires first * ENTRIES <= cur && cur + ch.count <= (first + |pgtable|) * ENTRIES
      requires Unmapped(pd, tables, cur, cur + ch.count) && Range(ch) !! held && 0 !in Range(ch)
      modifies this`tables
      ensures Holds(pgtable, tables, held + Range(ch))
      ensures Mapped(pd, old(tables), tables, first, |pgtable|, cur, ch)
    {
      NothingMapped(pd, tables, first, |pgtable|, cur, ch.page, held);
      for j := 0 to ch.count
        invariant Holds(pgtable, tables, held + Range(Run(ch.page, j)))
        invariant Mapped(pd, old(tables), tables, first, |pgtable|, cur, Run(ch.page, j))
      {
        OnePageMore(pd, old(tables), tables, first, |pgtable|, cur, ch, j, held);
        label L: MapPage(cur + j, ch.page + j, first, pgtable, held + Range(Run(ch.page, j)));
        MappedOn(pd, old(tables), old@L(tables), tables, first, |pgtable|, cur, ch.page, j);
      }
    }

    /** Maps all fragments, one after the other, from logical page `start` on. */
    method MapFragments(chs: seq<Run>, start: nat, ghost first: nat, ghost pgtable: seq<nat>, ghost held: iset<nat>)
      requires Holds(pgtable, tables, held) && Slots(pd, first, pgtable)
      requires first * ENTRIES <= start && start + Total(chs) <= (first + |pgtable|) * ENTRIES
      requires Unmapped(pd, tables, start, start + Total(chs)) && Apart(chs) && Pages(chs) !! held && 0 !in Pages(chs)
      modifies this`tables
      ensures Holds(pgtable, tables, held + Pages(chs))
      ensures Laid(pd, old(tables), tables, first, |pgtable|, start, chs)
    {
      var cur := start;
      assert chs[..0] == [] && held + Pages([]) == held;
      for i := 0 to |chs|
        invariant cur == start + Total(chs[..i]) && Holds(pgtable, tables, held + Pages(chs[..i]))
        invariant Laid(pd, old(tables), tables, first, |pgtable|, start, chs[..i])
      {
        NextFragment(pd, old(tables), tables, first, |pgtable|, start, chs, i, held);
        label L: MapFragment(chs[i], cur, first, pgtable, held + Pages(chs[..i]));
        LaidOn(pd, old(tables), old@L(tables), tables, first, |pgtable|, start, chs, i);
        cur := cur + chs[i].count;
      }
      assert chs[..|chs|] == chs;
    }

    /** Sets the entry of a page beyond the segment's tables, in a directory slot without a table: it goes to
        the page at address 0. */
    method MapOutside(p: nat, frame: nat, ghost first: nat, ghost pgtable: seq<nat>, ghost held: iset<nat>)
      requires Holds(pgtable, tables, held) && Slots(pd, first, pgtable) && p / ENTRIES < |pd| && pd[p / ENTRIES] == 0
      modifies this`tables
      ensures Holds(pgtable, tables, held)
      ensures forall q :: first * ENTRIES <= q < (first + |pgtable|) * ENTRIES ==> EntryAt(pd, tables, q) == EntryAt(pd, old(tables), q)
    {
      var pt := pd[p / ENTRIES];
      var low: Table := if pt in tables then tables[pt] else Empty();
      OutsideUnaffected(pd, tables, first, pgtable, held, low[p % ENTRIES := frame]);
      tables := tables[pt := low[p % ENTRIES := frame]];
    }

    /** Maps all fragments, of which just the last page may lie beyond the segment's tables. */
    method MapAll(chs: seq<Run>, start: nat, ghost first: nat, pgtable: seq<nat>, ghost held: iset<nat>, limit: nat)
      returns (ghost lost: iset<nat>)
      requires Holds(pgtable, tables, held) && Slots(pd, first, pgtable) && limit == (first + |pgtable|) * ENTRIES
      requires first * ENTRIES <= start <= limit && start + Total(chs) <= limit + 1
      requires start + Total(chs) > limit ==> first + |pgtable| < |pd| && pd[first + |pgtable|] == 0
      requires Unmapped(pd, tables, first * ENTRIES, limit) && Apart(chs) && Pages(chs) !! held && 0 !in Pages(chs)
      requires forall i :: 0 <= i < |chs| ==> chs[i].count > 0
      modifies this`tables
      ensures lost == Lost(chs, start, limit) && Holds(pgtable, tables, held + (Pages(chs) - lost))
      ensures Located(pd, tables, first, |pgtable|, start, chs)
    {
      lost := Lost(chs, start, limit);
      TotalCovers(chs);
      if start + Total(chs) <= limit {
        MapFragments(chs, start, first, pgtable, held);
        assert Pages(chs) - iset{} == Pages(chs);
      } else {
        var last := chs[|chs| - 1];
        var most := chs[..|chs| - 1] + [Run(last.page, last.count - 1)];
        AllButLast(chs, most);
        MapFragments(most, start, first, pgtable, held);
        ghost var tables1 := tables;
        MapOutside(limit, LastPage(last), first, pgtable, held + Pages(most));
        LocatedMost(pd, old(tables), tables1, tables, first, |pgtable|, start, chs, most);
        assert Pages(most) == Pages(chs) - lost;
      }
    }

    /** Allocates `np` pages and maps them from logical page `start` on. A page mapped beyond the segment's tables
        is lost to it. */
    method Populate(np: nat, start: nat, pgtable: seq<nat>, ghost first: nat, ghost before: iset<nat>, limit: nat)
      returns (ok: bool, ghost chs: seq<Run>, ghost lost: iset<nat>)
      requires Valid() && Linked(pgtable, tables) && Owns(pgtable, tables, before, heap.AllPages())
      requires Slots(pd, first, pgtable) && Blank(pgtable, tables) && limit == (first + |pgtable|) * ENTRIES
      requires first * ENTRIES <= start <= limit && start + np <= limit + 1
      requires start + np > limit ==> first + |pgtable| < |pd| && pd[first + |pgtable|] == 0
      modifies this`tables, heap.core`blocks
      ensures Valid() && Linked(pgtable, tables) && lost <= before && Owns(pgtable, tables, before - lost, heap.AllPages())
      ensures ok <==> np <= Most(old(heap.core.blocks), MAX_FRAGMENTS)
      ensures ok ==> Total(chs) == np && Located(pd, tables, first, |pgtable|, start, chs) && lost == Lost(chs, start, limit)
      ensures !ok ==> lost == iset{}
    {
      var runs;
      ok, runs := heap.core.CoreAllocN(np, MAX_FRAGMENTS);
      chs, lost := runs, iset{};
      if ok {
        lost := MapNew(runs, start, pgtable, first, old(heap.AllPages()), before, limit);
      } else {
        assert before - iset{} == before;
      }
    }

    /** Maps pages just taken off the page allocator, when all pages were `all`. */
    method MapNew(runs: seq<Run>, start: nat, pgtable: seq<nat>, ghost first: nat, ghost all: iset<nat>, ghost before: iset<nat>, limit: nat)
      returns (ghost lost: iset<nat>)
      requires heap.Valid() && 0 !in all && Linked(pgtable, tables) && Owns(pgtable, tables, before, all)
      requires Apart(runs) && (forall i :: 0 <= i < |runs| ==> runs[i].count > 0) && Pages(runs) <= all && heap.AllPages() == all - Pages(runs)
      requires Slots(pd, first, pgtable) && Blank(pgtable, tables) && limit == (first + |pgtable|) * ENTRIES
      requires first * ENTRIES <= start <= limit && start + Total(runs) <= limit + 1
      requires start + Total(runs) > limit ==> first + |pgtable| < |pd| && pd[first + |pgtable|] == 0
      modifies this`tables
      ensures Linked(pgtable, tables) && lost <= before && Owns(pgtable, tables, before - lost, heap.AllPages())
      ensures Located(pd, tables, first, |pgtable|, start, runs) && lost == Lost(runs, start, limit)
    {
      ghost var held := Frames(Held(pgtable, tables));
      BlankUnmapped(pd, tables, first, pgtable);
      assert Pages(runs) !! held && 0 !in Pages(runs);
      lost := MapAll(runs, start, first, pgtable, held, limit);
      LostIsTaken(runs, start, limit);
    }

    /** Creates the segment of a region. On failure everything allocated is given back, but the directory
        keeps the page tables made so far, whose pages are free again. `lost` is the page mapped beyond the
        segment's tables, if any. */
    method CreateSegment(start: nat, end: nat, populate: bool) returns (ok: bool, seg: Seg, ghost chs: seq<Run>, ghost lost: iset<nat>)
      requires Valid() && Placeable(pd, start, end)
      modifies this`pd, this`tables, heap.core`blocks, heap`avail, heap`used, heap`acquired, heap`poolPages, heap`pool
      ensures Valid() && InSlots(old(pd), pd, start / SPAN, seg.pgtable) && Linked(seg.pgtable, tables) && |seg.nodes| == |seg.pgtable|
      ensures ok <==> CanCreate(old(heap.State()), recordSize, TablesFor(start, end), PagesOf(start, end, populate))
      ensures lost <= old(heap.AllPages()) && (lost == iset{} <==> !(ok && populate && !TablesCover(start, end)))
      ensures ok ==> Built(seg, chs, start, end, populate) && Owns(seg.pgtable, tables, old(heap.AllPages()) - lost, heap.AllPages())
      ensures ok ==> heap.used == Records(seg.nodes) + [Run(seg.record, recordSize)] + old(heap.used)
      ensures !ok ==> heap.AllPages() == old(heap.AllPages()) && heap.used == old(heap.used)
      ensures !ok ==> (pd == old(pd) <==> seg.pgtable == []) && forall t :: t in seg.pgtable ==> t in Pages(heap.core.blocks)
      ensures !ok && pd != old(pd) <==> LeavesStale(old(heap.State()), recordSize, TablesFor(start, end), PagesOf(start, end, populate))
    {
      ghost var before, st, n, pages := heap.AllPages(), heap.State(), TablesFor(start, end), PagesOf(start, end, populate);
      assert AllRam(heap.core.ram, before);
      var r, _ := heap.Kmalloc(recordSize);
      if r.None? {
        return false, Seg(0, [], []), [], iset{};
      }
      ghost var path, now, made;
      ok, seg, chs, lost, path, now, made := BuildOrUndo(r.value, start, end, populate, before, old(heap.used));
      Foretold(st, recordSize, path, now, made, ok, n, pages);
    }

    /** Builds a segment whose record was allocated when the pages were `before` and the used blocks `used`; or gives
        everything back. */
    method BuildOrUndo(record: nat, start: nat, end: nat, populate: bool, ghost before: iset<nat>, ghost used: seq<Run>)
      returns (ok: bool, seg: Seg, ghost chs: seq<Run>, ghost lost: iset<nat>, ghost path: seq<Store>, ghost now: Store, ghost made: bool)
      requires Valid() && Placeable(pd, start, end) && heap.AllPages() == before && AllRam(heap.core.ram, before)
      requires heap.used == [Run(record, recordSize)] + used
      modifies this`pd, this`tables, heap.core`blocks, heap`avail, heap`used, heap`acquired, heap`poolPages, heap`pool
      ensures Valid() && InSlots(old(pd), pd, start / SPAN, seg.pgtable) && Linked(seg.pgtable, tables) && |seg.nodes| == |seg.pgtable|
      ensures |path| == |seg.pgtable| + 1 && Trail(TakeTable, old(heap.State()), path, now, made)
      ensures (made <==> |seg.pgtable| == TablesFor(start, end)) && |seg.pgtable| <= TablesFor(start, end)
      ensures ok <==> made && PagesOf(start, end, populate) <= Most(now.blocks, MAX_FRAGMENTS)
      ensures lost <= before && (lost == iset{} <==> !(ok && populate && !TablesCover(start, end)))
      ensures ok ==> Built(seg, chs, start, end, populate) && Owns(seg.pgtable, tables, before - lost, heap.AllPages())
      ensures ok ==> heap.used == Records(seg.nodes) + [Run(seg.record, recordSize)] + used
      ensures !ok ==> heap.AllPages() == before && heap.used == used
      ensures !ok ==> (pd == old(pd) <==> seg.pgtable == []) && forall t :: t in seg.pgtable ==> t in Pages(heap.core.blocks)
    {
      ok, seg, chs, lost, path, now, made := BuildSegment(record, start, end, populate);
      assert Records(seg.nodes) + ([Run(record, recordSize)] + used) == Records(seg.nodes) + [Run(record, recordSize)] + used;
      if !ok {
        TablesHeld(seg.pgtable, tables);
        assert before - iset{} == before;
        Undo(seg, before, used);
        SlotsChanged(old(pd), pd, start / SPAN, seg.pgtable, tables);
      }
    }

    /** What is mapped once a segment is built: just the frames allocated for it, in order. */
    ghost predicate Built(seg: Seg, chs: seq<Run>, start: nat, end: nat, populate: bool)
      requires start <= end
      reads this
    {
      var ok :=
        && |seg.pgtable| == end / SPAN - start / SPAN + 1 && Total(chs) == (if populate then RegionPages(start, end) else 0)
        && Located(pd, tables, start / SPAN, |seg.pgtable|, CeilPage(start), chs);
      ok
    }

    /** Makes the page tables of a segment whose record is allocated, and maps its pages. */
    method BuildSegment(record: nat, start: nat, end: nat, populate: bool)
      returns (ok: bool, seg: Seg, ghost chs: seq<Run>, ghost lost: iset<nat>, ghost path: seq<Store>, ghost now: Store, ghost made: bool)
      requires Valid() && Placeable(pd, start, end)
      modifies this`pd, this`tables, heap.core`blocks, heap`avail, heap`used, heap`acquired, heap`poolPages, heap`pool
      ensures Valid() && InSlots(old(pd), pd, start / SPAN, seg.pgtable) && Linked(seg.pgtable, tables) && |seg.nodes| == |seg.pgtable|
      ensures |path| == |seg.pgtable| + 1 && Trail(TakeTable, old(heap.State()), path, now, made) && (made <==> |seg.pgtable| == TablesFor(start, end))
      ensures ok <==> made && PagesOf(start, end, populate) <= Most(now.blocks, MAX_FRAGMENTS)
      ensures seg.record == record && heap.used == Records(seg.nodes) + old(heap.used)
      ensures |seg.pgtable| <= end / SPAN - start / SPAN + 1
      ensures lost <= old(heap.AllPages()) && Owns(seg.pgtable, tables, old(heap.AllPages()) - lost, heap.AllPages())
      ensures lost == iset{} <==> !(ok && populate && !TablesCover(start, end))
      ensures ok ==> Built(seg, chs, start, end, populate)
    {
      ghost var before := heap.AllPages();
      assert before - iset{} == before;
      ok, seg, path := Furnish(record, start / SPAN, end / SPAN);
      chs, lost, now, made := [], iset{}, heap.State(), ok;
      SlotsFilled(old(pd), pd, start / SPAN, seg.pgtable);
      RegionFits(start, end);
      if ok && populate {
        ok, chs, lost := Populate(RegionPages(start, end), CeilPage(start), seg.pgtable, start / SPAN, before, (end / SPAN + 1) * ENTRIES);
        TotalCovers(chs);
      } else if ok {
        BlankUnmapped(pd, tables, start / SPAN, seg.pgtable);
      }
    }

    /** Makes the page tables of a segment whose record is allocated. */
    method Furnish(record: nat, first: nat, last: nat) returns (ok: bool, seg: Seg, ghost path: seq<Store>)
      requires Valid() && first <= last < ENTRIES && forall x :: first <= x <= last ==> pd[x] == 0
      modifies this`pd, this`tables, heap.core`blocks, heap`avail, heap`used, heap`acquired, heap`poolPages, heap`pool
      ensures Expanded(old(pd), old(heap.used), old(heap.AllPages()), first, seg.pgtable, seg.nodes) && seg.record == record
      ensures (ok <==> |seg.pgtable| == last - first + 1) && |seg.pgtable| <= last - first + 1
      ensures |path| == |seg.pgtable| + 1 && Trail(TakeTable, old(heap.State()), path, heap.State(), ok)
    {
      var pgtable, nodes;
      ok, pgtable, nodes, path := ExpandPageTables(first, last);
      seg := Seg(record, pgtable, nodes);
    }

    /** Destroys a segment that was made when the pages `before` and the blocks `used` were there. */
    method Undo(seg: Seg, ghost before: iset<nat>, ghost used: seq<Run>)
      requires Valid() && Linked(seg.pgtable, tables) && |seg.nodes| == |seg.pgtable|
      requires Owns(seg.pgtable, tables, before, heap.AllPages()) && AllRam(heap.core.ram, before) && 0 !in before
      requires heap.used == Records(seg.nodes) + [Run(seg.record, recordSize)] + used
      modifies heap.core`blocks, heap`avail, heap`used
      ensures Valid() && heap.AllPages() == before && heap.used == used
      ensures Frames(Held(seg.pgtable, tables)) <= Pages(heap.core.blocks)
    {
      ghost var kept := heap.acquired + heap.pool;
      assert kept !! Frames(Held(seg.pgtable, tables));
      AllDistinct(heap.avail, heap.used, heap.acquired);
      RecordsDropped(seg.nodes, Run(seg.record, recordSize), used);
      DestroySegment(seg);
      assert before - Frames(Held(seg.pgtable, tables)) + Frames(Held(seg.pgtable, tables)) == before;
    }

    /** A segment created and destroyed again leaves the records exactly as they were, and all pages but one mapped
        beyond its tables; if the byte allocator kept none of them, the list of free pages is the same list again. */
    method CreateThenDestroy(start: nat, end: nat, populate: bool) returns (ok: bool, ghost lost: iset<nat>)
      requires Valid() && Placeable(pd, start, end)
      modifies this`pd, this`tables, heap.core`blocks, heap`avail, heap`used, heap`acquired, heap`poolPages, heap`pool
      ensures Valid() && heap.used == old(heap.used) && heap.AllPages() == old(heap.AllPages()) - lost
      ensures ok <==> CanCreate(old(heap.State()), recordSize, TablesFor(start, end), PagesOf(start, end, populate))
      ensures lost <= old(heap.AllPages()) && (lost == iset{} <==> !(ok && populate && !TablesCover(start, end)))
      ensures lost == iset{} && heap.acquired + heap.pool == old(heap.acquired + heap.pool) ==> heap.core.blocks == old(heap.core.blocks)
    {
      ghost var before := heap.AllPages();
      ghost var blocks, kept := heap.core.blocks, heap.acquired + heap.pool;
      assert AllRam(heap.core.ram, before);
      var seg;
      ghost var chs;
      ok, seg, chs, lost := CreateSegment(start, end, populate);
      if ok {
        Undo(seg, before - lost, old(heap.used));
      } else {
        assert before - iset{} == before;
      }
      if lost == iset{} && heap.acquired + heap.pool == kept {
        SameList(heap.core.blocks, blocks, kept, before);
      }
    }
  }

  /** Bytes a page table covers. */
  const SPAN: nat := 0x400000

  function CeilPage(address: nat): nat {
    (address + 4095) / 4096
  }

  /** Pages allocated for a region. */
  function RegionPages(start: nat, end: nat): nat
    requires start <= end
  {
    CeilPage(end) - start / 4096
  }

  /** Page tables made for a region, and pages allocated for it. */
  function TablesFor(start: nat, end: nat): nat
    requires start <= end
  {
    end / SPAN - start / SPAN + 1
  }

  function PagesOf(start: nat, end: nat, populate: bool): nat
    requires start <= end
  {
    if populate then RegionPages(start, end) else 0
  }

  /** The page tables made for a region cover all pages that get mapped. */
  predicate TablesCover(start: nat, end: nat)
    requires start <= end
  {
    CeilPage(start) + RegionPages(start, end) <= (end / SPAN + 1) * ENTRIES
  }

  /** The region is below the last directory slot, and the slots of all pages that get mapped are free. */
  predicate Placeable(pd: seq<nat>, start: nat, end: nat) {
    var ok := start <= end < (ENTRIES - 1) * SPAN && |pd| == ENTRIES
              && (forall x :: start / SPAN <= x <= end / SPAN ==> pd[x] == 0)
              && (!TablesCover(start, end) ==> pd[end / SPAN + 1] == 0);
    ok
  }

  /** At most one page gets mapped beyond the page tables made for a region. */
  lemma RegionFits(start: nat, end: nat)
    requires start <= end
    ensures (start / SPAN) * ENTRIES <= CeilPage(start) <= (end / SPAN + 1) * ENTRIES
    ensures CeilPage(start) + RegionPages(start, end) <= (end / SPAN + 1) * ENTRIES + 1
  {
    assert CeilPage(start) <= start / 4096 + 1;
    assert CeilPage(end) <= (end / SPAN + 1) * ENTRIES && CeilPage(start) <= CeilPage(end);
  }

  /** The page mapped beyond the tables, if any. */
  ghost function Lost(chs: seq<Run>, start: nat, limit: nat): iset<nat> {
    if chs == [] || start + Total(chs) <= limit then iset{}
    else iset{LastPage(chs[|chs| - 1])}
  }

  function LastPage(ch: Run): nat {
    if ch.count == 0 then ch.page else ch.page + ch.count - 1
  }

  lemma TotalCovers(chs: seq<Run>)
    ensures Total(chs) > 0 ==> chs != []
  {
  }

  lemma LostIsTaken(chs: seq<Run>, start: nat, limit: nat)
    requires forall i :: 0 <= i < |chs| ==> chs[i].count > 0
    ensures Lost(chs, start, limit) <= Pages(chs)
  {
    if chs != [] && start + Total(chs) > limit {
      forall p | p in Lost(chs, start, limit) ensures p in Pages(chs) {
        HasIn(chs, |chs| - 1, p);
      }
    }
  }

  /** A run without its last page. */
  lemma ShorterRun(last: Run, less: Run)
    requires last.count > 0 && less == Run(last.page, last.count - 1)
    ensures Range(less) <= Range(last) && Range(last) == Range(less) + iset{LastPage(last)}
    ensures LastPage(last) in Range(last) && LastPage(last) !in Range(less)
  {
    assert forall p: nat :: Has(last, p) <==> Has(less, p) || p == LastPage(last);
  }

  /** The fragments without their last page. */
  lemma AllButLast(chs: seq<Run>, most: seq<Run>)
    requires chs != [] && Apart(chs) && chs[|chs| - 1].count > 0
    requires most == chs[..|chs| - 1] + [Run(chs[|chs| - 1].page, chs[|chs| - 1].count - 1)]
    ensures Total(most) == Total(chs) - 1 && Apart(most)
    ensures Pages(most) == Pages(chs) - iset{LastPage(chs[|chs| - 1])}
  {
    var n := |chs| - 1;
    var last, less := chs[n], Run(chs[n].page, chs[n].count - 1);
    ShorterRun(last, less);
    LastFragment(chs, n + 1);
    assert chs[..n + 1] == chs;
    FrontApart(chs, n);
    ReplacedLast(chs[..n], last, less, chs, most);
  }

  lemma FrontApart(chs: seq<Run>, n: nat)
    requires Apart(chs) && n <= |chs|
    ensures Apart(chs[..n])
  {
    var front := chs[..n];
    forall i, j | 0 <= i < j < |front| ensures Range(front[i]) !! Range(front[j]) {
      assert front[i] == chs[i] && front[j] == chs[j];
    }
  }

  lemma ReplacedLast(front: seq<Run>, last: Run, less: Run, chs: seq<Run>, most: seq<Run>)
    requires chs == front + [last] && most == front + [less] && Apart(front) && Range(last) !! Pages(front)
    requires last.count > 0 && less == Run(last.page, last.count - 1)
    requires Range(last) == Range(less) + iset{LastPage(last)} && LastPage(last) !in Range(less)
    ensures Total(most) == Total(chs) - 1 && Apart(most) && Pages(most) == Pages(chs) - iset{LastPage(last)}
  {
    OneMore(front, last);
    OneMore(front, less);
  }

  /** The page mapped outside changes none of the segment's own. */
  lemma LocatedMost(pd: seq<nat>, before: map<nat, Table>, mid: map<nat, Table>, now: map<nat, Table>, first: nat, n: nat,
                    start: nat, chs: seq<Run>, most: seq<Run>)
    requires chs != [] && chs[|chs| - 1].count > 0
    requires most == chs[..|chs| - 1] + [Run(chs[|chs| - 1].page, chs[|chs| - 1].count - 1)]
    requires start + Total(chs) == (first + n) * ENTRIES + 1 && Laid(pd, before, mid, first, n, start, most)
    requires Unmapped(pd, before, first * ENTRIES, (first + n) * ENTRIES)
    requires forall q :: first * ENTRIES <= q < (first + n) * ENTRIES ==> EntryAt(pd, now, q) == EntryAt(pd, mid, q)
    ensures Located(pd, now, first, n, start, chs)
  {
    var front := chs[..|chs| - 1];
    assert most[..|most| - 1] == front;
    assert Total(most) == Total(chs) - 1;
    assert forall k: nat :: k < Total(most) ==> FrameAt(most, k) == FrameAt(chs, k);
  }

  lemma OutsideUnaffected(pd: seq<nat>, tables: map<nat, Table>, first: nat, pgtable: seq<nat>, held: iset<nat>, low: Table)
    requires Holds(pgtable, tables, held) && Slots(pd, first, pgtable)
    ensures Holds(pgtable, tables[0 := low], held)
    ensures forall q :: first * ENTRIES <= q < (first + |pgtable|) * ENTRIES ==>
              EntryAt(pd, tables[0 := low], q) == EntryAt(pd, tables, q)
  {
    assert 0 !in pgtable;
    Unaffected(pgtable, tables, 0, low);
    forall q | first * ENTRIES <= q < (first + |pgtable|) * ENTRIES
      ensures EntryAt(pd, tables[0 := low], q) == EntryAt(pd, tables, q)
    {
      SlotOf(pd, first, pgtable, q);
    }
  }

  /** A page table was taken out of the store, or could not be. */
  ghost predicate Took(st: Store, st': Store, ok: bool) {
    (ok <==> CanTakeTable(st)) && (ok ==> st' == TableTaken(st))
  }

  /** From `s` on a step was repeated, until that was often enough or it could not be. */
  ghost predicate Trail<S>(next: S -> Option<S>, s: S, path: seq<S>, now: S, ok: bool) {
    forall i :: 0 <= i < |path| ==> TrailAt(next, s, path, now, ok, i)
  }

  ghost predicate TrailAt<S>(next: S -> Option<S>, s: S, path: seq<S>, now: S, ok: bool, i: nat)
    requires i < |path|
  {
    && (i == 0 ==> path[i] == s)
    && (if i + 1 < |path| then next(path[i]) == Some(path[i + 1]) else if ok then now == path[i] else next(path[i]) == None)
  }

  lemma TrailOn<S>(next: S -> Option<S>, s: S, path: seq<S>, now: S, now': S, ok: bool)
    requires path != [] && Trail(next, s, path, now, true) && (if ok then next(now) == Some(now') else next(now) == None)
    ensures Trail(next, s, if ok then path + [now'] else path, now', ok)
  {
    var path' := if ok then path + [now'] else path;
    forall i | 0 <= i < |path'| ensures TrailAt(next, s, path', now', ok, i) {
      if i < |path| {
        assert TrailAt(next, s, path, now, true, i);
      }
    }
  }

  /** Such a trail is as long as the step can be repeated. */
  lemma {:induction false} TrailIs<S>(next: S -> Option<S>, s: S, path: seq<S>, now: S, ok: bool, n: nat)
    requires path != [] && Trail(next, s, path, now, ok) && |path| - 1 <= n && (ok <==> |path| - 1 == n)
    ensures Times(next, s, n) == |path| - 1 && (ok ==> now == After(next, s, n))
    decreases n
  {
    assert TrailAt(next, s, path, now, ok, 0);
    if |path| > 1 {
      var s', rest := path[1], path[1..];
      forall i | 0 <= i < |rest| ensures TrailAt(next, s', rest, now, ok, i) {
        assert TrailAt(next, s, path, now, ok, i + 1);
      }
      TrailIs(next, s', rest, now, ok, n - 1);
    }
  }

  /** What becomes of a segment, foretold from the store before its record was allocated. */
  lemma Foretold(st: Store, record: nat, path: seq<Store>, now: Store, made: bool, ok: bool, n: nat, pages: nat)
    requires CanAlloc(st, record) && path != [] && Trail(TakeTable, Allocated(st, record), path, now, made)
    requires |path| - 1 <= n && (made <==> |path| - 1 == n) && (ok <==> made && pages <= Most(now.blocks, MAX_FRAGMENTS))
    ensures ok <==> CanCreate(st, record, n, pages)
    ensures !ok && |path| > 1 <==> LeavesStale(st, record, n, pages)
  {
    TrailIs(TakeTable, Allocated(st, record), path, now, made, n);
  }

  // ---- Records ----

  lemma {:induction false} DropAllSnoc(used: seq<Run>, ptrs: seq<nat>, ptr: nat)
    ensures DropAll(used, ptrs + [ptr]) == Drop(DropAll(used, ptrs), ptr)
    decreases |ptrs|
  {
    if ptrs == [] {
      assert ptrs + [ptr] == [ptr] && [ptr][1..] == [];
    } else {
      assert (ptrs + [ptr])[1..] == ptrs[1..] + [ptr];
      DropAllSnoc(Drop(used, ptrs[0]), ptrs[1..], ptr);
    }
  }

  lemma RecordsSnoc(nodes: seq<nat>, nodes': seq<nat>, used: seq<Run>)
    requires |nodes'| == |nodes| + 1 && nodes <= nodes'
    ensures [Run(nodes'[|nodes|], NODE_SIZE)] + (Records(nodes) + used) == Records(nodes') + used
  {
    assert nodes'[..|nodes|] == nodes;
  }

  ghost predicate Distinct(used: seq<Run>) {
    forall i, j :: 0 <= i < j < |used| ==> used[i].page != used[j].page
  }

  lemma AllDistinct(avail: seq<Run>, used: seq<Run>, acquired: iset<nat>)
    requires Partition(avail, used, acquired)
    ensures Distinct(used)
  {
    forall i, j | 0 <= i < j < |used| ensures used[i].page != used[j].page {
      assert used[i].page in Range(used[i]) && used[j].page in Range(used[j]);
    }
  }

  lemma {:induction false} RecordsCons(nodes: seq<nat>)
    requires nodes != []
    ensures Records(nodes) == Records(nodes[1..]) + [Run(nodes[0], NODE_SIZE)]
    decreases |nodes|
  {
    if |nodes| == 1 {
      assert nodes[..0] == [] && nodes[1..] == [];
    } else {
      var n := |nodes| - 1;
      var front := nodes[..n];
      RecordsCons(front);
      assert front[1..] == nodes[1..][..n - 1] && nodes[1..][n - 1] == nodes[n];
      assert Records(nodes[1..]) == [Run(nodes[n], NODE_SIZE)] + Records(front[1..]);
    }
  }

  lemma DropInner(a: seq<Run>, x: Run, b: seq<Run>)
    requires Distinct(a + [x] + b)
    ensures Drop(a + [x] + b, x.page) == a + b && Distinct(a + b)
  {
    var used := a + [x] + b;
    forall j | 0 <= j < |a| ensures used[j].page != x.page {
      assert used[|a|] == x;
    }
    DropAt(used, x.page, |a|);
    assert used[..|a|] == a && used[|a| + 1..] == b;
    assert forall i :: 0 <= i < |a + b| ==> (a + b)[i] == used[if i < |a| then i else i + 1];
  }

  lemma {:induction false} RecordsDropped(nodes: seq<nat>, record: Run, used: seq<Run>)
    requires Distinct(Records(nodes) + [record] + used)
    ensures DropAll(Records(nodes) + [record] + used, nodes + [record.page]) == used
    decreases |nodes|
  {
    if nodes == [] {
      DropInner([], record, used);
      assert nodes + [record.page] == [record.page] && [record.page][1..] == [];
      assert [] + used == used && Records(nodes) == [];
    } else {
      var rest := Records(nodes[1..]);
      var x := Run(nodes[0], NODE_SIZE);
      RecordsCons(nodes);
      assert Records(nodes) + [record] + used == rest + [x] + ([record] + used);
      DropInner(rest, x, [record] + used);
      assert rest + ([record] + used) == rest + [record] + used;
      assert (nodes + [record.page])[1..] == nodes[1..] + [record.page];
      RecordsDropped(nodes[1..], record, used);
    }
  }

  /** A region that starts on a page boundary is always covered. */
  lemma AlignedIsCovered(start: nat, end: nat)
    requires start <= end && start % 4096 == 0
    ensures TablesCover(start, end) && CeilPage(start) == start / 4096
  {
    assert CeilPage(start) == start / 4096;
    assert CeilPage(end) <= (end / SPAN + 1) * ENTRIES;
  }

  /** What gets mapped covers the region exactly if the region starts on a page boundary. */
  lemma RegionMappedIff(start: nat, end: nat)
    requires start < end
    ensures (forall a :: start <= a < end ==> CeilPage(start) <= a / 4096 < CeilPage(start) + RegionPages(start, end))
            <==> start % 4096 == 0
  {
    if start % 4096 != 0 {
      assert start / 4096 < CeilPage(start);
    }
  }

  /** The pages from `start` on are mapped to the fragments in order, and no other page is mapped. */
  ghost predicate Located(pd: seq<nat>, tables: map<nat, Table>, first: nat, n: nat, start: nat, chs: seq<Run>) {
    var ok := forall q :: first * ENTRIES <= q < (first + n) * ENTRIES ==>
                EntryAt(pd, tables, q) == if start <= q < start + Total(chs) then FrameAt(chs, q - start) else 0;
    ok
  }

  lemma BlankUnmapped(pd: seq<nat>, tables: map<nat, Table>, first: nat, pgtable: seq<nat>)
    requires Slots(pd, first, pgtable) && Blank(pgtable, tables)
    ensures Unmapped(pd, tables, first * ENTRIES, (first + |pgtable|) * ENTRIES)
  {
    forall q | first * ENTRIES <= q < (first + |pgtable|) * ENTRIES ensures EntryAt(pd, tables, q) == 0 {
      SlotOf(pd, first, pgtable, q);
    }
  }

  /** Just an empty list of page tables leaves the directory as it was. */
  lemma SlotsChanged(pd: seq<nat>, pd': seq<nat>, first: nat, pgtable: seq<nat>, tables: map<nat, Table>)
    requires InSlots(pd, pd', first, pgtable) && Linked(pgtable, tables) && forall x :: first <= x < first + |pgtable| ==> pd[x] == 0
    ensures pd' == pd <==> pgtable == []
  {
    if pgtable != [] {
      assert pd'[first] == pgtable[0];
    }
  }

  lemma SameList(l: seq<Run>, l': seq<Run>, kept: iset<nat>, all: iset<nat>)
    requires Canonical(l) && Canonical(l') && Pages(l) !! kept && Pages(l') !! kept
    requires kept + Pages(l) == all && kept + Pages(l') == all
    ensures l == l'
  {
    assert Pages(l) == all - kept && Pages(l') == all - kept;
    CanonicalUnique(l, l');
  }

  lemma StillFree(pd: seq<nat>, pd': seq<nat>, first: nat, pgtable: seq<nat>, slot: nat)
    requires InSlots(pd, pd', first, pgtable) && slot == first + |pgtable| < |pd|
    ensures slot < |pd'| && pd'[slot] == pd[slot]
  {
  }

  lemma SlotsFilled(pd: seq<nat>, pd': seq<nat>, first: nat, pgtable: seq<nat>)
    requires InSlots(pd, pd', first, pgtable)
    ensures Slots(pd', first, pgtable)
  {
  }

  lemma {:induction false} TablesHeld(pgtable: seq<nat>, tables: map<nat, Table>)
    requires Linked(pgtable, tables)
    ensures forall t :: t in pgtable ==> t in Frames(Held(pgtable, tables))
    decreases |pgtable|
  {
    if pgtable != [] {
      TablesHeld(pgtable[1..], tables);
      assert pgtable == [pgtable[0]] + pgtable[1..];
    }
  }

  /** The frame of the `k`-th page of a list of fragments. */
  ghost function FrameAt(chs: seq<Run>, k: nat): nat {
    if chs == [] then 0 else
    var rest := chs[..|chs| - 1];
    if k < Total(rest) then FrameAt(rest, k) else chs[|chs| - 1].page + (k - Total(rest))
  }

  /** The pages from `start` on map to the pages of the fragments, in order; the others are as they were. */
  ghost predicate Laid(pd: seq<nat>, before: map<nat, Table>, now: map<nat, Table>, first: nat, n: nat, start: nat,
                       chs: seq<Run>) {
    var ok := forall q :: first * ENTRIES <= q < (first + n) * ENTRIES ==>
                EntryAt(pd, now, q) == if start <= q < start + Total(chs) then FrameAt(chs, q - start) else EntryAt(pd, before, q);
    ok
  }

  lemma {:induction false} TotalOfPrefix(chs: seq<Run>, i: nat)
    requires i <= |chs|
    ensures Total(chs[..i]) <= Total(chs)
    decreases |chs| - i
  {
    if i == |chs| {
      assert chs[..i] == chs;
    } else {
      TotalOfPrefix(chs, i + 1);
      assert chs[..i + 1][..i] == chs[..i];
    }
  }

  lemma NextFragment(pd: seq<nat>, before: map<nat, Table>, now: map<nat, Table>, first: nat, n: nat, start: nat,
                     chs: seq<Run>, i: nat, held: iset<nat>)
    requires i < |chs| && Laid(pd, before, now, first, n, start, chs[..i])
    requires first * ENTRIES <= start && start + Total(chs) <= (first + n) * ENTRIES
    requires Unmapped(pd, before, start, start + Total(chs)) && Apart(chs) && Pages(chs) !! held && 0 !in Pages(chs)
    ensures var ch, cur := chs[i], start + Total(chs[..i]);
            && Total(chs[..i + 1]) == Total(chs[..i]) + ch.count && cur + ch.count <= start + Total(chs)
            && Unmapped(pd, now, cur, cur + ch.count) && Range(ch) !! held + Pages(chs[..i]) && 0 !in Range(ch)
            && (held + Pages(chs[..i])) + Range(ch) == held + Pages(chs[..i + 1])
  {
    assert chs[..i + 1][..i] == chs[..i];
    TotalOfPrefix(chs, i + 1);
    LastFragment(chs, i + 1);
    forall p | p in Range(chs[i]) ensures p in Pages(chs) {
      HasIn(chs, i, p);
    }
  }

  lemma LaidOn(pd: seq<nat>, before: map<nat, Table>, mid: map<nat, Table>, now: map<nat, Table>, first: nat, n: nat,
               start: nat, chs: seq<Run>, i: nat)
    requires i < |chs| && Laid(pd, before, mid, first, n, start, chs[..i])
    requires Mapped(pd, mid, now, first, n, start + Total(chs[..i]), chs[i])
    ensures Laid(pd, before, now, first, n, start, chs[..i + 1])
  {
    assert chs[..i + 1][..i] == chs[..i];
  }

  /** The segment holds exactly the pages `held`, each once. */
  ghost predicate Holds(pgtable: seq<nat>, tables: map<nat, Table>, held: iset<nat>) {
    var ok := Linked(pgtable, tables) && Once(Held(pgtable, tables)) && Frames(Held(pgtable, tables)) == held;
    ok
  }

  /** No page from `from` up to `to` is mapped. */
  ghost predicate Unmapped(pd: seq<nat>, tables: map<nat, Table>, from: nat, to: nat) {
    var ok := forall q :: from <= q < to ==> EntryAt(pd, tables, q) == 0;
    ok
  }

  /** The pages from `cur` on map to the frames of `ch`; the other pages of the `n` slots are as they were. */
  ghost predicate Mapped(pd: seq<nat>, before: map<nat, Table>, now: map<nat, Table>, first: nat, n: nat, cur: nat,
                         ch: Run) {
    var ok := forall q :: first * ENTRIES <= q < (first + n) * ENTRIES ==>
                EntryAt(pd, now, q) == if cur <= q < cur + ch.count then ch.page + (q - cur) else EntryAt(pd, before, q);
    ok
  }

  lemma NothingMapped(pd: seq<nat>, tables: map<nat, Table>, first: nat, n: nat, cur: nat, page: nat, held: iset<nat>)
    ensures Mapped(pd, tables, tables, first, n, cur, Run(page, 0)) && held + Range(Run(page, 0)) == held
  {
  }

  lemma OnePageMore(pd: seq<nat>, before: map<nat, Table>, now: map<nat, Table>, first: nat, n: nat, cur: nat, ch: Run,
                    j: nat, held: iset<nat>)
    requires Mapped(pd, before, now, first, n, cur, Run(ch.page, j)) && j < ch.count
    requires first * ENTRIES <= cur && cur + ch.count <= (first + n) * ENTRIES
    requires Unmapped(pd, before, cur, cur + ch.count) && Range(ch) !! held && 0 !in Range(ch)
    ensures EntryAt(pd, now, cur + j) == 0 && ch.page + j != 0 && ch.page + j !in held + Range(Run(ch.page, j))
    ensures (held + Range(Run(ch.page, j))) + iset{ch.page + j} == held + Range(Run(ch.page, j + 1))
  {
    assert ch.page + j in Range(ch);
  }

  lemma MappedOn(pd: seq<nat>, before: map<nat, Table>, mid: map<nat, Table>, now: map<nat, Table>, first: nat, n: nat,
                 cur: nat, page: nat, j: nat)
    requires Mapped(pd, before, mid, first, n, cur, Run(page, j))
    requires Mapped(pd, mid, now, first, n, cur + j, Run(page + j, 1))
    ensures Mapped(pd, before, now, first, n, cur, Run(page, j + 1))
  {
  }

  /** The directory has the segment's page tables in the slots from `first` on. */
  ghost predicate Slots(pd: seq<nat>, first: nat, pgtable: seq<nat>) {
    var ok := first + |pgtable| <= |pd| && forall i :: 0 <= i < |pgtable| ==> pd[first + i] == pgtable[i];
    ok
  }

  /** The frame a logical page is mapped to, 0 if to none. */
  ghost function EntryAt(pd: seq<nat>, tables: map<nat, Table>, p: nat): nat {
    if p / ENTRIES < |pd| && pd[p / ENTRIES] in tables then tables[pd[p / ENTRIES]][p % ENTRIES] else 0
  }

  lemma SwapIn(m: multiset<nat>, r: multiset<nat>, x: nat, f: nat)
    requires x in m
    ensures (m - multiset{x} + multiset{f}) + r == (m + r) - multiset{x} + multiset{f}
    ensures r + (m - multiset{x} + multiset{f}) == (r + m) - multiset{x} + multiset{f}
  {
  }

  lemma EntrySet(table: Table, t: nat, e: nat, f: nat)
    requires e < ENTRIES
    ensures table[e] in multiset(table) + multiset{t}
    ensures multiset(table[e := f]) + multiset{t} == (multiset(table) + multiset{t}) - multiset{table[e]} + multiset{f}
  {
    SwapIn(multiset(table), multiset{t}, table[e], f);
  }

  /** Setting an entry of one of the segment's page tables exchanges one held frame for another. */
  lemma {:induction false} HeldUpdate(pgtable: seq<nat>, tables: map<nat, Table>, i: nat, t: nat, e: nat, f: nat,
                                      tables': map<nat, Table>)
    requires Linked(pgtable, tables) && i < |pgtable| && t == pgtable[i] && t in tables && e < ENTRIES
    requires tables' == tables[t := tables[t][e := f]]
    ensures Held(pgtable, tables') == Held(pgtable, tables) - multiset{tables[t][e]} + multiset{f}
    decreases |pgtable|
  {
    if i == 0 {
      UpdatedHead(t, pgtable[1..], tables, e, f, tables');
    } else {
      HeldUpdate(pgtable[1..], tables, i - 1, t, e, f, tables');
      HasEntry(pgtable[1..], tables, i - 1, e);
      SwapIn(Held(pgtable[1..], tables), TableHeld(pgtable[0], tables), tables[t][e], f);
    }
  }

  lemma UpdatedHead(t: nat, rest: seq<nat>, tables: map<nat, Table>, e: nat, f: nat, tables': map<nat, Table>)
    requires t in tables && t !in rest && e < ENTRIES && tables' == tables[t := tables[t][e := f]]
    ensures TableHeld(t, tables') + Held(rest, tables') == (TableHeld(t, tables) + Held(rest, tables)) - multiset{tables[t][e]} + multiset{f}
  {
    Unaffected(rest, tables, t, tables[t][e := f]);
    EntrySet(tables[t], t, e, f);
    SwapIn(TableHeld(t, tables), Held(rest, tables), tables[t][e], f);
  }

  lemma {:induction false} HasEntry(pgtable: seq<nat>, tables: map<nat, Table>, i: nat, e: nat)
    requires i < |pgtable| && pgtable[i] in tables && e < ENTRIES
    ensures tables[pgtable[i]][e] in Held(pgtable, tables)
    decreases |pgtable|
  {
    if i > 0 {
      HasEntry(pgtable[1..], tables, i - 1, e);
    }
  }

  lemma {:induction false} Unaffected(pgtable: seq<nat>, tables: map<nat, Table>, t: nat, table: Table)
    requires t !in pgtable
    ensures Held(pgtable, tables[t := table]) == Held(pgtable, tables)
    decreases |pgtable|
  {
    if pgtable != [] {
      Unaffected(pgtable[1..], tables, t, table);
    }
  }

  lemma ZeroReplaced(h: multiset<nat>, f: nat)
    requires Once(h) && f != 0 && f !in Frames(h)
    ensures Once(h - multiset{0} + multiset{f}) && Frames(h - multiset{0} + multiset{f}) == Frames(h) + iset{f}
  {
    var h0 := h - multiset{0};
    assert forall x :: x != 0 ==> h0[x] == h[x];
    assert Once(h0) && Frames(h0) == Frames(h);
    AddFrame(h0, f);
  }

  lemma HoldsFrame(pgtable: seq<nat>, tables: map<nat, Table>, i: nat, pt: nat, e: nat, frame: nat, held: iset<nat>)
    requires Holds(pgtable, tables, held) && i < |pgtable| && pt == pgtable[i] && pt in tables && e < ENTRIES
    requires tables[pt][e] == 0 && frame != 0 && frame !in held
    ensures Holds(pgtable, tables[pt := tables[pt][e := frame]], held + iset{frame})
  {
    HeldUpdate(pgtable, tables, i, pt, e, frame, tables[pt := tables[pt][e := frame]]);
    ZeroReplaced(Held(pgtable, tables), frame);
  }

  lemma PageMapped(pd: seq<nat>, tables: map<nat, Table>, first: nat, pgtable: seq<nat>, p: nat, frame: nat, held: iset<nat>)
    requires Holds(pgtable, tables, held) && Slots(pd, first, pgtable)
    requires first * ENTRIES <= p < (first + |pgtable|) * ENTRIES
    requires EntryAt(pd, tables, p) == 0 && frame != 0 && frame !in held
    ensures p / ENTRIES < |pd| && pd[p / ENTRIES] in tables
    ensures var pt := pd[p / ENTRIES];
            var tables' := tables[pt := tables[pt][p % ENTRIES := frame]];
            Holds(pgtable, tables', held + iset{frame}) && Mapped(pd, tables, tables', first, |pgtable|, p, Run(frame, 1))
  {
    SlotOf(pd, first, pgtable, p);
    HoldsFrame(pgtable, tables, p / ENTRIES - first, pd[p / ENTRIES], p % ENTRIES, frame, held);
    OtherEntries(pd, tables, first, pgtable, p, frame);
  }

  lemma SlotOf(pd: seq<nat>, first: nat, pgtable: seq<nat>, p: nat)
    requires Slots(pd, first, pgtable) && first * ENTRIES <= p < (first + |pgtable|) * ENTRIES
    ensures first <= p / ENTRIES < first + |pgtable| <= |pd| && pd[p / ENTRIES] == pgtable[p / ENTRIES - first]
  {
    var i := p / ENTRIES - first;
    assert pd[first + i] == pgtable[i];
  }

  lemma OtherEntries(pd: seq<nat>, tables: map<nat, Table>, first: nat, pgtable: seq<nat>, p: nat, frame: nat)
    requires Linked(pgtable, tables) && Slots(pd, first, pgtable) && first * ENTRIES <= p < (first + |pgtable|) * ENTRIES
    ensures p / ENTRIES < |pd| && pd[p / ENTRIES] in tables
    ensures var pt := pd[p / ENTRIES];
            Mapped(pd, tables, tables[pt := tables[pt][p % ENTRIES := frame]], first, |pgtable|, p, Run(frame, 1))
  {
    SlotOf(pd, first, pgtable, p);
    var tables' := tables[pd[p / ENTRIES] := tables[pd[p / ENTRIES]][p % ENTRIES := frame]];
    forall q | first * ENTRIES <= q < (first + |pgtable|) * ENTRIES
      ensures EntryAt(pd, tables', q) == if q == p then frame else EntryAt(pd, tables, q)
    {
      SlotOf(pd, first, pgtable, q);
    }
  }

  /** The directory has the segment's page tables in the slots from `first` on, and is otherwise unchanged. */
  ghost predicate InSlots(pd: seq<nat>, pd': seq<nat>, first: nat, pgtable: seq<nat>) {
    var ok :=
      && |pd'| == |pd| && first + |pgtable| <= |pd|
      && forall x :: 0 <= x < |pd| ==> pd'[x] == if first <= x < first + |pgtable| then pgtable[x - first] else pd[x];
    ok
  }

  function Empty(): Table {
    seq(1024, _ => 0)
  }

  /** The segment holds, each once, exactly the pages that were free before and are not now. */
  ghost predicate Owns(pgtable: seq<nat>, tables: map<nat, Table>, before: iset<nat>, now: iset<nat>) {
    var ok := var h := Held(pgtable, tables);
              Once(h) && Frames(h) <= before && now == before - Frames(h);
    ok
  }

  /** All entries of the segment's page tables are unused. */
  ghost predicate Blank(pgtable: seq<nat>, tables: map<nat, Table>) {
    var ok := forall i :: 0 <= i < |pgtable| ==> pgtable[i] in tables && tables[pgtable[i]] == Empty();
    ok
  }

  lemma {:induction false} NotHeld(pgtable: seq<nat>, tables: map<nat, Table>, t: nat)
    requires Linked(pgtable, tables) && t != 0 && t !in Frames(Held(pgtable, tables))
    ensures t !in pgtable
    decreases |pgtable|
  {
    if pgtable != [] {
      NotHeld(pgtable[1..], tables, t);
      assert pgtable == [pgtable[0]] + pgtable[1..];
    }
  }

  /** Adding an empty page table adds just its page to what is held. */
  lemma {:induction false} HeldWith(pgtable: seq<nat>, tables: map<nat, Table>, t: nat)
    requires t !in pgtable
    ensures Held(pgtable + [t], tables[t := Empty()]) == Held(pgtable, tables) + multiset(Empty()) + multiset{t}
    decreases |pgtable|
  {
    if pgtable == [] {
      assert pgtable + [t] == [t] && [t][1..] == [];
    } else {
      assert (pgtable + [t])[1..] == pgtable[1..] + [t];
      HeldWith(pgtable[1..], tables, t);
      assert TableHeld(pgtable[0], tables[t := Empty()]) == TableHeld(pgtable[0], tables);
    }
  }

  lemma AddEmpty(h: multiset<nat>)
    requires Once(h)
    ensures Once(h + multiset(Empty())) && Frames(h + multiset(Empty())) == Frames(h)
  {
    forall f | f in h + multiset(Empty()) && f != 0 ensures f in h && (h + multiset(Empty()))[f] == h[f] {
      assert f !in Empty();
    }
  }

  lemma AddFrame(h: multiset<nat>, t: nat)
    requires Once(h) && t != 0 && t !in Frames(h)
    ensures Once(h + multiset{t}) && Frames(h + multiset{t}) == Frames(h) + iset{t}
  {
    MoreFrames(h, multiset{t});
  }

  lemma OneTable(pgtable: seq<nat>, tables: map<nat, Table>, t: nat)
    requires t != 0 && t !in pgtable && Once(Held(pgtable, tables)) && t !in Frames(Held(pgtable, tables))
    ensures var h := Held(pgtable + [t], tables[t := Empty()]);
            Once(h) && Frames(h) == Frames(Held(pgtable, tables)) + iset{t}
  {
    HeldWith(pgtable, tables, t);
    AddEmpty(Held(pgtable, tables));
    AddFrame(Held(pgtable, tables) + multiset(Empty()), t);
  }

  /** A free page made a page table belongs to the segment and is no longer free. */
  lemma OwnsWith(pgtable: seq<nat>, tables: map<nat, Table>, before: iset<nat>, now: iset<nat>, t: nat)
    requires Linked(pgtable, tables) && Blank(pgtable, tables) && Owns(pgtable, tables, before, now) && t in now && t != 0
    ensures var tables' := tables[t := Empty()];
            Linked(pgtable + [t], tables') && Blank(pgtable + [t], tables') && Owns(pgtable + [t], tables', before, now - iset{t})
  {
    NotHeld(pgtable, tables, t);
    LinkedWith(pgtable, tables, t);
    OneTable(pgtable, tables, t);
  }

  lemma LinkedWith(pgtable: seq<nat>, tables: map<nat, Table>, t: nat)
    requires Linked(pgtable, tables) && Blank(pgtable, tables) && t != 0 && t !in pgtable
    ensures Linked(pgtable + [t], tables[t := Empty()]) && Blank(pgtable + [t], tables[t := Empty()])
  {
  }

  ghost function TableHeld(t: nat, tables: map<nat, Table>): multiset<nat> {
    (if t in tables then multiset(tables[t]) else multiset{}) + multiset{t}
  }

  /** The page tables of a segment exist and none is listed twice. */
  ghost predicate Linked(pgtable: seq<nat>, tables: map<nat, Table>) {
    var ok :=
      && (forall i :: 0 <= i < |pgtable| ==> pgtable[i] in tables && pgtable[i] != 0)
      && (forall i, j :: 0 <= i < j < |pgtable| ==> pgtable[i] != pgtable[j]);
    ok
  }

  /** Of the pages `all` of a segment, the tables from `i` on still hold `left`; the others are free. */
  ghost predicate Remains(pgtable: seq<nat>, tables: map<nat, Table>, i: nat, left: multiset<nat>,
                          all: iset<nat>, before: iset<nat>, now: iset<nat>) {
    var ok := i <= |pgtable| && left == Held(pgtable[i..], tables) && Once(left) && Frames(left) <= all
              && now == before + (all - Frames(left));
    ok
  }

  lemma AllRemain(pgtable: seq<nat>, tables: map<nat, Table>, left: multiset<nat>, all: iset<nat>, before: iset<nat>)
    requires left == Held(pgtable, tables) && Once(left) && Frames(left) == all
    ensures Remains(pgtable, tables, 0, left, all, before, before)
  {
    assert pgtable[0..] == pgtable;
  }

  lemma NoneRemain(pgtable: seq<nat>, tables: map<nat, Table>, left: multiset<nat>, all: iset<nat>, before: iset<nat>, now: iset<nat>)
    requires Remains(pgtable, tables, |pgtable|, left, all, before, now)
    ensures now == before + all
  {
    assert pgtable[|pgtable|..] == [];
    assert Frames(multiset{}) == iset{};
  }

  lemma FewerRemain(pgtable: seq<nat>, tables: map<nat, Table>, i: nat, left: multiset<nat>, rest: multiset<nat>, m: multiset<nat>,
                    all: iset<nat>, before: iset<nat>, now: iset<nat>)
    requires Remains(pgtable, tables, i, left, all, before, now) && i < |pgtable| && all !! before
    requires rest == Held(pgtable[i + 1..], tables) && Once(rest)
    requires Frames(m) !! Frames(rest) && Frames(left) == Frames(m) + Frames(rest)
    ensures Frames(m) <= all && Frames(m) !! now && Remains(pgtable, tables, i + 1, rest, all, before, now + Frames(m))
  {
  }

  lemma NextDropped(used: seq<Run>, nodes: seq<nat>, i: nat)
    requires i < |nodes|
    ensures DropAll(used, nodes[..i + 1]) == Drop(DropAll(used, nodes[..i]), nodes[i])
  {
    DropAllSnoc(used, nodes[..i], nodes[i]);
    assert nodes[..i] + [nodes[i]] == nodes[..i + 1];
  }

  /** What the i-th page table of a segment holds, apart from what the later ones hold. */
  lemma FirstTable(pgtable: seq<nat>, tables: map<nat, Table>, i: nat, left: multiset<nat>) returns (rest: multiset<nat>)
    requires Linked(pgtable, tables) && i < |pgtable| && left == Held(pgtable[i..], tables) && Once(left)
    ensures rest == Held(pgtable[i + 1..], tables) && Once(rest)
    ensures var m := TableHeld(pgtable[i], tables);
            Once(m) && Frames(m) !! Frames(rest) && Frames(left) == Frames(m) + Frames(rest)
  {
    rest := Held(pgtable[i + 1..], tables);
    assert pgtable[i..][1..] == pgtable[i + 1..];
    MoreFrames(TableHeld(pgtable[i], tables), rest);
  }

  lemma NextEntry(entries: seq<nat>, j: nat)
    requires j < |entries| && Once(multiset(entries))
    ensures Frames(multiset(entries[..j + 1])) == Frames(multiset(entries[..j])) + (if entries[j] == 0 then iset{} else iset{entries[j]})
    ensures entries[j] != 0 ==> entries[j] !in Frames(multiset(entries[..j]))
    ensures Frames(multiset(entries[..j + 1])) <= Frames(multiset(entries))
  {
    assert entries[..j + 1] == entries[..j] + [entries[j]];
    assert entries == entries[..j + 1] + entries[j + 1..];
    MoreFrames(multiset(entries[..j]), multiset{entries[j]});
    MoreFrames(multiset(entries[..j + 1]), multiset(entries[j + 1..]));
  }

  // ---- Where the code leaves something behind ----

  /** One run of free pages from page `p` on, nothing allocated yet. */
  function Untouched(p: nat, n: nat): Store {
    Store([], [], 0, [Run(p, n)])
  }

  lemma OneRun(p: nat, n: nat, k: nat)
    requires 0 < k <= n
    ensures Granted([Run(p, n)], k) == Run(p, k) && LeftOver([Run(p, n)], k) == if k == n then [] else [Run(p + k, n - k)]
  {
    var l := [Run(p, n)];
    assert Pick(l, k, 1) == 0;
  }

  /** The first small record costs a page, and another one for list nodes. */
  lemma FirstRecord(p: nat, n: nat, size: nat)
    requires n > 2 && 0 < size < PAGE_SIZE
    ensures CanAlloc(Untouched(p, n), size)
    ensures Allocated(Untouched(p, n), size) ==
            Store([Run(p * PAGE_SIZE + size, PAGE_SIZE - size)], [Run(p * PAGE_SIZE, size)], 1, [Run(p + 2, n - 2)])
  {
    OneRun(p, n, 1);
    OneRun(p + 1, n - 1, 1);
    var st, block := Untouched(p, n), Run(p * PAGE_SIZE, PAGE_SIZE);
    assert Insert([], block) == [block];
    assert AfterRefill(st, size) == Store([block], [], 1, [Run(p + 2, n - 2)]);
    assert Best([block], size, 1) == 0;
    assert Take([block], 0, size) == [Run(p * PAGE_SIZE + size, PAGE_SIZE - size)];
  }

  /** A page table costs a page; its record is cut off the only available block. */
  lemma NextTable(a: Run, used: seq<Run>, p: nat, n: nat)
    requires a.count > NODE_SIZE && |used| < NODES_PER_PAGE - 1 && n > 0
    ensures var st := Store([a], used, 1, [Run(p, n)]);
            TakeTable(st) == Some(Store([Run(a.page + NODE_SIZE, a.count - NODE_SIZE)], [Run(a.page, NODE_SIZE)] + used, 1,
                                        if n == 1 then [] else [Run(p + 1, n - 1)]))
  {
    OneRun(p, n, 1);
    assert Best([a], NODE_SIZE, 1) == 0;
    assert Take([a], 0, NODE_SIZE) == [Run(a.page + NODE_SIZE, a.count - NODE_SIZE)];
  }

  /** Three free pages are enough for a record and one page table, not for two. */
  lemma ThreePagesFallShort(first: Store, size: nat, tables: nat, pages: nat)
    requires first == Untouched(1, 3) && tables == 2 && 0 < size < PAGE_SIZE - 2 * NODE_SIZE
    ensures LeavesStale(first, size, tables, pages)
  {
    FirstRecord(1, 3, size);
    var st := Allocated(first, size);
    NextTable(st.avail[0], st.used, 3, 1);
    var st' := TakeTable(st).value;
    assert TakeTable(st') == None;
    assert Times(TakeTable, st', 1) == 0;
    assert Times(TakeTable, st, 2) == 1;
  }

  lemma OneRunIsRam(n: nat)
    requires n > 0
    ensures Canonical([Run(1, n)]) && Pages([Run(1, n)]) == Range(Run(1, n))
    ensures forall p :: p in Pages([Run(1, n)]) ==> RamPage([CoreMemory.Segment(0, (n + 1) * PAGE_SIZE, true)], p)
  {
    var l, ram := [Run(1, n)], [CoreMemory.Segment(0, (n + 1) * PAGE_SIZE, true)];
    assert l[0] == Run(1, n);
    forall p | p in Pages(l)
      ensures RamPage(ram, p)
    {
      assert 1 <= p <= n;
      assert InSegment(ram[0], p);
    }
  }

  /** A kernel with `n` free pages and nothing allocated. */
  method Boot(n: nat, recordSize: nat) returns (vm: Vm)
    requires n > 0
    ensures fresh(vm) && fresh(vm.heap) && fresh(vm.heap.core) && vm.Valid() && vm.recordSize == recordSize
    ensures vm.heap.State() == Untouched(1, n) && vm.heap.AllPages() == Range(Run(1, n))
    ensures vm.pd == seq(ENTRIES, _ => 0)
  {
    OneRunIsRam(n);
    var core := new Core([CoreMemory.Segment(0, (n + 1) * PAGE_SIZE, true)], [Run(1, n)]);
    var heap := new Heap(core);
    vm := new Vm(heap, recordSize);
  }

  lemma TwoTables(pd: seq<nat>, start: nat, end: nat)
    requires pd == seq(ENTRIES, _ => 0) && start == 0 && end == SPAN
    ensures Placeable(pd, start, end) && TablesFor(start, end) == 2 && start / SPAN == 0
  {
    assert start / SPAN == 0 && end / SPAN == 1;
  }

  /** A failed creation: the page directory is left with a page table whose page is free. */
  method StaleDirectory(recordSize: nat) returns (vm: Vm)
    requires 0 < recordSize < PAGE_SIZE - 2 * NODE_SIZE
    ensures fresh(vm) && vm.Valid() && vm.pd[0] != 0 && vm.pd[0] in Pages(vm.heap.core.blocks)
  {
    vm := Boot(3, recordSize);
    var start, end := 0, SPAN;
    TwoTables(vm.pd, start, end);
    ThreePagesFallShort(vm.heap.State(), recordSize, TablesFor(start, end), PagesOf(start, end, false));
    var ok, seg, _, _ := vm.CreateSegment(start, end, false);
    assert vm.pd[0] == seg.pgtable[0];
  }

  /** A region that starts in the middle of a page, and ends with its page table. */
  lemma PlentyOfPages(first: Store, size: nat, tables: nat, pages: nat)
    requires first == Untouched(1, 2000) && tables == 1 && pages == 1024 && 0 < size < PAGE_SIZE - 2 * NODE_SIZE
    ensures CanCreate(first, size, tables, pages)
  {
    FirstRecord(1, 2000, size);
    var st := Allocated(first, size);
    NextTable(st.avail[0], st.used, 3, 1998);
    var st' := TakeTable(st).value;
    assert Times(TakeTable, st', 0) == 0;
    assert Tables(st, 1) == 1 && AfterTables(st, 1) == st';
    var l := [Run(4, 1997)];
    assert Longest(l) == 0 && Most(l, MAX_FRAGMENTS) >= 1997;
  }

  lemma MiddleOfAPage(pd: seq<nat>, start: nat, end: nat)
    requires pd == seq(ENTRIES, _ => 0) && start == 1 && end == SPAN - 1
    ensures Placeable(pd, start, end) && !TablesCover(start, end) && TablesFor(start, end) == 1 && PagesOf(start, end, true) == 1024
  {
    assert start / SPAN == 0 && end / SPAN == 0;
    assert CeilPage(start) == 1 && CeilPage(end) == 1024;
  }

  /** Creating it and destroying it again loses a page. */
  method LostPage(recordSize: nat) returns (vm: Vm, ghost lost: iset<nat>)
    requires 0 < recordSize < PAGE_SIZE - 2 * NODE_SIZE
    ensures fresh(vm) && vm.Valid() && lost != iset{} && lost <= Range(Run(1, 2000)) && vm.heap.AllPages() == Range(Run(1, 2000)) - lost
  {
    vm := Boot(2000, recordSize);
    var start, end := 1, SPAN - 1;
    MiddleOfAPage(vm.pd, start, end);
    PlentyOfPages(vm.heap.State(), recordSize, TablesFor(start, end), PagesOf(start, end, true));
    var ok;
    ok, lost := vm.CreateThenDestroy(start, end, true);
  }
}
