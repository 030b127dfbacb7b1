/** The page allocator: best fit out of a sorted, merged list of free runs. */
module CoreMemory {
  import opened Basics
  import opened PageRuns

  const PAGE_SIZE: nat := 4096

  datatype Segment = Segment(base: nat, length: nat, usable: bool)

  /** The page starts in, or right behind, a usable segment of memory. */
  predicate RamPage(ram: seq<Segment>, page: nat) {
    exists i :: 0 <= i < |ram| && InSegment(ram[i], page)
  }

  predicate InSegment(s: Segment, page: nat) {
    s.usable && s.base <= page * PAGE_SIZE <= s.base + s.length
  }

  /** No run among the first `t` is at least `n` pages long. */
  predicate NoneSuffices(l: seq<Run>, n: nat, t: nat)
    requires t <= |l|
  {
    forall j :: 0 <= j < t ==> l[j].count < n
  }

  /** `k` is what the search for `n` pages has settled on after `t` runs: the first of the longest runs if
      none suffices; otherwise, with `f` the first that suffices, the shortest of `f` and of the later runs
      that are longer than `n`. */
  predicate Chosen(l: seq<Run>, n: nat, k: nat, t: nat)
    requires t <= |l|
  {
    k < t &&
    if NoneSuffices(l, n, t) then
      forall j :: 0 <= j < t ==> l[j].count <= l[k].count && (j < k ==> l[j].count < l[k].count)
    else
      exists f :: 0 <= f <= k && ChosenFrom(l, n, k, t, f)
  }

  predicate ChosenFrom(l: seq<Run>, n: nat, k: nat, t: nat, f: nat)
    requires k < t <= |l| && f <= k
  {
    && l[f].count >= n && NoneSuffices(l, n, f)
    && (k == f || n < l[k].count < l[f].count)
    && forall j :: f < j < t && l[j].count > n ==> l[k].count <= l[j].count
  }

  /** The run chosen is a shortest one that suffices exactly when the first one that suffices is an exact fit
      or there is no exact fit at all: a later exact fit is passed over. */
  lemma BestFitIff(l: seq<Run>, n: nat, k: nat, f: nat)
    requires k < |l| && f <= k && ChosenFrom(l, n, k, |l|, f)
    ensures (forall j :: 0 <= j < |l| && l[j].count >= n ==> l[k].count <= l[j].count)
            <==> (l[f].count == n || forall j :: 0 <= j < |l| ==> l[j].count != n)
  {
    if j :| 0 <= j < |l| && l[j].count == n && l[f].count != n {
      assert l[k].count > n;
    }
  }

  /** Asked for two pages, the search takes them out of the run of three and leaves the run of two. */
  lemma ExactFitPassedOver()
    ensures var l := [Run(0, 4), Run(10, 2), Run(20, 3)];
            ChosenFrom(l, 2, 2, 3, 0) && l[2].count > l[1].count == 2
  {
  }

  lemma ChosenNext(l: seq<Run>, n: nat, k: nat, t: nat)
    requires 0 < t < |l| && Chosen(l, n, k, t)
    ensures var better := if l[k].count < n then l[k].count < l[t].count else l[t].count > n && l[t].count < l[k].count;
            Chosen(l, n, if better then t else k, t + 1)
  {
    var better := if l[k].count < n then l[k].count < l[t].count else l[t].count > n && l[t].count < l[k].count;
    var k' := if better then t else k;
    if NoneSuffices(l, n, t) {
      if l[t].count >= n {
        assert ChosenFrom(l, n, t, t + 1, t);
      }
    } else {
      var f :| 0 <= f <= k && ChosenFrom(l, n, k, t, f);
      assert ChosenFrom(l, n, k', t + 1, f);
      assert !NoneSuffices(l, n, t + 1);
    }
  }

  /** Whether the search for `n` pages prefers run `t` to run `k`. */
  predicate Better(l: seq<Run>, n: nat, k: nat, t: nat)
    requires k < |l| && t < |l|
  {
    if l[k].count < n then l[k].count < l[t].count else n < l[t].count < l[k].count
  }

  /** Where the search for `n` pages stands after `t` runs. */
  function Pick(l: seq<Run>, n: nat, t: nat): (k: nat)
    requires 0 < t <= |l|
    ensures k < t
  {
    if t == 1 then 0 else
    var k := Pick(l, n, t - 1);
    if Better(l, n, k, t - 1) then t - 1 else k
  }

  lemma {:induction false} PickIsChosen(l: seq<Run>, n: nat, t: nat)
    requires 0 < t <= |l|
    ensures Chosen(l, n, Pick(l, n, t), t)
  {
    if t == 1 {
      assert l[0].count >= n ==> ChosenFrom(l, n, 0, 1, 0);
    } else {
      PickIsChosen(l, n, t - 1);
      ChosenNext(l, n, Pick(l, n, t - 1), t - 1);
    }
  }

  /** The run handed out when `n` pages are asked for, and the list it leaves. */
  function Granted(l: seq<Run>, n: nat): Run {
    if l == [] then Run(0, 0) else var k := Pick(l, n, |l|); Run(l[k].page, Min(n, l[k].count))
  }

  function LeftOver(l: seq<Run>, n: nat): seq<Run> {
    if l == [] then [] else var k := Pick(l, n, |l|); Take(l, k, Min(n, l[k].count))
  }

  /** What is handed out is as much as asked for or the longest run there is. */
  lemma ChosenIsLongest(l: seq<Run>, n: nat, k: nat)
    requires Chosen(l, n, k, |l|)
    ensures forall j :: 0 <= j < |l| ==> Min(n, l[j].count) <= Min(n, l[k].count)
  {
  }

  ghost predicate Apart(chs: seq<Run>) {
    forall i, j :: 0 <= i < j < |chs| ==> Range(chs[i]) !! Range(chs[j])
  }

  function Total(chs: seq<Run>): nat {
    if chs == [] then 0 else Total(chs[..|chs| - 1]) + chs[|chs| - 1].count
  }

  /** All the pages are memory. */
  ghost predicate AllRam(ram: seq<Segment>, pages: iset<nat>) {
    var ok := forall p :: p in pages ==> RamPage(ram, p);
    ok
  }

  class Core {
    const ram: seq<Segment>
    var blocks: seq<Run>

    ghost predicate Valid()
      reads this
    {
      Canonical(blocks) && forall p :: p in Pages(blocks) ==> RamPage(ram, p)
    }

    constructor (ram: seq<Segment>, blocks: seq<Run>)
      requires Canonical(blocks) && forall p :: p in Pages(blocks) ==> RamPage(ram, p)
      ensures Valid() && this.ram == ram && this.blocks == blocks
    {
      this.ram, this.blocks := ram, blocks;
    }

    method IsValidBlock(ch: Run) returns (valid: bool)
      ensures valid <==> ch.count > 0 && RamPage(ram, ch.page)
    {
      if ch.count <= 0 {
        return false;
      }
      for i := 0 to |ram|
        invariant forall j :: 0 <= j < i ==> !InSegment(ram[j], ch.page)
      {
        if ram[i].usable && ram[i].base <= ch.page * PAGE_SIZE && ch.page * PAGE_SIZE <= ram[i].base + ram[i].length {
          assert InSegment(ram[i], ch.page);
          return true;
        }
      }
      return false;
    }

    /** Searches for the run to allocate from. */
    method ChooseBlock(npages: nat) returns (best: nat)
      requires blocks != []
      ensures Chosen(blocks, npages, best, |blocks|) && best == Pick(blocks, npages, |blocks|)
    {
      best := 0;
      var hole := blocks[0].count as int - npages as int;
      var t := 1;
      while t < |blocks|
        invariant 1 <= t <= |blocks| && best == Pick(blocks, npages, t)
        invariant hole == blocks[best].count as int - npages as int
      {
        if hole < 0 {
          if hole < blocks[t].count as int - npages as int {
            best, hole := t, blocks[t].count as int - npages as int;
          }
        } else if blocks[t].count > npages && hole > blocks[t].count as int - npages as int {
          best, hole := t, blocks[t].count as int - npages as int;
        }
        t := t + 1;
      }
      PickIsChosen(blocks, npages, |blocks|);
    }

    /** Takes up to `npages` consecutive pages; answers the run taken, empty if there is no free memory. */
    method CoreAlloc(npages: nat) returns (ch: Run)
      requires Valid()
      modifies this`blocks
      ensures Valid()
      ensures Range(ch) <= Pages(old(blocks)) && Pages(blocks) == Pages(old(blocks)) - Range(ch)
      ensures ch.count <= npages && forall j :: 0 <= j < |old(blocks)| ==> Min(npages, old(blocks)[j].count) <= ch.count
      ensures ch.count == 0 ==> blocks == old(blocks)
      ensures ch == Granted(old(blocks), npages) && blocks == LeftOver(old(blocks), npages)
    {
      if blocks == [] {
        ch := Run(0, 0);
        assert Range(ch) == iset{};
        return;
      }
      var k := ChooseBlock(npages);
      var hole := blocks[k].count as int - npages as int;
      ch := Run(blocks[k].page, if hole >= 0 then npages else blocks[k].count);
      ghost var l := blocks;
      if hole <= 0 {
        blocks := blocks[..k] + blocks[k + 1..];
      } else {
        blocks := blocks[k := Run(blocks[k].page + npages, hole)];
      }
      Granting(l, npages, k, blocks, ch);
    }

    /** Index of the first run that starts at `page` or behind it. */
    method FindMemBlockBefore(page: nat) returns (i: nat)
      ensures i == Below(blocks, page)
    {
      i := 0;
      while i < |blocks| && blocks[i].page < page
        invariant i <= |blocks| && forall j :: 0 <= j < i ==> blocks[j].page < page
      {
        i := i + 1;
      }
    }

    /** Links a run into the list, merging it with the runs it touches. */
    method Link(ch: Run)
      modifies this`blocks
      ensures blocks == Insert(old(blocks), ch)
    {
      var i := FindMemBlockBefore(ch.page);
      if i == 0 {
        assert blocks[..0] == [];
        if blocks != [] && ch.page + ch.count == blocks[0].page {
          blocks := [Run(ch.page, ch.count + blocks[0].count)] + blocks[1..];
        } else {
          blocks := [ch] + blocks;
        }
      } else {
        var t1 := blocks[i - 1];
        if t1.page + t1.count == ch.page {
          if i < |blocks| && t1.page + (t1.count + ch.count) == blocks[i].page {
            blocks := blocks[..i - 1] + [Run(t1.page, t1.count + ch.count + blocks[i].count)] + blocks[i + 1..];
          } else {
            blocks := blocks[..i - 1] + [Run(t1.page, t1.count + ch.count)] + blocks[i..];
          }
        } else if i < |blocks| && ch.page + ch.count == blocks[i].page {
          blocks := blocks[..i] + [Run(ch.page, ch.count + blocks[i].count)] + blocks[i + 1..];
        } else {
          blocks := blocks[..i] + [ch] + blocks[i..];
        }
      }
    }

    /** Gives a run of pages back; one that does not start in usable memory is refused. */
    method CoreFree(ch: Run)
      requires Valid() && Range(ch) !! Pages(blocks)
      requires RamPage(ram, ch.page) ==> forall p :: p in Range(ch) ==> RamPage(ram, p)
      modifies this`blocks
      ensures Valid()
      ensures if RamPage(ram, ch.page) then Pages(blocks) == Pages(old(blocks)) + Range(ch) else blocks == old(blocks)
    {
      var valid := IsValidBlock(ch);
      if !valid {
        assert ch.count == 0 ==> Range(ch) == iset{};
        return;
      }
      InsertOk(blocks, ch);
      Link(ch);
    }

    /** Gives the first `n` fragments of an unfinished allocation back, last one first. */
    method Rollback(chs: seq<Run>, ghost before: seq<Run>)
      requires Valid() && Canonical(before) && (forall p :: p in Pages(before) ==> RamPage(ram, p))
      requires Apart(chs) && Pages(chs) <= Pages(before) && Pages(blocks) == Pages(before) - Pages(chs)
      modifies this`blocks
      ensures Valid() && blocks == before
    {
      var i := |chs|;
      assert chs[..i] == chs;
      while i > 0
        invariant 0 <= i <= |chs| && Valid()
        invariant Pages(chs[..i]) <= Pages(before) && Pages(blocks) == Pages(before) - Pages(chs[..i])
      {
        LastFragment(chs, i);
        assert chs[i - 1].count > 0 ==> chs[i - 1].page in Range(chs[i - 1]);
        assert chs[i - 1].count == 0 ==> Range(chs[i - 1]) == iset{};
        CoreFree(chs[i - 1]);
        i := i - 1;
      }
      assert Pages(chs[..0]) == iset{};
      CanonicalUnique(blocks, before);
    }

    /** One more fragment, or none if nothing is free. */
    method TakeFragment(chs: seq<Run>, pages: nat, ghost before: seq<Run>, ghost most: nat, ghost npages: nat, ghost k: nat)
      returns (chs': seq<Run>)
      requires Valid() && pages > 0 && k > 0 && Fragments(before, blocks, chs) && Ahead(most, npages, pages, blocks, k)
      modifies this`blocks
      ensures Valid() && Fragments(before, blocks, chs')
      ensures if |chs'| == |chs| then chs' == chs && blocks == [] && npages > most
              else |chs'| == |chs| + 1 && chs'[|chs|].count <= pages && Total(chs') == Total(chs) + chs'[|chs|].count
                   && Ahead(most, npages, pages - chs'[|chs|].count, blocks, k - 1)
    {
      AheadStep(most, npages, pages, blocks, k);
      ghost var mid := blocks;
      var ch := CoreAlloc(pages);
      if ch.count == 0 {
        NoneLeft(mid, pages);
        return chs;
      }
      FragmentAdded(before, mid, blocks, chs, ch);
      return chs + [ch];
    }

    /** Allocates `npages` pages in at most `chmax` fragments, or none at all: there are enough exactly if the `chmax`
        longest runs have as many. */
    method CoreAllocN(npages: nat, chmax: nat) returns (ok: bool, chs: seq<Run>)
      requires Valid()
      modifies this`blocks
      ensures Valid()
      ensures ok <==> npages <= Most(old(blocks), chmax)
      ensures !ok ==> blocks == old(blocks)
      ensures ok ==> |chs| <= chmax && Total(chs) == npages && Apart(chs) && (forall i :: 0 <= i < |chs| ==> chs[i].count > 0)
                     && Pages(chs) <= Pages(old(blocks)) && Pages(blocks) == Pages(old(blocks)) - Pages(chs)
    {
      var pages := npages;
      chs := [];
      assert Pages([]) == iset{};
      ghost var before, most := blocks, Most(blocks, chmax);
      while pages > 0 && |chs| < chmax
        invariant Valid() && |chs| <= chmax && 0 <= pages && pages + Total(chs) == npages
        invariant Fragments(before, blocks, chs) && Ahead(most, npages, pages, blocks, chmax - |chs|)
      {
        var more := TakeFragment(chs, pages, before, most, npages, chmax - |chs|);
        if |more| == |chs| {
          Rollback(chs, before);
          return false, [];
        }
        pages := pages - more[|chs|].count;
        chs := more;
      }
      if pages > 0 {
        Rollback(chs, before);
        return false, [];
      }
      return true, chs;
    }
  }

  /** The fragments are disjoint, not empty, and just what is no longer free. */
  ghost predicate Fragments(before: seq<Run>, now: seq<Run>, chs: seq<Run>) {
    var ok :=
      && Apart(chs) && (forall i :: 0 <= i < |chs| ==> chs[i].count > 0)
      && Pages(chs) <= Pages(before) && Pages(now) == Pages(before) - Pages(chs);
    ok
  }

  lemma FragmentAdded(before: seq<Run>, mid: seq<Run>, now: seq<Run>, chs: seq<Run>, ch: Run)
    requires Fragments(before, mid, chs) && ch.count > 0 && Range(ch) <= Pages(mid) && Pages(now) == Pages(mid) - Range(ch)
    ensures Fragments(before, now, chs + [ch]) && Total(chs + [ch]) == Total(chs) + ch.count
  {
    OneMore(chs, ch);
  }

  // ---- How much can be had ----

  /** The first of the longest runs. */
  function Longest(l: seq<Run>): (k: nat)
    requires l != []
    ensures k < |l|
  {
    if |l| == 1 then 0 else
    var k := Longest(l[..|l| - 1]);
    if l[k].count < l[|l| - 1].count then |l| - 1 else k
  }

  lemma {:induction false} LongestIs(l: seq<Run>)
    requires l != []
    ensures var k := Longest(l); forall j :: 0 <= j < |l| ==> l[j].count <= l[k].count && (j < k ==> l[j].count < l[k].count)
    decreases |l|
  {
    if |l| > 1 {
      var front := l[..|l| - 1];
      LongestIs(front);
      assert forall j :: 0 <= j < |front| ==> l[j] == front[j];
    }
  }

  /** The pages of the `k` longest runs. */
  function Most(l: seq<Run>, k: nat): nat
    decreases k
  {
    if k == 0 || l == [] then 0 else
    var m := Longest(l);
    l[m].count + Most(l[..m] + l[m + 1..], k - 1)
  }

  /** With `pages` still to be had, all that can be had in `k` more rounds is the rest of `most`; with none, `most` was
      enough. */
  ghost predicate Ahead(most: nat, npages: nat, pages: nat, l: seq<Run>, k: nat) {
    var ok := if pages > 0 then pages <= npages && most == npages - pages + Most(l, k) else npages <= most;
    ok
  }

  lemma AheadStep(most: nat, npages: nat, pages: nat, l: seq<Run>, k: nat)
    requires Ahead(most, npages, pages, l, k) && pages > 0 && k > 0
    ensures var ch := Granted(l, pages);
            ch.count <= pages && Ahead(most, npages, pages - ch.count, LeftOver(l, pages), k - 1) && (l == [] ==> npages > most)
  {
    MostRound(l, pages, k);
  }

  /** One round takes what is asked for, or the longest run whole. */
  lemma MostRound(l: seq<Run>, n: nat, k: nat)
    requires n > 0 && k > 0
    ensures var ch := Granted(l, n);
            if ch.count == n then n <= Most(l, k) else Most(l, k) == ch.count + Most(LeftOver(l, n), k - 1)
  {
    if l != [] {
      var i, m := Pick(l, n, |l|), Longest(l);
      PickIsChosen(l, n, |l|);
      LongestIs(l);
      if l[i].count < n {
        assert NoneSuffices(l, n, |l|);
        assert i == m;
        assert Take(l, m, l[m].count) == l[..m] + l[m + 1..];
      }
    }
  }

  /** The pages, and the number, of the runs picked out by `mask` among the first `n`. */
  function Picked(l: seq<Run>, mask: seq<bool>, n: nat): nat
    requires |mask| == |l| && n <= |l|
  {
    if n == 0 then 0 else Picked(l, mask, n - 1) + if mask[n - 1] then l[n - 1].count else 0
  }

  function Number(mask: seq<bool>, n: nat): nat
    requires n <= |mask|
  {
    if n == 0 then 0 else Number(mask, n - 1) + if mask[n - 1] then 1 else 0
  }

  lemma {:induction false} PickedSet(l: seq<Run>, mask: seq<bool>, i: nat, n: nat)
    requires |mask| == |l| && i < |l| && n <= |l| && !mask[i]
    ensures Picked(l, mask[i := true], n) == Picked(l, mask, n) + if i < n then l[i].count else 0
    ensures Number(mask[i := true], n) == Number(mask, n) + if i < n then 1 else 0
  {
    if n > 0 {
      PickedSet(l, mask, i, n - 1);
    }
  }

  lemma {:induction false} PickedDrop(l: seq<Run>, mask: seq<bool>, m: nat, n: nat)
    requires |mask| == |l| && m < |l| && mask[m] && n <= |l|
    ensures var l', mask', n' := l[..m] + l[m + 1..], mask[..m] + mask[m + 1..], if m < n then n - 1 else n;
            && Picked(l, mask, n) == Picked(l', mask', n') + (if m < n then l[m].count else 0)
            && Number(mask, n) == Number(mask', n') + (if m < n then 1 else 0)
  {
    if n > 0 {
      PickedDrop(l, mask, m, n - 1);
    }
  }

  lemma {:induction false} NonePicked(l: seq<Run>, mask: seq<bool>, n: nat)
    requires |mask| == |l| && n <= |l|
    ensures Number(mask, n) == 0 ==> Picked(l, mask, n) == 0
    ensures Number(mask, n) > 0 ==> exists j :: 0 <= j < n && mask[j]
  {
    if n > 0 {
      NonePicked(l, mask, n - 1);
    }
  }

  /** The longest run can take the place of any other. */
  lemma PickLongest(l: seq<Run>, mask: seq<bool>) returns (mask': seq<bool>)
    requires l != [] && |mask| == |l| && Number(mask, |l|) > 0
    ensures |mask'| == |l| && mask'[Longest(l)] && Number(mask', |l|) == Number(mask, |l|)
    ensures Picked(l, mask, |l|) <= Picked(l, mask', |l|)
  {
    var m := Longest(l);
    LongestIs(l);
    mask' := mask;
    if !mask[m] {
      NonePicked(l, mask, |l|);
      var j :| 0 <= j < |l| && mask[j];
      var less := mask[j := false];
      PickedSet(l, less, j, |l|);
      assert less[j := true] == mask;
      PickedSet(l, less, m, |l|);
      mask' := less[m := true];
    }
  }

  /** No choice of at most `k` runs has more pages than the `k` longest. */
  lemma {:induction false} MostIsMost(l: seq<Run>, mask: seq<bool>, k: nat)
    requires |mask| == |l| && Number(mask, |l|) <= k
    ensures Picked(l, mask, |l|) <= Most(l, k)
    decreases k
  {
    NonePicked(l, mask, |l|);
    if Number(mask, |l|) > 0 {
      var m := Longest(l);
      var mask' := PickLongest(l, mask);
      PickedDrop(l, mask', m, |l|);
      MostIsMost(l[..m] + l[m + 1..], mask'[..m] + mask'[m + 1..], k - 1);
    }
  }

  lemma OneMore(chs: seq<Run>, ch: Run)
    ensures Pages(chs + [ch]) == Pages(chs) + Range(ch) && Total(chs + [ch]) == Total(chs) + ch.count
    ensures Apart(chs) && Range(ch) !! Pages(chs) ==> Apart(chs + [ch])
  {
    assert (chs + [ch])[..|chs|] == chs;
    forall p: nat ensures In(chs + [ch], p) <==> In(chs, p) || Has(ch, p) {
      Join(chs, [ch], [], p);
      Single(ch, p);
      assert chs + [ch] + [] == chs + [ch];
    }
    if Range(ch) !! Pages(chs) {
      forall i | 0 <= i < |chs| ensures Range(chs[i]) !! Range(ch) {
        forall p | p in Range(chs[i]) ensures p in Pages(chs) {
          HasIn(chs, i, p);
        }
      }
    }
  }

  lemma LastFragment(chs: seq<Run>, i: nat)
    requires Apart(chs) && 0 < i <= |chs|
    ensures Pages(chs[..i]) == Pages(chs[..i - 1]) + Range(chs[i - 1]) && Range(chs[i - 1]) !! Pages(chs[..i - 1])
  {
    assert chs[..i] == chs[..i - 1] + [chs[i - 1]];
    OneMore(chs[..i - 1], chs[i - 1]);
    var rest := chs[..i - 1];
    forall p | p in Pages(rest) ensures p !in Range(chs[i - 1]) {
      var j :| 0 <= j < |rest| && Has(rest[j], p);
      assert p in Range(chs[j]);
    }
  }

  lemma NoneLeft(l: seq<Run>, n: nat)
    requires Canonical(l) && n > 0 && Granted(l, n).count == 0
    ensures l == []
  {
  }

  lemma Granting(l: seq<Run>, n: nat, k: nat, l': seq<Run>, ch: Run)
    requires Canonical(l) && l != [] && k == Pick(l, n, |l|) && ch == Run(l[k].page, Min(n, l[k].count))
    requires l' == if n >= l[k].count then l[..k] + l[k + 1..] else l[k := Run(l[k].page + n, l[k].count - n)]
    ensures ch == Granted(l, n) && l' == LeftOver(l, n) && Canonical(l') && (ch.count == 0 ==> l' == l)
    ensures Range(ch) <= Pages(l) && Pages(l') == Pages(l) - Range(ch)
    ensures forall j :: 0 <= j < |l| ==> Min(n, l[j].count) <= ch.count
  {
    Taken(l, k, n, l', ch);
    PickIsChosen(l, n, |l|);
    ChosenIsLongest(l, n, k);
  }

  lemma Taken(l: seq<Run>, k: nat, n: nat, l': seq<Run>, ch: Run)
    requires Canonical(l) && k < |l| && ch == Run(l[k].page, Min(n, l[k].count))
    requires l' == if n >= l[k].count then l[..k] + l[k + 1..] else l[k := Run(l[k].page + n, l[k].count - n)]
    ensures l' == Take(l, k, ch.count) && Canonical(l')
    ensures Range(ch) <= Pages(l) && Pages(l') == Pages(l) - Range(ch)
    ensures ch.count == 0 ==> l' == l
  {
    if ch.count > 0 {
      TakeOk(l, k, ch.count);
    } else {
      assert Range(ch) == iset{};
    }
    if n >= l[k].count {
      assert l[..k] + [] + l[k + 1..] == l';
    } else {
      assert l[..k] + [Run(l[k].page + n, l[k].count - n)] + l[k + 1..] == l';
    }
  }
}
