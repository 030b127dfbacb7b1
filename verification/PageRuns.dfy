/** Lists of runs of consecutive pages: sorted by address, disjoint, and with adjacent runs merged. */
module PageRuns {
  datatype Run = Run(page: nat, count: nat) {
    function End(): nat { page + count }
  }

  predicate Has(r: Run, p: nat) {
    r.page <= p < r.page + r.count
  }

  predicate In(l: seq<Run>, p: nat) {
    exists i :: 0 <= i < |l| && Has(l[i], p)
  }

  ghost function Range(r: Run): iset<nat> {
    iset p: nat | Has(r, p)
  }

  ghost function Pages(l: seq<Run>): iset<nat> {
    iset p: nat | In(l, p)
  }

  /** Sorted, disjoint, and no two runs touch. */
  predicate Canonical(l: seq<Run>) {
    && (forall i :: 0 <= i < |l| ==> l[i].count > 0)
    && (forall i, j :: 0 <= i < j < |l| ==> l[i].End() < l[j].page)
  }

  // ---- A canonical list is determined by its pages ----

  /** The lowest page of a list is where its first run starts, and the lowest gap is where it ends. */
  lemma FirstRun(l: seq<Run>, p: nat)
    requires Canonical(l) && l != []
    ensures In(l, l[0].page) && !In(l, l[0].End()) && (In(l, p) ==> l[0].page <= p)
    ensures Canonical(l[1..]) && (In(l[1..], p) <==> In(l, p) && !Has(l[0], p))
  {
    assert Has(l[0], l[0].page);
    if In(l, p) && !Has(l[0], p) {
      var i :| 0 <= i < |l| && Has(l[i], p);
      assert l[1..][i - 1] == l[i];
    }
    if In(l[1..], p) {
      var i :| 0 <= i < |l[1..]| && Has(l[1..][i], p);
      assert l[1..][i] == l[i + 1];
    }
  }

  lemma HasIn(l: seq<Run>, i: nat, p: nat)
    requires i < |l|
    ensures Has(l[i], p) ==> In(l, p)
  {
  }

  lemma {:induction false} CanonicalUnique(l: seq<Run>, m: seq<Run>)
    requires Canonical(l) && Canonical(m) && Pages(l) == Pages(m)
    ensures l == m
    decreases |l|
  {
    assert forall p: nat :: In(l, p) <==> In(m, p) by {
      forall p: nat ensures In(l, p) <==> In(m, p) {
        assert p in Pages(l) <==> p in Pages(m);
      }
    }
    if l != [] {
      FirstRun(l, 0);
    }
    if m != [] {
      FirstRun(m, 0);
    }
    if l != [] && m != [] {
      FirstRun(l, m[0].page);
      FirstRun(m, l[0].page);
      HasIn(m, 0, l[0].End());
      HasIn(l, 0, m[0].End());
      assert l[0] == m[0];
      forall p: nat ensures In(l[1..], p) <==> In(m[1..], p) {
        FirstRun(l, p);
        FirstRun(m, p);
      }
      CanonicalUnique(l[1..], m[1..]);
      assert l == [l[0]] + l[1..] && m == [m[0]] + m[1..];
    }
  }

  // ---- Replacing a stretch of a list ----

  /** Replacing the runs from `i` to `j` by `mid`. */
  lemma SplicePages(l: seq<Run>, i: nat, j: nat, mid: seq<Run>, p: nat)
    requires i <= j <= |l|
    ensures In(l[..i] + mid + l[j..], p) <==> In(l[..i], p) || In(mid, p) || In(l[j..], p)
    ensures In(l, p) <==> In(l[..i], p) || In(l[i..j], p) || In(l[j..], p)
  {
    Join(l[..i], mid, l[j..], p);
    Join(l[..i], l[i..j], l[j..], p);
    assert l == l[..i] + l[i..j] + l[j..];
  }

  lemma Join(a: seq<Run>, b: seq<Run>, c: seq<Run>, p: nat)
    ensures In(a + b + c, p) <==> In(a, p) || In(b, p) || In(c, p)
  {
    var x := a + b + c;
    if In(a, p) {
      var i :| 0 <= i < |a| && Has(a[i], p);
      assert x[i] == a[i];
    }
    if In(b, p) {
      var i :| 0 <= i < |b| && Has(b[i], p);
      assert x[|a| + i] == b[i];
    }
    if In(c, p) {
      var i :| 0 <= i < |c| && Has(c[i], p);
      assert x[|a| + |b| + i] == c[i];
    }
    if In(x, p) {
      var i :| 0 <= i < |x| && Has(x[i], p);
      if i < |a| {
        assert a[i] == x[i];
      } else if i < |a| + |b| {
        assert b[i - |a|] == x[i];
      } else {
        assert c[i - |a| - |b|] == x[i];
      }
    }
  }

  lemma ConcatCanonical(a: seq<Run>, b: seq<Run>)
    requires Canonical(a) && Canonical(b) && (a != [] && b != [] ==> a[|a| - 1].End() < b[0].page)
    ensures Canonical(a + b)
  {
    var x := a + b;
    forall i, j | 0 <= i < j < |x| ensures x[i].End() < x[j].page {
      if i < |a| <= j {
        assert a[i].End() <= a[|a| - 1].End() && b[0].page <= b[j - |a|].page;
      }
    }
  }

  lemma CutCanonical(l: seq<Run>, i: nat, j: nat)
    requires Canonical(l) && i <= j <= |l|
    ensures Canonical(l[..i] + [] + l[j..])
  {
    assert l[..i] + [] == l[..i];
    ConcatCanonical(l[..i], l[j..]);
  }

  lemma SpliceCanonical(l: seq<Run>, i: nat, j: nat, m: Run)
    requires Canonical(l) && i <= j <= |l| && m.count > 0
    requires (i > 0 ==> l[i - 1].End() < m.page) && (j < |l| ==> m.End() < l[j].page)
    ensures Canonical(l[..i] + [m] + l[j..])
  {
    ConcatCanonical(l[..i], [m]);
    ConcatCanonical(l[..i] + [m], l[j..]);
  }

  // ---- Taking pages out ----

  /** The first `n` pages of the k-th run are taken out of the list. */
  function Take(l: seq<Run>, k: nat, n: nat): seq<Run>
    requires k < |l| && n <= l[k].count
  {
    var mid := if n == l[k].count then [] else [Run(l[k].page + n, l[k].count - n)];
    l[..k] + mid + l[k + 1..]
  }

  lemma TakeCanonical(l: seq<Run>, k: nat, n: nat)
    requires Canonical(l) && k < |l| && 0 < n <= l[k].count
    ensures Canonical(Take(l, k, n))
  {
    if n == l[k].count {
      CutCanonical(l, k, k + 1);
    } else {
      SpliceCanonical(l, k, k + 1, Run(l[k].page + n, l[k].count - n));
    }
  }

  lemma TakePage(l: seq<Run>, k: nat, n: nat, p: nat)
    requires Canonical(l) && k < |l| && 0 < n <= l[k].count
    ensures In(Take(l, k, n), p) <==> In(l, p) && !Has(Run(l[k].page, n), p)
  {
    var mid := if n == l[k].count then [] else [Run(l[k].page + n, l[k].count - n)];
    SplicePages(l, k, k + 1, mid, p);
    assert l[k..k + 1] == [l[k]];
    Single(l[k], p);
    if mid != [] {
      Single(mid[0], p);
    }
    Elsewhere(l, k, p);
  }

  lemma Elsewhere(l: seq<Run>, k: nat, p: nat)
    requires Canonical(l) && k < |l|
    ensures Has(l[k], p) ==> !In(l[..k], p) && !In(l[k + 1..], p)
  {
  }

  lemma TakeOk(l: seq<Run>, k: nat, n: nat)
    requires Canonical(l) && k < |l| && 0 < n <= l[k].count
    ensures Canonical(Take(l, k, n))
    ensures Range(Run(l[k].page, n)) <= Pages(l) && Pages(Take(l, k, n)) == Pages(l) - Range(Run(l[k].page, n))
  {
    TakeCanonical(l, k, n);
    forall p: nat
      ensures In(Take(l, k, n), p) <==> In(l, p) && !Has(Run(l[k].page, n), p)
      ensures Has(Run(l[k].page, n), p) ==> In(l, p)
    {
      TakePage(l, k, n, p);
      HasIn(l, k, p);
    }
  }

  lemma Single(r: Run, p: nat)
    ensures In([r], p) <==> Has(r, p)
  {
    assert [r][0] == r;
  }

  // ---- Putting pages back ----

  /** Number of runs that start below a page. */
  function Below(l: seq<Run>, page: nat): (i: nat)
    ensures i <= |l| && (forall j :: 0 <= j < i ==> l[j].page < page) && (i < |l| ==> page <= l[i].page)
  {
    if l == [] || page <= l[0].page then 0 else 1 + Below(l[1..], page)
  }

  /** Whether a run inserted behind the first `i` ones touches the run before it, or the run after it. */
  predicate JoinsPrev(l: seq<Run>, i: nat, r: Run)
    requires i <= |l|
  {
    i > 0 && l[i - 1].End() == r.page
  }

  predicate JoinsNext(l: seq<Run>, i: nat, r: Run)
    requires i <= |l|
  {
    i < |l| && r.End() == l[i].page
  }

  /** The run that an inserted run becomes together with the neighbours it touches. */
  function Merged(l: seq<Run>, i: nat, r: Run): Run
    requires i <= |l|
  {
    var page := if JoinsPrev(l, i, r) then l[i - 1].page else r.page;
    var before := if JoinsPrev(l, i, r) then l[i - 1].count else 0;
    var after := if JoinsNext(l, i, r) then l[i].count else 0;
    Run(page, before + r.count + after)
  }

  function From(l: seq<Run>, i: nat, r: Run): nat
    requires i <= |l|
  {
    if JoinsPrev(l, i, r) then i - 1 else i
  }

  function To(l: seq<Run>, i: nat, r: Run): nat
    requires i <= |l|
  {
    if JoinsNext(l, i, r) then i + 1 else i
  }

  function InsertAt(l: seq<Run>, i: nat, r: Run): seq<Run>
    requires i <= |l|
  {
    l[..From(l, i, r)] + [Merged(l, i, r)] + l[To(l, i, r)..]
  }

  function Insert(l: seq<Run>, r: Run): seq<Run> {
    InsertAt(l, Below(l, r.page), r)
  }

  /** A run of pages that are not in the list fits between two of its runs. */
  lemma Fits(l: seq<Run>, r: Run)
    requires Canonical(l) && r.count > 0 && Range(r) !! Pages(l)
    ensures var i := Below(l, r.page);
            (i > 0 ==> l[i - 1].End() <= r.page) && (i < |l| ==> r.End() <= l[i].page)
  {
    var i := Below(l, r.page);
    assert r.page in Range(r);
    if i > 0 {
      HasIn(l, i - 1, r.page);
      assert r.page !in Pages(l);
    }
    if i < |l| {
      HasIn(l, i, l[i].page);
      assert l[i].page in Pages(l) && l[i].page !in Range(r);
    }
  }

  lemma InsertAtOk(l: seq<Run>, i: nat, r: Run)
    requires Canonical(l) && i <= |l| && r.count > 0
    requires (i > 0 ==> l[i - 1].End() <= r.page) && (i < |l| ==> r.End() <= l[i].page)
    ensures Canonical(InsertAt(l, i, r)) && Pages(InsertAt(l, i, r)) == Pages(l) + Range(r)
  {
    SpliceCanonical(l, From(l, i, r), To(l, i, r), Merged(l, i, r));
    forall p: nat ensures In(InsertAt(l, i, r), p) <==> In(l, p) || Has(r, p) {
      SplicePages(l, From(l, i, r), To(l, i, r), [Merged(l, i, r)], p);
      MergedPages(l, i, r, p);
    }
  }

  lemma MergedPages(l: seq<Run>, i: nat, r: Run, p: nat)
    requires i <= |l|
    ensures In([Merged(l, i, r)], p) <==> In(l[From(l, i, r)..To(l, i, r)], p) || Has(r, p)
  {
    Single(Merged(l, i, r), p);
    if JoinsPrev(l, i, r) && JoinsNext(l, i, r) {
      assert l[i - 1..i + 1] == [l[i - 1]] + [l[i]] + [];
      Join([l[i - 1]], [l[i]], [], p);
      Single(l[i - 1], p);
      Single(l[i], p);
    } else if JoinsPrev(l, i, r) {
      assert l[i - 1..i] == [l[i - 1]];
      Single(l[i - 1], p);
    } else if JoinsNext(l, i, r) {
      assert l[i..i + 1] == [l[i]];
      Single(l[i], p);
    }
  }

  lemma InsertOk(l: seq<Run>, r: Run)
    requires Canonical(l) && r.count > 0 && Range(r) !! Pages(l)
    ensures Canonical(Insert(l, r)) && Pages(Insert(l, r)) == Pages(l) + Range(r)
  {
    Fits(l, r);
    InsertAtOk(l, Below(l, r.page), r);
  }

  /** Taking pages off a run and putting them back gives the same list. */
  lemma TakeThenInsert(l: seq<Run>, k: nat, n: nat)
    requires Canonical(l) && k < |l| && 0 < n <= l[k].count
    ensures Insert(Take(l, k, n), Run(l[k].page, n)) == l
  {
    TakeOk(l, k, n);
    InsertOk(Take(l, k, n), Run(l[k].page, n));
    CanonicalUnique(Insert(Take(l, k, n), Run(l[k].page, n)), l);
  }

  /** Somewhere in the list there is room for all of an inserted run. */
  lemma InsertHasRoom(l: seq<Run>, r: Run)
    ensures exists i :: 0 <= i < |Insert(l, r)| && Insert(l, r)[i].count >= r.count
  {
    var i := Below(l, r.page);
    assert Insert(l, r)[From(l, i, r)] == Merged(l, i, r);
  }
}
