/** The queue of timers, each counting from the one before it. */
module Timers {
  /** Milliseconds per clock tick. */
  const TICK: nat := 20

  datatype Timer = Timer(id: nat, count: int)

  // ---- The queue as a list of deadlines ----

  datatype Entry = Entry(id: nat, deadline: int)

  /** The sum of the first `n` counts. */
  function Sum(q: seq<Timer>, n: nat): int
    requires n <= |q|
  {
    if n == 0 then 0 else Sum(q, n - 1) + q[n - 1].count
  }

  /** The time left to the timer at `i`. */
  function Due(q: seq<Timer>, i: nat): int
    requires i < |q|
  {
    Sum(q, i + 1)
  }

  /** The deadlines a queue stands for at time `now`. */
  ghost function Agenda(q: seq<Timer>, now: int): (a: seq<Entry>)
    ensures |a| == |q|
  {
    seq(|q|, i requires 0 <= i < |q| => Entry(q[i].id, now + Due(q, i)))
  }

  ghost predicate Sorted(a: seq<Entry>) {
    forall i, j :: 0 <= i < j < |a| ==> a[i].deadline <= a[j].deadline
  }

  /** The entry is new at `k`, behind all deadlines that are not later and before all that are. */
  ghost predicate Entered(a: seq<Entry>, e: Entry, k: nat, a': seq<Entry>) {
    && k <= |a| && a' == a[..k] + [e] + a[k..]
    && (forall i :: 0 <= i < k ==> a[i].deadline <= e.deadline)
    && (forall i :: k <= i < |a| ==> a[i].deadline > e.deadline)
  }

  lemma EnteredInOrder(a: seq<Entry>, e: Entry, k: nat, a': seq<Entry>)
    requires Sorted(a) && Entered(a, e, k, a')
    ensures Sorted(a')
  {
  }

  /** No count behind the first is negative. */
  predicate Forward(q: seq<Timer>) {
    forall i :: 1 <= i < |q| ==> q[i].count >= 0
  }

  lemma {:induction false} SumsGrow(q: seq<Timer>, i: nat, j: nat)
    requires Forward(q) && 0 < i <= j <= |q|
    ensures Sum(q, i) <= Sum(q, j)
    decreases j
  {
    if i < j {
      SumsGrow(q, i, j - 1);
    }
  }

  /** The deadlines are sorted exactly if no count behind the first is negative. */
  lemma SortedIff(q: seq<Timer>, now: int)
    ensures Sorted(Agenda(q, now)) <==> Forward(q)
  {
    var a := Agenda(q, now);
    if Forward(q) {
      forall i, j | 0 <= i < j < |a| ensures a[i].deadline <= a[j].deadline {
        SumsGrow(q, i + 1, j + 1);
      }
    }
    if Sorted(a) {
      forall i | 1 <= i < |q| ensures q[i].count >= 0 {
        assert a[i - 1].deadline <= a[i].deadline;
      }
    }
  }

  // ---- The operations on the queue ----

  /** The first place whose deadline is more than `count` away. */
  function Place(q: seq<Timer>, k: nat, count: int): (p: nat)
    requires k <= |q|
    ensures k <= p <= |q| && (forall i :: k <= i < p ==> Due(q, i) <= Sum(q, k) + count)
    ensures p < |q| ==> Due(q, p) > Sum(q, k) + count
    decreases |q| - k
  {
    if k < |q| && q[k].count <= count then Place(q, k + 1, count - q[k].count) else k
  }

  /** A timer put at `k` that counts `count` from the timer before it. */
  function InsertedAt(q: seq<Timer>, k: nat, id: nat, count: int): (r: seq<Timer>)
    requires k <= |q|
    ensures |r| == |q| + 1
  {
    q[..k] + [Timer(id, count)] + if k < |q| then [Timer(q[k].id, q[k].count - count)] + q[k + 1..] else []
  }

  function Inserted(q: seq<Timer>, id: nat, count: int): seq<Timer> {
    var k := Place(q, 0, count);
    InsertedAt(q, k, id, count - Sum(q, k))
  }

  lemma InsertedNth(q: seq<Timer>, k: nat, id: nat, count: int, i: nat)
    requires k <= |q| && i <= |q|
    ensures InsertedAt(q, k, id, count)[i] ==
            if i < k then q[i] else if i == k then Timer(id, count)
            else if i == k + 1 then Timer(q[k].id, q[k].count - count) else q[i - 1]
  {
  }

  lemma {:induction false} InsertedSums(q: seq<Timer>, k: nat, id: nat, count: int, i: nat)
    requires k <= |q| && i <= |q| + 1
    ensures var r := InsertedAt(q, k, id, count - Sum(q, k));
            Sum(r, i) == if i <= k then Sum(q, i) else if i == k + 1 then count else Sum(q, i - 1)
  {
    if i > 0 {
      InsertedSums(q, k, id, count, i - 1);
      InsertedNth(q, k, id, count - Sum(q, k), i - 1);
    }
  }

  lemma InsertedEntry(q: seq<Timer>, k: nat, id: nat, count: int, now: int, i: nat)
    requires k <= |q| && i <= |q|
    ensures var a := Agenda(q, now);
            Agenda(InsertedAt(q, k, id, count - Sum(q, k)), now)[i] == (a[..k] + [Entry(id, now + count)] + a[k..])[i]
  {
    InsertedSums(q, k, id, count, i + 1);
    InsertedNth(q, k, id, count - Sum(q, k), i);
    var a := Agenda(q, now);
    assert i > k ==> a[k..][i - 1 - k] == a[i - 1];
  }

  ghost function EnteredAt(a: seq<Entry>, e: Entry, k: nat): seq<Entry>
    requires k <= |a|
  {
    a[..k] + [e] + a[k..]
  }

  /** A timer put anywhere, counting from the one before it what is left of its time, adds just its deadline. */
  lemma InsertedDeadlines(q: seq<Timer>, k: nat, id: nat, count: int, now: int)
    requires k <= |q|
    ensures Agenda(InsertedAt(q, k, id, count - Sum(q, k)), now) == EnteredAt(Agenda(q, now), Entry(id, now + count), k)
  {
    var a', b := Agenda(InsertedAt(q, k, id, count - Sum(q, k)), now), EnteredAt(Agenda(q, now), Entry(id, now + count), k);
    forall i | 0 <= i < |b| ensures a'[i] == b[i] {
      InsertedEntry(q, k, id, count, now, i);
    }
  }

  lemma InsertMovesNone(q: seq<Timer>, id: nat, count: int, now: int)
    ensures Agenda(Inserted(q, id, count), now) == EnteredAt(Agenda(q, now), Entry(id, now + count), Place(q, 0, count))
  {
    InsertedDeadlines(q, Place(q, 0, count), id, count, now);
  }

  lemma InsertRefines(q: seq<Timer>, id: nat, count: int, now: int)
    requires Forward(q)
    ensures Entered(Agenda(q, now), Entry(id, now + count), Place(q, 0, count), Agenda(Inserted(q, id, count), now))
  {
    InsertMovesNone(q, id, count, now);
    PlaceSplits(q, count, now);
  }

  lemma PlaceSplits(q: seq<Timer>, count: int, now: int)
    requires Forward(q)
    ensures var k, a := Place(q, 0, count), Agenda(q, now);
            && (forall i :: 0 <= i < k ==> a[i].deadline <= now + count)
            && (forall i :: k <= i < |a| ==> a[i].deadline > now + count)
  {
    var k, a := Place(q, 0, count), Agenda(q, now);
    forall i | 0 <= i < k ensures a[i].deadline <= now + count {
      assert Due(q, i) <= count;
    }
    forall i | k <= i < |a| ensures a[i].deadline > now + count {
      SumsGrow(q, k + 1, i + 1);
    }
  }

  lemma InsertedInFront(q: seq<Timer>, id: nat, count: int)
    requires q == [] || q[0].count > count
    ensures Inserted(q, id, count) == [Timer(id, count)] + if q == [] then [] else [Timer(q[0].id, q[0].count - count)] + q[1..]
  {
  }

  /** The queue without the timer at `i`, whose count the next one takes over. */
  function Removed(q: seq<Timer>, i: nat): (r: seq<Timer>)
    requires i < |q|
    ensures |r| == |q| - 1
  {
    q[..i] + if i + 1 < |q| then [Timer(q[i + 1].id, q[i + 1].count + q[i].count)] + q[i + 2..] else []
  }

  lemma RemovedNth(q: seq<Timer>, i: nat, j: nat)
    requires i < |q| && j < |q| - 1
    ensures Removed(q, i)[j] ==
            if j < i then q[j] else if j == i then Timer(q[i + 1].id, q[i + 1].count + q[i].count) else q[j + 1]
  {
  }

  lemma {:induction false} RemovedSums(q: seq<Timer>, i: nat, j: nat)
    requires i < |q| && j < |q|
    ensures Sum(Removed(q, i), j) == if j <= i then Sum(q, j) else Sum(q, j + 1)
  {
    if j > 0 {
      RemovedSums(q, i, j - 1);
      RemovedNth(q, i, j - 1);
    }
  }

  lemma RemovedEntry(q: seq<Timer>, i: nat, now: int, j: nat)
    requires i < |q| && j < |q| - 1
    ensures Agenda(Removed(q, i), now)[j] == (Agenda(q, now)[..i] + Agenda(q, now)[i + 1..])[j]
  {
    RemovedSums(q, i, j + 1);
    RemovedNth(q, i, j);
  }

  lemma RemoveRefines(q: seq<Timer>, i: nat, now: int)
    requires i < |q|
    ensures Agenda(Removed(q, i), now) == Agenda(q, now)[..i] + Agenda(q, now)[i + 1..]
  {
    var a, a' := Agenda(q, now), Agenda(Removed(q, i), now);
    var b := a[..i] + a[i + 1..];
    forall j | 0 <= j < |b| ensures a'[j] == b[j] {
      RemovedEntry(q, i, now, j);
    }
  }

  function Ticked(q: seq<Timer>): seq<Timer> {
    if q == [] then q else q[0 := Timer(q[0].id, q[0].count - TICK)]
  }

  /** A tick moves the clock and no deadline. */
  lemma TickRefines(q: seq<Timer>, now: int)
    ensures Agenda(Ticked(q), now + TICK) == Agenda(q, now)
  {
    var a, a' := Agenda(q, now), Agenda(Ticked(q), now + TICK);
    forall i | 0 <= i < |q| ensures a'[i] == a[i] {
      TickedSums(q, i);
    }
  }

  lemma FirstDue(q: seq<Timer>)
    requires q != []
    ensures Due(q, 0) == q[0].count
  {
    assert Sum(q, 0) == 0;
  }

  lemma {:induction false} TickedSums(q: seq<Timer>, i: nat)
    requires i < |q|
    ensures Due(Ticked(q), i) == Due(q, i) - TICK
  {
    if i == 0 {
      FirstDue(q);
      FirstDue(Ticked(q));
    } else {
      TickedSums(q, i - 1);
    }
  }

  lemma InsertedForward(q: seq<Timer>, id: nat, count: int, now: int)
    requires Forward(q)
    ensures Forward(Inserted(q, id, count))
  {
    InsertRefines(q, id, count, now);
    SortedIff(q, now);
    EnteredInOrder(Agenda(q, now), Entry(id, now + count), Place(q, 0, count), Agenda(Inserted(q, id, count), now));
    SortedIff(Inserted(q, id, count), now);
  }

  lemma RemovedForward(q: seq<Timer>, i: nat)
    requires Forward(q) && i < |q|
    ensures Forward(Removed(q, i))
  {
    forall j | 1 <= j < |q| - 1 ensures Removed(q, i)[j].count >= 0 {
      RemovedNth(q, i, j);
    }
  }

  class TimerQueue {
    var timers: seq<Timer>
    var timeout: bool

    constructor ()
      ensures timers == [] && !timeout
    {
      timers, timeout := [], false;
    }

    /** Enters a timer: its deadline comes behind all deadlines that are not later. */
    method Insert(id: nat, msec: nat, ghost now: int)
      modifies this`timers
      ensures timers == Inserted(old(timers), id, msec)
      ensures Agenda(timers, now) == EnteredAt(old(Agenda(timers, now)), Entry(id, now + msec), Place(old(timers), 0, msec))
      ensures old(Forward(timers)) ==>
                && Forward(timers)
                && Entered(old(Agenda(timers, now)), Entry(id, now + msec), Place(old(timers), 0, msec), Agenda(timers, now))
    {
      InsertMovesNone(timers, id, msec, now);
      if Forward(timers) {
        InsertRefines(timers, id, msec, now);
        InsertedForward(timers, id, msec, now);
      }
      if timers == [] {
        InsertedInFront(timers, id, msec);
        timers := [Timer(id, msec)];
      } else if timers[0].count > msec {
        InsertedInFront(timers, id, msec);
        timers := [Timer(id, msec)] + [Timer(timers[0].id, timers[0].count - msec)] + timers[1..];
      } else {
        var i, count := 0, msec as int;
        while i < |timers| && timers[i].count <= count
          invariant i <= |timers| && count == msec - Sum(timers, i)
          invariant Place(timers, 0, msec) == Place(timers, i, count)
        {
          count := count - timers[i].count;
          i := i + 1;
        }
        timers := timers[..i] + [Timer(id, count)] +
          if i < |timers| then [Timer(timers[i].id, timers[i].count - count)] + timers[i + 1..] else [];
      }
    }

    /** Takes a timer out of the queue; reports whether it was there. The other deadlines stay. */
    method Stop(id: nat, ghost now: int) returns (found: bool)
      modifies this`timers
      ensures old(Forward(timers)) ==> Forward(timers)
      ensures found <==> exists i :: 0 <= i < |old(timers)| && old(timers)[i].id == id
      ensures !found ==> timers == old(timers)
      ensures found ==> exists i: nat ::
                && i < |old(timers)| && old(timers)[i].id == id && timers == Removed(old(timers), i)
                && Agenda(timers, now) == old(Agenda(timers, now))[..i] + old(Agenda(timers, now))[i + 1..]
    {
      var i := 0;
      while i < |timers| && timers[i].id != id
        invariant i <= |timers| && forall j :: 0 <= j < i ==> timers[j].id != id
      {
        i := i + 1;
      }
      if i == |timers| {
        return false;
      }
      RemoveRefines(timers, i, now);
      if Forward(timers) {
        RemovedForward(timers, i);
      }
      timers := timers[..i] +
        if i + 1 < |timers| then [Timer(timers[i + 1].id, timers[i + 1].count + timers[i].count)] + timers[i + 2..] else [];
      return true;
    }

    /** The clock interrupt looks at the first timer only, and yet all deadlines come nearer. */
    method Tick(ghost now: int)
      modifies this
      ensures old(Forward(timers)) ==> Forward(timers)
      ensures timers == Ticked(old(timers)) && Agenda(timers, now + TICK) == old(Agenda(timers, now))
      ensures timeout <==> old(timeout) || (timers != [] && timers[0].count <= 0)
    {
      TickRefines(timers, now);
      if timers != [] {
        timers := timers[0 := Timer(timers[0].id, timers[0].count - TICK)];
        if timers[0].count <= 0 {
          timeout := true;
        }
      }
    }

    /** Ends timers from the first on while their deadline has come: with the deadlines sorted, all those. */
    method Expire(ghost now: int) returns (fired: seq<nat>)
      modifies this
      ensures !timeout && (old(Forward(timers)) ==> Forward(timers)) && (timers == [] || timers[0].count > 0)
      ensures |fired| <= |old(timers)| && Agenda(timers, now) == old(Agenda(timers, now))[|fired|..]
      ensures forall i :: 0 <= i < |fired| ==> fired[i] == old(timers)[i].id && old(Agenda(timers, now))[i].deadline <= now
      ensures old(Forward(timers)) ==>
                forall i :: |fired| <= i < |old(timers)| ==> old(Agenda(timers, now))[i].deadline > now
    {
      timeout, fired := false, [];
      ghost var all := Agenda(timers, now);
      assert forall i :: 0 <= i < |all| ==> all[i].id == timers[i].id;
      while timers != [] && timers[0].count <= 0
        invariant !timeout && (old(Forward(timers)) ==> Forward(timers)) && |fired| <= |all| && Rest(timers, all, |fired|, now)
        invariant forall i :: 0 <= i < |fired| ==> fired[i] == all[i].id && all[i].deadline <= now
        decreases |timers|
      {
        fired := Fire(fired, all, now);
      }
      if Forward(timers) {
        NoneDue(timers, all, |fired|, now);
      }
    }

    /** Ends the first timer; the next one takes over what is left of its count. */
    method Fire(fired: seq<nat>, ghost all: seq<Entry>, ghost now: int) returns (fired': seq<nat>)
      requires timers != [] && timers[0].count <= 0 && Rest(timers, all, |fired|, now)
      requires forall i :: 0 <= i < |fired| ==> fired[i] == all[i].id && all[i].deadline <= now
      modifies this`timers
      ensures timers == Removed(old(timers), 0) && (old(Forward(timers)) ==> Forward(timers))
      ensures |fired'| == |fired| + 1 && Rest(timers, all, |fired'|, now)
      ensures forall i :: 0 <= i < |fired'| ==> fired'[i] == all[i].id && all[i].deadline <= now
    {
      FirstLeaves(timers, all, |fired|, now);
      fired' := fired + [timers[0].id];
      timers := if |timers| > 1 then [Timer(timers[1].id, timers[1].count + timers[0].count)] + timers[2..] else [];
    }
  }

  /** The queue stands for all deadlines but the first `n`. */
  ghost predicate Rest(q: seq<Timer>, all: seq<Entry>, n: nat, now: int) {
    var ok := n <= |all| && Agenda(q, now) == all[n..];
    ok
  }

  lemma FirstLeaves(q: seq<Timer>, all: seq<Entry>, n: nat, now: int)
    requires q != [] && q[0].count <= 0 && Rest(q, all, n, now)
    ensures n < |all| && all[n] == Entry(q[0].id, now + q[0].count)
    ensures (Forward(q) ==> Forward(Removed(q, 0))) && Rest(Removed(q, 0), all, n + 1, now)
    ensures Removed(q, 0) == if |q| > 1 then [Timer(q[1].id, q[1].count + q[0].count)] + q[2..] else []
  {
    FirstDue(q);
    RemoveRefines(q, 0, now);
    var a := Agenda(q, now);
    assert a[0] == all[n];
    assert a[..0] + a[1..] == all[n + 1..];
  }

  lemma NoneDue(q: seq<Timer>, all: seq<Entry>, n: nat, now: int)
    requires Forward(q) && Rest(q, all, n, now) && (q == [] || q[0].count > 0)
    ensures forall i :: n <= i < |all| ==> all[i].deadline > now
  {
    var a := Agenda(q, now);
    SortedIff(q, now);
    forall i | n <= i < |all| ensures all[i].deadline > now {
      FirstDue(q);
      assert all[i] == a[i - n] && a[0].deadline <= a[i - n].deadline;
    }
  }
}
