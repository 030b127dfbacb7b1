/** Ready queues, the choice of the next thread, and the ageing of priorities. */
module Scheduling {
  import opened Basics

  const BUCKETS: nat := 32
  const TIME_QUANTUM: int := 100
  const TICK_MSEC: int := 20

  const CLASS_INTERRUPT: nat := 1
  const CLASS_SYSTEM: nat := 2
  const CLASS_USER: nat := 3
  const CLASS_IDLE: nat := 4

  datatype State = Sleep | Ready | Running | Other

  datatype ThreadInfo = ThreadInfo(state: State, cid: nat, usrpri: int, cpupri: int, inhpri: int,
                                   readyStart: int, tqleft: int, chan: Option<nat>, owned: seq<nat>)

  function BasePri(cid: nat): int {
    if cid == CLASS_INTERRUPT then 130 else if cid == CLASS_SYSTEM then 100 else if cid == CLASS_USER then 10 else 0
  }

  function MaxPri(cid: nat): int {
    if cid == CLASS_INTERRUPT then 159 else if cid == CLASS_SYSTEM then 129 else if cid == CLASS_USER then 99 else 0
  }

  /** A thread's priorities stay within the bounds of its class. */
  type Thread = t: ThreadInfo | 1 <= t.cid <= 4 && BasePri(t.cid) <= t.cpupri <= MaxPri(t.cid) && 0 <= t.inhpri <= 159
    witness ThreadInfo(Other, CLASS_IDLE, 0, 0, 0, 0, 0, None, [])

  /** Effective priority. */
  function Eff(t: Thread): (p: int)
    ensures 0 <= p <= 159
  {
    if t.cpupri > t.inhpri then t.cpupri else t.inhpri
  }

  function Bucket(t: Thread): (b: nat)
    ensures b < BUCKETS
  {
    if t.cpupri > t.inhpri then (159 - t.cpupri) / 5 else (159 - t.inhpri) / 5
  }

  // ---- The ready queues ----

  /** Every ready thread is once in the bucket of its priority and in no other; threads of `out` are in none. */
  ghost predicate Queued(threads: seq<Thread>, ready: seq<seq<nat>>, out: set<nat>) {
    var ok :=
      && |ready| == BUCKETS
      && (forall b :: 0 <= b < BUCKETS ==> Distinct(ready[b]))
      && (forall b, id: nat :: 0 <= b < BUCKETS ==> (id in ready[b] <==> Fits(threads, id, out, b)));
    ok
  }

  ghost predicate Distinct(q: seq<nat>) {
    forall i, j :: 0 <= i < j < |q| ==> q[i] != q[j]
  }

  ghost predicate Fits(threads: seq<Thread>, id: nat, out: set<nat>, b: nat) {
    id < |threads| && id !in out && threads[id].state == Ready && Bucket(threads[id]) == b
  }

  lemma EnqueueOk(threads: seq<Thread>, ready: seq<seq<nat>>, out: set<nat>, id: nat, t: Thread)
    requires Queued(threads, ready, out) && id < |threads| && (threads[id].state != Ready || id in out) && t.state == Ready
    ensures |ready| == BUCKETS
    ensures Queued(threads[id := t], ready[Bucket(t) := ready[Bucket(t)] + [id]], out - {id})
  {
    var b := Bucket(t);
    var threads', ready' := threads[id := t], ready[b := ready[b] + [id]];
    forall c, x: nat | 0 <= c < BUCKETS ensures x in ready'[c] <==> Fits(threads', x, out - {id}, c) {
      assert x in ready[c] <==> Fits(threads, x, out, c);
    }
    assert !Fits(threads, id, out, b);
  }

  /** A thread that is in no bucket, and is not to be in one, may change; so may one that keeps its bucket. */
  lemma ChangeOk(threads: seq<Thread>, ready: seq<seq<nat>>, out: set<nat>, id: nat, t: Thread)
    requires Queued(threads, ready, out) && id < |threads|
    requires id in out || (threads[id].state != Ready && t.state != Ready) || (t.state == threads[id].state && Bucket(t) == Bucket(threads[id]))
    ensures Queued(threads[id := t], ready, out)
  {
    var threads' := threads[id := t];
    forall b, x: nat | 0 <= b < BUCKETS ensures x in ready[b] <==> Fits(threads', x, out, b) {
      assert x in ready[b] <==> Fits(threads, x, out, b);
    }
  }

  function Without(q: seq<nat>, id: nat): seq<nat> {
    if q == [] then [] else if q[0] == id then q[1..] else [q[0]] + Without(q[1..], id)
  }

  lemma {:induction false} WithoutOk(q: seq<nat>, id: nat)
    requires Distinct(q)
    ensures Distinct(Without(q, id)) && forall x :: x in Without(q, id) <==> x in q && x != id
  {
    if q != [] {
      assert q == [q[0]] + q[1..];
      WithoutOk(q[1..], id);
      assert q[0] !in q[1..];
    }
  }

  lemma DequeueOk(threads: seq<Thread>, ready: seq<seq<nat>>, out: set<nat>, id: nat)
    requires Queued(threads, ready, out) && id < |threads| && threads[id].state == Ready
    ensures |ready| == BUCKETS
    ensures var b := Bucket(threads[id]); Queued(threads, ready[b := Without(ready[b], id)], out + {id})
  {
    var b := Bucket(threads[id]);
    var ready', out' := ready[b := Without(ready[b], id)], out + {id};
    WithoutOk(ready[b], id);
    forall c, x: nat | 0 <= c < BUCKETS ensures x in ready'[c] <==> Fits(threads, x, out', c) {
      assert x in ready[c] <==> Fits(threads, x, out, c);
    }
  }

  ghost function Members(q: seq<nat>): set<nat> {
    set id | id in q
  }

  lemma DetachOk(threads: seq<Thread>, ready: seq<seq<nat>>, out: set<nat>, b: nat)
    requires Queued(threads, ready, out) && b < BUCKETS && |ready| == BUCKETS
    ensures Queued(threads, ready[b := []], out + Members(ready[b])) && Members(ready[b]) !! out
  {
    var ready', out' := ready[b := []], out + Members(ready[b]);
    forall c, x: nat | 0 <= c < BUCKETS ensures x in ready'[c] <==> Fits(threads, x, out', c) {
      assert x in ready[c] <==> Fits(threads, x, out, c);
      assert x in ready[b] <==> Fits(threads, x, out, b);
    }
  }

  /** A thread that is declared ready before it is put into a bucket is one of those outside. */
  lemma MarkOk(threads: seq<Thread>, ready: seq<seq<nat>>, out: set<nat>, id: nat, t: Thread)
    requires Queued(threads, ready, out) && id < |threads| && threads[id].state != Ready
    ensures Queued(threads[id := t], ready, out + {id})
  {
    var threads', out' := threads[id := t], out + {id};
    forall b, x: nat | 0 <= b < BUCKETS ensures x in ready[b] <==> Fits(threads', x, out', b) {
      assert x in ready[b] <==> Fits(threads, x, out, b);
    }
  }

  /** Thread `m` was taken for the only one of bucket `b`, and put into bucket `j`. */
  function Trampled(ready: seq<seq<nat>>, b: nat, j: nat, m: nat): seq<seq<nat>>
    requires |ready| == BUCKETS && b < BUCKETS && j < BUCKETS
  {
    var emptied := ready[b := []];
    emptied[j := emptied[j] + [m]]
  }

  /** If the thread was in no bucket, the threads that were in bucket `b` are then in none, and the others keep theirs. */
  lemma TrampledLoses(threads: seq<Thread>, ready: seq<seq<nat>>, out: set<nat>, b: nat, j: nat, m: nat)
    requires Queued(threads, ready, out) && |ready| == BUCKETS && b < BUCKETS && j < BUCKETS && m in out
    ensures var ready' := Trampled(ready, b, j, m);
            && !Queued(threads, ready', out) && m in ready'[j]
            && (forall c, x: nat :: 0 <= c < BUCKETS && x != m ==> (x in ready'[c] <==> x in ready[c] && c != b))
            && (forall c, x: nat :: 0 <= c < BUCKETS && x in ready[b] && x != m ==> x !in ready'[c])
  {
    var ready' := Trampled(ready, b, j, m);
    assert m in ready'[j] && !Fits(threads, m, out, j);
    forall c, x: nat | 0 <= c < BUCKETS && x in ready[b] && x != m ensures x !in ready'[c] {
      assert Fits(threads, x, out, b);
      assert x in ready[c] <==> Fits(threads, x, out, c);
    }
  }

  // ---- The order within the buckets ----

  /** The threads of `q` that belong into bucket `c`, in their order. */
  ghost function Of(threads: seq<Thread>, q: seq<nat>, c: nat): seq<nat> {
    if q == [] then [] else
    var id := q[|q| - 1];
    Of(threads, q[..|q| - 1], c) + if id < |threads| && Bucket(threads[id]) == c then [id] else []
  }

  /** The threads of `q` joined the buckets they belong into, one after the other and behind all others. */
  ghost predicate Appended(threads: seq<Thread>, ready: seq<seq<nat>>, q: seq<nat>, ready': seq<seq<nat>>) {
    var ok := |ready| == |ready'| == BUCKETS && forall c :: 0 <= c < BUCKETS ==> ready'[c] == ready[c] + Of(threads, q, c);
    ok
  }

  lemma AppendedNext(threads: seq<Thread>, ready: seq<seq<nat>>, q: seq<nat>, i: nat, ready': seq<seq<nat>>)
    requires i < |q| && q[i] < |threads| && Appended(threads, ready, q[..i], ready')
    ensures var b := Bucket(threads[q[i]]); Appended(threads, ready, q[..i + 1], ready'[b := ready'[b] + [q[i]]])
  {
    assert q[..i + 1][..i] == q[..i];
  }

  lemma {:induction false} OfSame(threads: seq<Thread>, threads': seq<Thread>, q: seq<nat>, c: nat)
    requires |threads'| == |threads| && forall i :: 0 <= i < |q| && q[i] < |threads| ==> Bucket(threads'[q[i]]) == Bucket(threads[q[i]])
    ensures Of(threads', q, c) == Of(threads, q, c)
    decreases |q|
  {
    if q != [] {
      assert q[|q| - 1] == q[..|q|][|q| - 1];
      OfSame(threads, threads', q[..|q| - 1], c);
    }
  }

  lemma AppendedSame(threads: seq<Thread>, threads': seq<Thread>, ready: seq<seq<nat>>, q: seq<nat>, ready': seq<seq<nat>>)
    requires Appended(threads, ready, q, ready')
    requires |threads'| == |threads| && forall i :: 0 <= i < |q| && q[i] < |threads| ==> Bucket(threads'[q[i]]) == Bucket(threads[q[i]])
    ensures Appended(threads', ready, q, ready')
  {
    forall c | 0 <= c < BUCKETS ensures Of(threads', q, c) == Of(threads, q, c) {
      OfSame(threads, threads', q, c);
    }
  }

  lemma {:induction false} OfNone(threads: seq<Thread>, q: seq<nat>, c: nat)
    requires forall i :: 0 <= i < |q| && q[i] < |threads| ==> Bucket(threads[q[i]]) != c
    ensures Of(threads, q, c) == []
    decreases |q|
  {
    if q != [] {
      assert q[|q| - 1] == q[..|q|][|q| - 1];
      OfNone(threads, q[..|q| - 1], c);
    }
  }

  /** What an ageing pass leaves in bucket `c`, if the threads are `threads` then: those of its own that stay, and
      behind them those that rise from the next bucket. The last bucket is left out. */
  ghost function AgedQueue(threads: seq<Thread>, ready: seq<seq<nat>>, c: nat): seq<nat>
    requires |ready| == BUCKETS && c < BUCKETS
  {
    if c == BUCKETS - 1 then ready[c] else
    Of(threads, ready[c], c) + if c + 1 < BUCKETS - 1 then Of(threads, ready[c + 1], c) else []
  }

  /** The buckets when the first `b` have been handled. */
  ghost predicate AgedUpTo(threads: seq<Thread>, ready: seq<seq<nat>>, b: nat, ready': seq<seq<nat>>) {
    var ok := |ready| == BUCKETS && forall c: nat :: c < BUCKETS ==> AgedAt(threads, ready, b, ready', c);
    ok && |ready'| == BUCKETS
  }

  ghost predicate AgedAt(threads: seq<Thread>, ready: seq<seq<nat>>, b: nat, ready': seq<seq<nat>>, c: nat)
    requires |ready| == BUCKETS && c < BUCKETS
  {
    && |ready'| == BUCKETS
    && ready'[c] == if c + 1 < b then AgedQueue(threads, ready, c) else if c + 1 == b then Of(threads, ready[c], c) else ready[c]
  }

  /** Handling one more bucket, from which threads rise by one bucket at most. */
  lemma AgedNext(threads: seq<Thread>, ready: seq<seq<nat>>, b: nat, ready': seq<seq<nat>>, ready'': seq<seq<nat>>)
    requires b < BUCKETS - 1 && AgedUpTo(threads, ready, b, ready') && Appended(threads, ready'[b := []], ready[b], ready'')
    requires forall i :: 0 <= i < |ready[b]| && ready[b][i] < |threads| ==> b - 1 <= Bucket(threads[ready[b][i]]) <= b
    ensures AgedUpTo(threads, ready, b + 1, ready'')
  {
    var n := b + 1;
    forall c: nat | c < BUCKETS ensures AgedAt(threads, ready, n, ready'', c) {
      assert AgedAt(threads, ready, b, ready', c);
      assert ready''[c] == ready'[b := []][c] + Of(threads, ready[b], c);
      if c != b && c + 1 != b {
        OfNone(threads, ready[b], c);
      }
    }
  }

  lemma AgedAll(threads: seq<Thread>, ready: seq<seq<nat>>, ready': seq<seq<nat>>)
    requires AgedUpTo(threads, ready, BUCKETS - 1, ready')
    ensures forall c :: 0 <= c < BUCKETS ==> ready'[c] == AgedQueue(threads, ready, c)
  {
    forall c | 0 <= c < BUCKETS ensures ready'[c] == AgedQueue(threads, ready, c) {
      assert AgedAt(threads, ready, BUCKETS - 1, ready', c);
    }
  }

  // ---- Priorities over time ----

  function Boosted(t: Thread, now: int): Thread {
    var more := t.cpupri + if (now - t.readyStart) % 0x1_0000_0000 > 3000 then 4 else 2;
    t.(cpupri := if more > MaxPri(t.cid) then MaxPri(t.cid) else more)
  }

  /** The thread has gained what a thread that waits gains in an ageing pass: four if it has waited for more than
      three seconds and two otherwise, up to the maximum of its class. */
  predicate Aged(t: Thread, now: int, t': Thread) {
    var gain := if (now - t.readyStart) % 0x1_0000_0000 > 3000 then 4 else 2;
    && t' == t.(cpupri := t'.cpupri)
    && (if t.cpupri + gain <= MaxPri(t.cid) then t'.cpupri == t.cpupri + gain else t'.cpupri == MaxPri(t.cid))
  }

  predicate AgedIf(ages: bool, t: Thread, now: int, t': Thread) {
    if ages then Aged(t, now, t') else t' == t
  }

  /** It then belongs at most one bucket further up. */
  lemma AgedBucket(t: Thread, now: int, t': Thread)
    requires Aged(t, now, t')
    ensures Bucket(t) - 1 <= Bucket(t') <= Bucket(t)
  {
  }

  /** What passes at the given times add up to. */
  function Gains(t: Thread, times: seq<int>): nat {
    if times == [] then 0 else
    Gains(t, times[..|times| - 1]) + if (times[|times| - 1] - t.readyStart) % 0x1_0000_0000 > 3000 then 4 else 2
  }

  lemma {:induction false} GainsAtLeast(t: Thread, times: seq<int>)
    ensures 2 * |times| <= Gains(t, times) <= 4 * |times|
  {
    if times != [] {
      GainsAtLeast(t, times[..|times| - 1]);
    }
  }

  function Ticked(t: Thread): Thread {
    var left := t.tqleft - TICK_MSEC;
    var less := t.cpupri - 10;
    t.(tqleft := left, cpupri := if left > 0 then t.cpupri else if less < BasePri(t.cid) then BasePri(t.cid) else less)
  }

  function Woken(t: Thread): Thread {
    t.(cpupri := if t.cpupri + 5 > MaxPri(t.cid) then MaxPri(t.cid) else t.cpupri + 5)
  }

  /** What the choice within a bucket goes by: the smallest wins. */
  function Cost(t: Thread): int {
    t.usrpri + Eff(t)
  }

  /** The thread at `k` is the first one of least cost among the first `n`. */
  ghost predicate Cheapest(threads: seq<Thread>, q: seq<nat>, k: nat, n: nat)
    requires k < n <= |q| && forall i :: 0 <= i < |q| ==> q[i] < |threads|
  {
    var t := threads[q[k]];
    forall i :: 0 <= i < n ==>
      var u := threads[q[i]];
      t.usrpri + Eff(t) <= u.usrpri + Eff(u) && (i < k ==> t.usrpri + Eff(t) < u.usrpri + Eff(u))
  }

  /** The queues, and the threads that have been declared ready by a wakeup which has still to put them into one. */
  class ReadyQueues {
    var threads: seq<Thread>
    var ready: seq<seq<nat>>
    ghost var marked: set<nat>

    constructor (threads: seq<Thread>)
      requires forall id :: 0 <= id < |threads| ==> threads[id].state != Ready
      ensures this.threads == threads && marked == {} && Queued(this.threads, ready, marked)
    {
      this.threads, ready, marked := threads, seq(BUCKETS, _ => []), {};
    }

    /** Makes a thread ready, behind all others of its bucket. */
    method AddReady(id: nat, ghost out: set<nat>)
      requires |ready| == BUCKETS && id < |threads|
      modifies this`threads, this`ready
      ensures threads == old(threads)[id := old(threads)[id].(state := Ready, chan := None)]
      ensures old(Queued(threads, ready, out) && (threads[id].state != Ready || id in out)) ==> Queued(threads, ready, out - {id})
      ensures var b := Bucket(old(threads)[id]); ready == old(ready)[b := old(ready)[b] + [id]]
    {
      var t := threads[id];
      if Queued(threads, ready, out) && (t.state != Ready || id in out) {
        EnqueueOk(threads, ready, out, id, t.(state := Ready, chan := None));
      }
      var i := if t.cpupri > t.inhpri then (159 - t.cpupri) / 5 else (159 - t.inhpri) / 5;
      threads := threads[id := t.(state := Ready, chan := None)];
      ready := ready[i := ready[i] + [id]];
    }

    /** Takes a ready thread out of its bucket; reports whether there was one to take out. A ready thread that is in
        no bucket has no neighbours, and is taken for the only one of its bucket. */
    method DelReady(id: nat) returns (was: bool)
      requires Queued(threads, ready, marked) && id < |threads|
      modifies this`ready
      ensures was <==> threads[id].state == Ready
      ensures !was ==> ready == old(ready)
      ensures |old(ready)| == BUCKETS
      ensures var b := Bucket(threads[id]);
              was ==> ready == if id in marked then old(ready)[b := []] else old(ready)[b := Without(old(ready)[b], id)]
      ensures was && id !in marked ==> Queued(threads, ready, marked + {id})
    {
      if threads[id].state == Ready {
        var i := Bucket(threads[id]);
        DequeueOk(threads, ready, marked, id);
        assert id in ready[i] <==> Fits(threads, id, marked, i);
        ready := ready[i := if id in ready[i] then Without(ready[i], id) else []];
        return true;
      }
      return false;
    }

    /** The first bucket that is not empty. */
    method FirstBucket() returns (b: nat)
      requires |ready| == BUCKETS
      ensures b <= BUCKETS && (forall c :: 0 <= c < b ==> ready[c] == []) && (b < BUCKETS ==> ready[b] != [])
    {
      b := 0;
      while b < BUCKETS && ready[b] == []
        invariant b <= BUCKETS && forall c :: 0 <= c < b ==> ready[c] == []
      {
        b := b + 1;
      }
    }

    /** The first thread of least cost in a bucket. */
    method Select(b: nat) returns (k: nat)
      requires |ready| == BUCKETS && b < BUCKETS && ready[b] != []
      requires forall i :: 0 <= i < |ready[b]| ==> ready[b][i] < |threads|
      ensures k < |ready[b]| && Cheapest(threads, ready[b], k, |ready[b]|)
    {
      k := 0;
      var priority := Cost(threads[ready[b][0]]);
      for i := 1 to |ready[b]|
        invariant k < i && priority == Cost(threads[ready[b][k]]) && Cheapest(threads, ready[b], k, i)
      {
        var p := Cost(threads[ready[b][i]]);
        if priority > p {
          priority, k := p, i;
        }
      }
    }

    /** Hands the processor to the first thread of least cost in the first bucket that is not empty. Nothing is
        switched if no thread is ready, or if the choice is an idle thread and the current one can go on. */
    method Schedule(current: nat, now: int) returns (next: nat)
      requires Queued(threads, ready, marked) && current < |threads| && threads[current].state != Ready && current !in marked
      requires forall id :: 0 <= id < |threads| && threads[id].state == Running ==> id == current
      modifies this`threads, this`ready
      ensures Queued(threads, ready, marked) && |threads| == |old(threads)| && next < |threads|
      ensures Handed(old(threads), current, next, now, threads)
      ensures forall id :: 0 <= id < |threads| ==> (Runnable(threads[id]) <==> Runnable(old(threads)[id]))
      ensures forall id :: 0 <= id < |threads| && threads[id].state == Running ==> id == next
      ensures next != current ==> Dispatched(old(threads), old(ready), marked, next) && threads[next].state == Running
      ensures Rejoined(old(threads), old(ready), current, next, ready)
      ensures next == current ==> NoneReady(old(threads), marked) || (old(threads)[current].state == Running && IdleIsNext(old(threads), old(ready), marked))
    {
      var b := FirstBucket();
      if b == BUCKETS {
        EmptyMeansNone(threads, ready, marked);
        Renew(current, now);
        return current;
      }
      MembersAreThreads(threads, ready, marked, b);
      var k := Select(b);
      next := ready[b][k];
      FirstIsHighest(threads, ready, marked, b);
      if threads[next].cid == CLASS_IDLE && threads[current].state == Running {
        Renew(current, now);
        return current;
      }
      Switch(current, next, now);
    }

    /** Takes the processor from a thread that could go on. */
    method HandOn(current: nat, now: int) returns (next: nat)
      requires Queued(threads, ready, marked) && RunsAlone(threads, current) && current !in marked
      modifies this`threads, this`ready
      ensures |threads| == |old(threads)| && Queued(threads, ready, marked) && RunsAlone(threads, next)
      ensures PassedOn(old(threads), old(ready), marked, current, next, now, threads, ready)
    {
      next := Schedule(current, now);
    }

    /** Round robin: if the running thread and those of the first bucket that is not empty all belong there and cost the
        same, `n` switches later the thread `n` places on in the ring runs, and the others wait in the order of the ring. */
    method Rotate(first: nat, n: nat, now: int) returns (current: nat)
      requires Queued(threads, ready, marked) && RunsAlone(threads, first) && first !in marked
      requires InTurn(threads, ready, first)
      modifies this`threads, this`ready
      ensures |threads| == |old(threads)| && Queued(threads, ready, marked) && RunsAlone(threads, current)
      ensures var ring := old(Ring(threads, ready, first));
              current == ring[Place(n, |ring|)] && Ring(threads, ready, current) == Turned(ring, Place(n, |ring|))
    {
      ghost var ring, k := Ring(threads, ready, first), 0;
      current := first;
      NotTurned(threads, ready, ring, first);
      for i := 0 to n
        invariant |threads| == |old(threads)| && k == Place(i, |ring|) && Rotating(threads, ready, marked, ring, k, current)
      {
        current := TurnOnce(current, now, ring, k);
        k := NextPlace(k, |ring|);
      }
    }

    /** The next thread of the ring gets the processor. */
    method TurnOnce(current: nat, now: int, ghost ring: seq<nat>, ghost k: nat) returns (next: nat)
      requires Rotating(threads, ready, marked, ring, k, current)
      modifies this`threads, this`ready
      ensures |threads| == |old(threads)| && Rotating(threads, ready, marked, ring, NextPlace(k, |ring|), next)
    {
      ghost var threads0, ready0 := threads, ready;
      next := HandOn(current, now);
      TurnsOn(threads0, ready0, marked, ring, k, current, next, now, threads, ready);
    }

    /** A thread that costs more than the running one and another of its bucket is not dispatched while these two are
        ready, however often the processor is handed on. */
    method Alternate(first: nat, second: nat, third: nat, n: nat, now: int) returns (current: nat)
      requires Queued(threads, ready, marked) && RunsAlone(threads, first) && first !in marked
      requires Outbid(threads, ready, first, second, third)
      modifies this`threads, this`ready
      ensures |threads| == |old(threads)| && Queued(threads, ready, marked) && RunsAlone(threads, current)
      ensures current == (if n % 2 == 0 then first else second) && threads[third] == old(threads)[third]
    {
      current := first;
      ghost var other := second;
      for i := 0 to n
        invariant |threads| == |old(threads)| && Queued(threads, ready, marked) && RunsAlone(threads, current) && current !in marked
        invariant Outbid(threads, ready, current, other, third) && third < |threads| && threads[third] == old(threads)[third]
        invariant if i % 2 == 0 then current == first && other == second else current == second && other == first
      {
        ghost var threads0, ready0, current0 := threads, ready, current;
        current := HandOn(current, now);
        OutbidAgain(threads0, ready0, marked, current0, other, third, current, now, threads, ready);
        other := current0;
      }
    }

    /** Starts a new time slice for a thread. */
    method Renew(id: nat, now: int)
      requires Queued(threads, ready, marked) && id < |threads| && threads[id].state != Ready
      modifies this`threads
      ensures Queued(threads, ready, marked)
      ensures threads == old(threads)[id := old(threads)[id].(readyStart := now, tqleft := TIME_QUANTUM)]
    {
      ChangeOk(threads, ready, marked, id, threads[id].(readyStart := now, tqleft := TIME_QUANTUM));
      threads := threads[id := threads[id].(readyStart := now, tqleft := TIME_QUANTUM)];
    }

    /** Puts the current thread, if it can go on, into its bucket, and runs another. */
    method Switch(current: nat, next: nat, now: int)
      requires Queued(threads, ready, marked) && current < |threads| && threads[current].state != Ready && current !in marked
      requires next < |threads| && threads[next].state == Ready && next !in marked
      modifies this`threads, this`ready
      ensures Queued(threads, ready, marked) && Handed(old(threads), current, next, now, threads)
      ensures next != current && Rejoined(old(threads), old(ready), current, next, ready)
    {
      if threads[current].state == Running {
        var t := threads[current].(state := Ready);
        EnqueueOk(threads, ready, marked, current, t);
        assert marked - {current} == marked;
        var c := Bucket(t);
        threads, ready := threads[current := t], ready[c := ready[c] + [current]];
      }
      DequeueOk(threads, ready, marked, next);
      var b := Bucket(threads[next]);
      ready := ready[b := Without(ready[b], next)];
      var t := threads[next].(state := Running, readyStart := now, tqleft := TIME_QUANTUM);
      ChangeOk(threads, ready, marked + {next}, next, t);
      threads := threads[next := t];
      NoLongerOut(threads, ready, marked, next);
    }

    /** Raises the priority of one thread that was taken out of the queues, and puts it back. */
    method AgeThread(id: nat, now: int, ghost out: set<nat>)
      requires Queued(threads, ready, out) && id < |threads| && id in out && threads[id].state == Ready
      modifies this`threads, this`ready
      ensures Queued(threads, ready, out - {id})
      ensures |threads| == |old(threads)| && Aged(old(threads)[id], now, threads[id]) && threads == old(threads)[id := threads[id]]
      ensures |ready| == |old(ready)| == BUCKETS
      ensures var j := Bucket(threads[id]); ready == old(ready)[j := old(ready)[j] + [id]]
    {
      var t := Boosted(threads[id], now);
      EnqueueOk(threads, ready, out, id, t);
      var j := Bucket(t);
      threads, ready := threads[id := t], ready[j := ready[j] + [id]];
    }

    /** Ages the threads of a bucket, which is emptied first; they join their buckets in their order. */
    method AgeBucket(b: nat, now: int)
      requires Queued(threads, ready, marked) && b < BUCKETS
      modifies this`threads, this`ready
      ensures Queued(threads, ready, marked) && |threads| == |old(threads)|
      ensures |old(ready)| == BUCKETS && Appended(threads, old(ready)[b := []], old(ready)[b], ready)
      ensures forall id: nat :: id < |threads| ==> AgedIf(id in old(ready)[b], old(threads)[id], now, threads[id])
    {
      var q := ready[b];
      DetachOk(threads, ready, marked, b);
      MembersAreThreads(threads, ready, marked, b);
      ready := ready[b := []];
      ghost var base, out := ready, marked + Members(q);
      assert q[0..] == q && q[..0] == [];
      for i := 0 to |q|
        invariant |threads| == |old(threads)| && Queued(threads, ready, out) && out == marked + Members(q[i..])
        invariant Appended(threads, base, q[..i], ready)
        invariant forall id: nat :: id < |threads| ==> AgedIf(id in q[..i], old(threads)[id], now, threads[id])
      {
        NextOf(q, i);
        ghost var threads0, ready0 := threads, ready;
        AgeThread(q[i], now, out);
        AppendedSame(threads0, threads, base, q[..i], ready0);
        AppendedNext(threads, base, q, i, ready0);
        out := out - {q[i]};
      }
      assert q[|q|..] == [] && q[..|q|] == q;
    }

    /** One ageing pass raises every ready thread outside the last bucket, and each just once. */
    method AgePass(now: int)
      requires Queued(threads, ready, marked)
      modifies this`threads, this`ready
      ensures Queued(threads, ready, marked) && |threads| == |old(threads)| && |ready| == |old(ready)| == BUCKETS
      ensures forall id: nat :: id < |threads| ==> AgedIf(id !in marked && AgesIn(old(threads)[id], BUCKETS - 1), old(threads)[id], now, threads[id])
      ensures forall c :: 0 <= c < BUCKETS ==> ready[c] == AgedQueue(threads, old(ready), c)
    {
      for b := 0 to BUCKETS - 1
        invariant Queued(threads, ready, marked) && |threads| == |old(threads)| && AgedUpTo(threads, old(ready), b, ready)
        invariant AllAged(old(threads), marked, b, now, threads)
      {
        ghost var threads0, ready0 := threads, ready;
        assert AgedAt(threads, old(ready), b, ready, b);
        AgeBucket(b, now);
        AgedMore(old(threads), old(ready), marked, b, now, threads0, threads);
        AgedSince(old(threads), old(ready), marked, b, now, threads0, ready0, threads);
        AgedNext(threads, old(ready), b, ready0, ready);
      }
      AgedAll(threads, old(ready), ready);
    }

    /** Any number of passes: a thread that is ready all the time, and is not an idle thread, has gained what they add
        up to, and has the maximum of its class in the end if that is less. */
    method AgeRepeatedly(times: seq<int>)
      requires Queued(threads, ready, marked)
      modifies this`threads, this`ready
      ensures Queued(threads, ready, marked) && |threads| == |old(threads)|
      ensures forall id :: 0 <= id < |threads| && old(threads)[id].state == Ready && id !in marked && old(threads)[id].cid != CLASS_IDLE ==>
                var t := old(threads)[id];
                threads[id] == t.(cpupri := Min(MaxPri(t.cid), t.cpupri + Gains(t, times)))
    {
      assert times[..0] == [];
      for i := 0 to |times|
        invariant Queued(threads, ready, marked) && |threads| == |old(threads)|
        invariant forall id :: 0 <= id < |threads| ==> GainedBy(old(threads)[id], marked, id, times[..i], threads[id])
      {
        ghost var threads0 := threads;
        AgePass(times[i]);
        forall id: nat | id < |threads| ensures GainedBy(old(threads)[id], marked, id, times[..i + 1], threads[id]) {
          assert AgedIf(id !in marked && AgesIn(threads0[id], BUCKETS - 1), threads0[id], times[i], threads[id]);
          GainsMore(old(threads)[id], marked, id, times, i, threads0[id], threads[id]);
        }
      }
      assert times[..|times|] == times;
    }

    /** A tick charges the running thread, and lowers its priority when its time slice is used up. */
    method Charge(current: nat)
      requires Queued(threads, ready, marked) && current < |threads| && threads[current].state != Ready
      modifies this`threads
      ensures Queued(threads, ready, marked) && threads == old(threads)[current := Ticked(old(threads)[current])]
    {
      var t: Thread := threads[current];
      ChangeOk(threads, ready, marked, current, Ticked(t));
      t := t.(tqleft := t.tqleft - TICK_MSEC);
      if t.tqleft <= 0 {
        t := t.(cpupri := if t.cpupri - 10 < BasePri(t.cid) then BasePri(t.cid) else t.cpupri - 10);
      }
      threads := threads[current := t];
    }

    /** The first half of a wakeup: a thread that sleeps on nothing but time is raised and declared ready. */
    method MarkReady(id: nat)
      requires Queued(threads, ready, marked) && id < |threads| && threads[id].state == Sleep
      modifies this`threads, this`marked
      ensures marked == old(marked) + {id} && Queued(threads, ready, marked)
      ensures threads == old(threads)[id := Woken(old(threads)[id]).(state := Ready)]
      ensures threads[id].cpupri == Min(old(threads)[id].cpupri + 5, MaxPri(old(threads)[id].cid))
    {
      MarkOk(threads, ready, marked, id, Woken(threads[id]).(state := Ready));
      threads := threads[id := Woken(threads[id]).(state := Ready)];
      marked := marked + {id};
    }

    /** The second half: the thread is put into its bucket. */
    method Enqueue(id: nat)
      requires Queued(threads, ready, marked) && id < |threads| && id in marked
      modifies this
      ensures marked == old(marked) - {id} && Queued(threads, ready, marked)
      ensures threads == old(threads)[id := old(threads)[id].(state := Ready, chan := None)]
      ensures |old(ready)| == BUCKETS && var b := Bucket(old(threads)[id]); ready == old(ready)[b := old(ready)[b] + [id]]
    {
      AddReady(id, marked);
      marked := marked - {id};
    }
  }

  /** The processor went from one thread to another, or stayed; either way a new time slice begins. */
  ghost predicate Handed(threads: seq<Thread>, current: nat, next: nat, now: int, threads': seq<Thread>) {
    && |threads'| == |threads| && current < |threads| && next < |threads|
    && (forall id :: 0 <= id < |threads| && id != current && id != next ==> threads'[id] == threads[id])
    && if next == current then threads'[current] == threads[current].(readyStart := now, tqleft := TIME_QUANTUM)
       else threads'[next] == threads[next].(state := Running, readyStart := now, tqleft := TIME_QUANTUM) &&
            threads'[current] == if threads[current].state == Running then threads[current].(state := Ready) else threads[current]
  }

  /** If the processor went to another thread, that one has left its bucket, and the thread it went from is last in its
      own if it can go on; the buckets are as they were otherwise. */
  ghost predicate Rejoined(threads: seq<Thread>, ready: seq<seq<nat>>, current: nat, next: nat, ready': seq<seq<nat>>) {
    && current < |threads| && next < |threads| && |ready| == BUCKETS
    && if next == current then ready' == ready else
       var b, c := Bucket(threads[next]), Bucket(threads[current]);
       var joined := if threads[current].state == Running then ready[c := ready[c] + [current]] else ready;
       ready' == joined[b := Without(joined[b], next)]
  }

  /** What handing the processor on does. */
  ghost predicate PassedOn(threads: seq<Thread>, ready: seq<seq<nat>>, out: set<nat>, current: nat, next: nat, now: int,
                           threads': seq<Thread>, ready': seq<seq<nat>>) {
    var ok :=
      && Handed(threads, current, next, now, threads') && Rejoined(threads, ready, current, next, ready')
      && if next != current then Dispatched(threads, ready, out, next) else NoneReady(threads, out) || IdleIsNext(threads, ready, out);
    ok
  }

  ghost predicate RunsAlone(threads: seq<Thread>, current: nat) {
    && current < |threads| && threads[current].state == Running
    && forall id :: 0 <= id < |threads| && threads[id].state == Running ==> id == current
  }

  /** The running thread, and behind it the threads of its bucket. */
  ghost function Ring(threads: seq<Thread>, ready: seq<seq<nat>>, current: nat): (ring: seq<nat>)
    ensures ring != []
  {
    [current] + if current < |threads| && |ready| == BUCKETS then ready[Bucket(threads[current])] else []
  }

  function Turned(ring: seq<nat>, k: nat): seq<nat>
    requires k <= |ring|
  {
    ring[k..] + ring[..k]
  }

  /** All threads of the ring cost the same and are no idle threads, and all buckets before theirs are empty. */
  ghost predicate InTurn(threads: seq<Thread>, ready: seq<seq<nat>>, current: nat) {
    && current < |threads| && |ready| == BUCKETS
    && var b := Bucket(threads[current]);
       && ready[b] != [] && (forall c :: 0 <= c < b ==> ready[c] == [])
       && threads[current].cid != CLASS_IDLE
       && forall i :: 0 <= i < |ready[b]| ==> Alike(threads, current, ready[b][i])
  }

  ghost predicate Alike(threads: seq<Thread>, x: nat, y: nat) {
    x < |threads| && y < |threads| && Cost(threads[x]) == Cost(threads[y]) && threads[y].cid != CLASS_IDLE
  }

  /** Where `n` steps lead around a ring of `m` places. */
  function Place(n: nat, m: nat): (k: nat)
    requires m > 0
    ensures k < m && (n < m ==> k == n)
  {
    if n == 0 then 0 else NextPlace(Place(n - 1, m), m)
  }

  function NextPlace(k: nat, m: nat): nat {
    if k + 1 >= m then 0 else k + 1
  }

  lemma TurnedOnce(ring: seq<nat>, k: nat, t: seq<nat>)
    requires k < |ring| && t == Turned(ring, k)
    ensures t[1..] + [t[0]] == Turned(ring, NextPlace(k, |ring|)) && t[0] == ring[k]
  {
    if k + 1 == |ring| {
      assert t[1..] == ring[..k] && ring[..k] + [ring[k]] == ring;
    } else {
      assert t[1..] == ring[k + 1..] + ring[..k] && ring[..k] + [ring[k]] == ring[..k + 1];
    }
  }

  lemma TurnedFirst(ring: seq<nat>, k: nat)
    requires k < |ring|
    ensures Turned(ring, k)[0] == ring[k]
  {
  }

  lemma WithoutOther(q: seq<nat>, other: nat, third: nat, id: nat)
    requires (q == [other, third] || q == [third, other]) && other != third && other != id
    ensures Without(q + [id], other) == [third, id]
  {
    if q == [other, third] {
      assert (q + [id])[1..] == [third, id];
    } else {
      assert (q + [id])[1..] == [other, id] && [other, id][1..] == [id];
    }
  }

  lemma WithoutFirst(q: seq<nat>, id: nat)
    requires q != []
    ensures Without(q + [id], q[0]) == q[1..] + [id]
  {
    assert (q + [id])[1..] == q[1..] + [id];
  }

  /** Handing the processor on turns the ring by one place. */
  lemma NextInTurn(threads: seq<Thread>, ready: seq<seq<nat>>, out: set<nat>, current: nat, next: nat, now: int,
                   threads': seq<Thread>, ready': seq<seq<nat>>)
    requires Queued(threads, ready, out) && InTurn(threads, ready, current) && RunsAlone(threads, current) && current !in out
    requires PassedOn(threads, ready, out, current, next, now, threads', ready')
    ensures next !in out && InTurn(threads', ready', next)
    ensures var ring := Ring(threads, ready, current); Ring(threads', ready', next) == ring[1..] + [ring[0]]
  {
    var b := Bucket(threads[current]);
    var q := ready[b];
    MembersAreThreads(threads, ready, out, b);
    HeadIsNext(threads, ready, out, current, next);
    WithoutFirst(q, current);
    assert ready'[b] == q[1..] + [current];
    forall i | 0 <= i < |ready'[b]| ensures Alike(threads', next, ready'[b][i]) {
      if i < |q| - 1 {
        assert ready'[b][i] == q[i + 1];
        assert Alike(threads, current, q[i + 1]) && Alike(threads, current, q[0]);
        assert q[i + 1] != q[0] && Fits(threads, q[i + 1], out, b);
      } else {
        assert Alike(threads, current, q[0]);
      }
    }
  }

  /** The ring has been turned by `k` places. */
  ghost predicate Turning(threads: seq<Thread>, ready: seq<seq<nat>>, ring: seq<nat>, k: nat, current: nat) {
    var ok := InTurn(threads, ready, current) && k < |ring| && current == ring[k] && Ring(threads, ready, current) == Turned(ring, k);
    ok
  }

  ghost predicate Rotating(threads: seq<Thread>, ready: seq<seq<nat>>, out: set<nat>, ring: seq<nat>, k: nat, current: nat) {
    var ok := Queued(threads, ready, out) && RunsAlone(threads, current) && current !in out && Turning(threads, ready, ring, k, current);
    ok
  }

  lemma NotTurned(threads: seq<Thread>, ready: seq<seq<nat>>, ring: seq<nat>, current: nat)
    requires InTurn(threads, ready, current) && ring == Ring(threads, ready, current)
    ensures Turning(threads, ready, ring, 0, current)
  {
    assert Turned(ring, 0) == ring;
  }

  lemma TurnsOn(threads: seq<Thread>, ready: seq<seq<nat>>, out: set<nat>, ring: seq<nat>, k: nat, current: nat, next: nat, now: int,
                threads': seq<Thread>, ready': seq<seq<nat>>)
    requires Queued(threads, ready, out) && RunsAlone(threads, current) && current !in out && Turning(threads, ready, ring, k, current)
    requires PassedOn(threads, ready, out, current, next, now, threads', ready')
    ensures next !in out && Turning(threads', ready', ring, NextPlace(k, |ring|), next)
  {
    NextInTurn(threads, ready, out, current, next, now, threads', ready');
    TurnedOnce(ring, k, Turned(ring, k));
    TurnedFirst(ring, NextPlace(k, |ring|));
    assert Ring(threads', ready', next)[0] == next;
  }

  lemma HeadIsNext(threads: seq<Thread>, ready: seq<seq<nat>>, out: set<nat>, current: nat, next: nat)
    requires Queued(threads, ready, out) && InTurn(threads, ready, current)
    requires next != current ==> Dispatched(threads, ready, out, next)
    requires next == current ==> NoneReady(threads, out) || IdleIsNext(threads, ready, out)
    requires threads[current].state == Running
    ensures next == ready[Bucket(threads[current])][0] && next != current
  {
    var b := Bucket(threads[current]);
    MembersAreThreads(threads, ready, out, b);
    assert Fits(threads, ready[b][0], out, b);
    FirstIsHighest(threads, ready, out, b);
    assert Alike(threads, current, ready[b][0]);
    if next == current {
      var id: nat :| Dispatched(threads, ready, out, id) && threads[id].cid == CLASS_IDLE;
      HeadDispatched(threads, ready, out, current, id);
    } else {
      HeadDispatched(threads, ready, out, current, next);
    }
  }

  lemma HeadDispatched(threads: seq<Thread>, ready: seq<seq<nat>>, out: set<nat>, current: nat, id: nat)
    requires Queued(threads, ready, out) && InTurn(threads, ready, current) && Dispatched(threads, ready, out, id)
    ensures id == ready[Bucket(threads[current])][0]
  {
    var b := Bucket(threads[current]);
    MembersAreThreads(threads, ready, out, b);
    FirstIsHighest(threads, ready, out, b);
    assert Fits(threads, ready[b][0], out, b);
    assert Bucket(threads[id]) == b;
    var k: nat :| k < |ready[b]| && ready[b][k] == id && Cheapest(threads, ready[b], k, |ready[b]|);
    assert Alike(threads, current, ready[b][0]) && Alike(threads, current, ready[b][k]);
  }

  /** The first bucket that is not empty is that of the running thread; `other` and `third` are what it holds, and
      `third` costs more than the other two. */
  ghost predicate Outbid(threads: seq<Thread>, ready: seq<seq<nat>>, current: nat, other: nat, third: nat) {
    var ok :=
      && current < |threads| && other < |threads| && third < |threads| && |ready| == BUCKETS
      && (forall c :: 0 <= c < Bucket(threads[current]) ==> ready[c] == [])
      && (ready[Bucket(threads[current])] == [other, third] || ready[Bucket(threads[current])] == [third, other])
      && Cost(threads[current]) < Cost(threads[third]) && Cost(threads[other]) < Cost(threads[third])
      && threads[current].cid != CLASS_IDLE && threads[other].cid != CLASS_IDLE;
    ok
  }

  lemma OutbidAgain(threads: seq<Thread>, ready: seq<seq<nat>>, out: set<nat>, current: nat, other: nat, third: nat, next: nat,
                    now: int, threads': seq<Thread>, ready': seq<seq<nat>>)
    requires Queued(threads, ready, out) && Outbid(threads, ready, current, other, third) && RunsAlone(threads, current) && current !in out
    requires PassedOn(threads, ready, out, current, next, now, threads', ready')
    ensures next == other && next !in out && Outbid(threads', ready', other, current, third) && threads'[third] == threads[third]
  {
    var b := Bucket(threads[current]);
    MembersAreThreads(threads, ready, out, b);
    assert Fits(threads, ready[b][0], out, b) && Fits(threads, ready[b][1], out, b);
    if next == current {
      var id: nat :| Dispatched(threads, ready, out, id) && threads[id].cid == CLASS_IDLE;
      CheaperDispatched(threads, ready, out, current, other, third, id);
    } else {
      CheaperDispatched(threads, ready, out, current, other, third, next);
    }
    WithoutOther(ready[b], other, third, current);
    assert ready'[b] == [third, current];
  }

  lemma CheaperDispatched(threads: seq<Thread>, ready: seq<seq<nat>>, out: set<nat>, current: nat, other: nat, third: nat, id: nat)
    requires Queued(threads, ready, out) && Outbid(threads, ready, current, other, third) && Dispatched(threads, ready, out, id)
    ensures id == other
  {
    var b := Bucket(threads[current]);
    MembersAreThreads(threads, ready, out, b);
    FirstIsHighest(threads, ready, out, b);
    assert Fits(threads, ready[b][0], out, b);
    assert Bucket(threads[id]) == b;
    var k: nat :| k < |ready[b]| && ready[b][k] == id && Cheapest(threads, ready[b], k, |ready[b]|);
    assert ready[b][0] == other || ready[b][1] == other;
  }

  predicate Runnable(t: Thread) {
    t.state == Ready || t.state == Running
  }

  ghost predicate NoneReady(threads: seq<Thread>, out: set<nat>) {
    forall id :: 0 <= id < |threads| && id !in out ==> threads[id].state != Ready
  }

  /** The thread is the first of least cost among the ready threads of highest priority bucket. */
  ghost predicate Dispatched(threads: seq<Thread>, ready: seq<seq<nat>>, out: set<nat>, id: nat) {
    && id < |threads| && threads[id].state == Ready && id !in out && |ready| == BUCKETS
    && (forall x :: 0 <= x < |threads| && threads[x].state == Ready && x !in out ==> Bucket(threads[id]) <= Bucket(threads[x]))
    && var q := ready[Bucket(threads[id])];
       && (forall i :: 0 <= i < |q| ==> q[i] < |threads|)
       && exists k: nat :: k < |q| && q[k] == id && Cheapest(threads, q, k, |q|)
  }

  ghost predicate IdleIsNext(threads: seq<Thread>, ready: seq<seq<nat>>, out: set<nat>) {
    exists id: nat :: Dispatched(threads, ready, out, id) && threads[id].cid == CLASS_IDLE
  }

  /** If the thread is one that waits, and not an idle one, it has gained what the passes add up to. */
  ghost predicate GainedBy(t: Thread, out: set<nat>, id: nat, times: seq<int>, t': Thread) {
    var ok := t.state == Ready && id !in out && t.cid != CLASS_IDLE ==> t' == t.(cpupri := Min(MaxPri(t.cid), t.cpupri + Gains(t, times)));
    ok
  }

  lemma GainsMore(t: Thread, out: set<nat>, id: nat, times: seq<int>, i: nat, t0: Thread, t': Thread)
    requires i < |times| && GainedBy(t, out, id, times[..i], t0)
    requires AgedIf(id !in out && AgesIn(t0, BUCKETS - 1), t0, times[i], t')
    ensures GainedBy(t, out, id, times[..i + 1], t')
  {
    assert times[..i + 1][..i] == times[..i];
  }

  ghost predicate AllAged(threads: seq<Thread>, out: set<nat>, b: nat, now: int, threads': seq<Thread>) {
    var ok := |threads'| == |threads| && forall id: nat :: id < |threads| ==>
                AgedIf(id !in out && AgesIn(threads[id], b), threads[id], now, threads'[id]);
    ok
  }

  lemma AgedMore(first: seq<Thread>, ready: seq<seq<nat>>, out: set<nat>, b: nat, now: int, threads: seq<Thread>, threads': seq<Thread>)
    requires Queued(first, ready, out) && b < BUCKETS && AllAged(first, out, b, now, threads) && |threads'| == |threads|
    requires |ready| == BUCKETS && forall id: nat :: id < |threads| ==> AgedIf(id in ready[b], threads[id], now, threads'[id])
    ensures AllAged(first, out, b + 1, now, threads')
    ensures forall id: nat :: id < |threads| && id in ready[b] ==> threads[id] == first[id]
  {
    BucketMembers(first, ready, out, b);
    var n := b + 1;
    forall id: nat | id < |threads| ensures AgedIf(id !in out && AgesIn(first[id], n), first[id], now, threads'[id]) {
      assert AgedIf(id !in out && AgesIn(first[id], b), first[id], now, threads[id]);
      assert AgedIf(id in ready[b], threads[id], now, threads'[id]);
    }
    forall id: nat | id < |threads| && id in ready[b] ensures threads[id] == first[id] {
      assert AgedIf(id !in out && AgesIn(first[id], b), first[id], now, threads[id]);
    }
  }

  lemma AgedSince(first: seq<Thread>, ready: seq<seq<nat>>, out: set<nat>, b: nat, now: int, threads: seq<Thread>,
                  ready': seq<seq<nat>>, threads': seq<Thread>)
    requires Queued(first, ready, out) && b < BUCKETS - 1 && AgedUpTo(threads, ready, b, ready') && ready'[b] == ready[b]
    requires |first| == |threads| == |threads'|
    requires forall id: nat :: id < |threads| ==> AgedIf(id in ready[b], threads[id], now, threads'[id])
    requires forall id: nat :: id < |threads| && id in ready[b] ==> threads[id] == first[id]
    ensures AgedUpTo(threads', ready, b, ready')
    ensures forall i :: 0 <= i < |ready[b]| && ready[b][i] < |threads'| ==> b - 1 <= Bucket(threads'[ready[b][i]]) <= b
  {
    MembersAreThreads(first, ready, out, b);
    forall i | 0 <= i < |ready[b]| ensures b - 1 <= Bucket(threads'[ready[b][i]]) <= b {
      assert ready[b][i] in ready[b];
      AgedBucket(first[ready[b][i]], now, threads'[ready[b][i]]);
    }
    forall a, c | 0 <= a < b && 0 <= c < BUCKETS ensures Of(threads', ready[a], c) == Of(threads, ready[a], c) {
      MembersAreThreads(first, ready, out, a);
      forall i | 0 <= i < |ready[a]| ensures threads'[ready[a][i]] == threads[ready[a][i]] {
        assert Fits(first, ready[a][i], out, a);
        assert ready[a][i] !in ready[b];
      }
      OfSame(threads, threads', ready[a], c);
    }
    forall c: nat | c < BUCKETS ensures AgedAt(threads', ready, b, ready', c) {
      assert AgedAt(threads, ready, b, ready', c);
    }
  }

  /** Ready, and in one of the first `n` buckets. */
  predicate AgesIn(t: Thread, n: nat) {
    t.state == Ready && Bucket(t) < n
  }

  lemma EmptyMeansNone(threads: seq<Thread>, ready: seq<seq<nat>>, out: set<nat>)
    requires Queued(threads, ready, out) && |ready| == BUCKETS && forall b :: 0 <= b < BUCKETS ==> ready[b] == []
    ensures NoneReady(threads, out)
  {
    forall id | 0 <= id < |threads| && id !in out ensures threads[id].state != Ready {
      assert id !in ready[Bucket(threads[id])];
      assert !Fits(threads, id, out, Bucket(threads[id]));
    }
  }

  lemma MembersAreThreads(threads: seq<Thread>, ready: seq<seq<nat>>, out: set<nat>, b: nat)
    requires Queued(threads, ready, out) && b < BUCKETS
    ensures |ready| == BUCKETS && Distinct(ready[b])
    ensures forall i :: 0 <= i < |ready[b]| ==> Fits(threads, ready[b][i], out, b)
  {
    forall i | 0 <= i < |ready[b]| ensures Fits(threads, ready[b][i], out, b) {
      assert ready[b][i] in ready[b];
    }
  }

  lemma FirstIsHighest(threads: seq<Thread>, ready: seq<seq<nat>>, out: set<nat>, b: nat)
    requires Queued(threads, ready, out) && b < BUCKETS && |ready| == BUCKETS && forall c :: 0 <= c < b ==> ready[c] == []
    ensures forall x :: 0 <= x < |threads| && threads[x].state == Ready && x !in out ==> b <= Bucket(threads[x])
  {
    forall x: nat | x < |threads| && threads[x].state == Ready && x !in out ensures b <= Bucket(threads[x]) {
      assert Fits(threads, x, out, Bucket(threads[x]));
      assert x in ready[Bucket(threads[x])];
    }
  }

  /** The choice is made among the threads waiting in the queues only, so the running thread gives way to one of
      lower priority if all waiting threads are in later buckets than its own; but just once: the thread dispatched
      after that one is in no later bucket. */
  lemma GivesWayOnce(threads: seq<Thread>, ready: seq<seq<nat>>, out: set<nat>, current: nat, next: nat, now: int,
                     threads': seq<Thread>, ready': seq<seq<nat>>, after: nat)
    requires current < |threads| && threads[current].state == Running && current !in out
    requires next != current && Dispatched(threads, ready, out, next)
    requires Handed(threads, current, next, now, threads') && Dispatched(threads', ready', out, after)
    ensures Bucket(threads[next]) > Bucket(threads[current]) <==>
            forall x :: 0 <= x < |threads| && threads[x].state == Ready && x !in out ==> Bucket(threads[x]) > Bucket(threads[current])
    ensures Bucket(threads'[after]) <= Bucket(threads[current])
    ensures Bucket(threads[next]) > Bucket(threads[current]) ==> after == current
  {
    assert threads'[current].state == Ready && Bucket(threads'[current]) == Bucket(threads[current]);
  }

  lemma NoLongerOut(threads: seq<Thread>, ready: seq<seq<nat>>, out: set<nat>, id: nat)
    requires Queued(threads, ready, out + {id}) && (id < |threads| ==> threads[id].state != Ready)
    ensures Queued(threads, ready, out)
  {
    forall b, x: nat | 0 <= b < BUCKETS ensures x in ready[b] <==> Fits(threads, x, out, b) {
      assert x in ready[b] <==> Fits(threads, x, out + {id}, b);
    }
  }

  lemma NextOf(q: seq<nat>, i: nat)
    requires Distinct(q) && i < |q|
    ensures q[i] in q[i..] && Members(q[i + 1..]) == Members(q[i..]) - {q[i]}
    ensures q[i] !in q[..i] && var upto := q[..i + 1]; forall id :: id in upto <==> id in q[..i] || id == q[i]
  {
    assert q[i..] == [q[i]] + q[i + 1..];
    assert q[..i + 1] == q[..i] + [q[i]];
  }

  lemma BucketMembers(threads: seq<Thread>, ready: seq<seq<nat>>, out: set<nat>, b: nat)
    requires Queued(threads, ready, out) && b < BUCKETS
    ensures |ready| == BUCKETS
    ensures forall id :: 0 <= id < |threads| && id !in out ==> (AgesIn(threads[id], b + 1) <==> AgesIn(threads[id], b) || id in ready[b])
    ensures forall id :: 0 <= id < |threads| && id in ready[b] ==> id !in out && !AgesIn(threads[id], b)
  {
    forall id: nat | id < |threads| ensures id in ready[b] <==> Fits(threads, id, out, b) {
    }
  }
}
