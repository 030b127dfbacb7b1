/** Locks, recursive locks and events: owners, wait queues and lists of owned objects. */
module Locks {
  import opened Basics
  import opened Scheduling

  datatype Kind = Plain | Recursive | Event

  /** A synchronisation object: `val` is 1 for a held lock, and counts the sleepers of an event. */
  datatype Obj = Obj(kind: Kind, val: nat, owner: Option<nat>, level: nat, waiters: seq<nat>)

  // ---- The invariant of objects and threads ----

  ghost predicate ObjOk(threads: seq<Thread>, x: Obj, o: nat) {
    && Distinct(x.waiters)
    && (forall t: nat :: t in x.waiters <==> t < |threads| && threads[t].chan == Some(o))
    && (x.owner.Some? ==> x.owner.value < |threads|)
    && match x.kind
       case Event => x.owner == None && x.level == 0
       case Plain => (if x.owner.Some? then x.val == 1 else x.val == 0 && x.waiters == []) && x.level == 0
       case Recursive => if x.owner.Some? then x.val == 1 && x.level > 0 else x.val == 0 && x.level == 0 && x.waiters == []
  }

  ghost predicate ThreadOk(t: Thread, objs: seq<Obj>, id: nat) {
    && (t.chan.Some? ==> t.state == Sleep && t.chan.value < |objs|)
    && Distinct(t.owned)
    && forall o: nat :: o in t.owned <==> o < |objs| && objs[o].owner == Some(id)
  }

  /** Each thread asleep on an object is in just that object's queue; a lock is held exactly if it has an owner,
      and it is then in just that owner's list; only held locks are waited for. */
  ghost predicate ObjsOk(threads: seq<Thread>, objs: seq<Obj>) {
    var ok :=
      && (forall o :: 0 <= o < |objs| ==> ObjOk(threads, objs[o], o))
      && (forall id :: 0 <= id < |threads| ==> ThreadOk(threads[id], objs, id));
    ok
  }

  /** An event counts its sleepers. */
  ghost predicate Counted(objs: seq<Obj>) {
    forall o :: 0 <= o < |objs| && objs[o].kind == Event ==> objs[o].val == |objs[o].waiters|
  }

  ghost predicate OneRunning(threads: seq<Thread>, current: nat) {
    forall id :: 0 <= id < |threads| && threads[id].state == Running ==> id == current
  }

  // ---- Steps on values ----

  lemma BehindFirst(t: nat, rest: seq<nat>)
    requires Distinct([t] + rest)
    ensures Distinct(rest) && t !in rest && forall x :: x in [t] + rest <==> x == t || x in rest
  {
    var q := [t] + rest;
    assert q[0] == t && forall i :: 0 <= i < |rest| ==> rest[i] == q[i + 1];
  }

  /** The first waiter of an object becomes ready. */
  lemma WakeOne(threads: seq<Thread>, objs: seq<Obj>, o: nat, t: nat, rest: seq<nat>)
    requires ObjsOk(threads, objs) && o < |objs| && objs[o].waiters == [t] + rest
    requires (objs[o].kind == Event || objs[o].owner.Some?)
    ensures t < |threads| && threads[t].state == Sleep && threads[t].chan == Some(o)
    ensures ObjsOk(threads[t := threads[t].(state := Ready, chan := None)], objs[o := objs[o].(waiters := rest)])
  {
    assert t in objs[o].waiters;
    assert ObjOk(threads, objs[o], o);
    BehindFirst(t, rest);
    var threads', objs' := threads[t := threads[t].(state := Ready, chan := None)], objs[o := objs[o].(waiters := rest)];
    assert ThreadOk(threads[t], objs, t);
    forall x | 0 <= x < |objs'| ensures ObjOk(threads', objs'[x], x) {
      assert ObjOk(threads, objs[x], x);
    }
    forall id | 0 <= id < |threads'| ensures ThreadOk(threads'[id], objs', id) {
      assert ThreadOk(threads[id], objs, id);
    }
  }

  /** A thread goes to sleep on a held lock or on an event. */
  lemma FallAsleep(threads: seq<Thread>, objs: seq<Obj>, o: nat, c: nat, val: nat)
    requires ObjsOk(threads, objs) && o < |objs| && c < |threads| && threads[c].state != Sleep
    requires if objs[o].kind == Event then true else objs[o].owner.Some? && val == objs[o].val
    ensures ObjsOk(threads[c := threads[c].(state := Sleep, chan := Some(o))], objs[o := objs[o].(waiters := objs[o].waiters + [c], val := val)])
  {
    var threads' := threads[c := threads[c].(state := Sleep, chan := Some(o))];
    var objs' := objs[o := objs[o].(waiters := objs[o].waiters + [c], val := val)];
    assert ThreadOk(threads[c], objs, c);
    forall x | 0 <= x < |objs'| ensures ObjOk(threads', objs'[x], x) {
      assert ObjOk(threads, objs[x], x);
    }
    forall id | 0 <= id < |threads'| ensures ThreadOk(threads'[id], objs', id) {
      assert ThreadOk(threads[id], objs, id);
    }
  }

  /** A free lock is taken. */
  lemma TakeOk(threads: seq<Thread>, objs: seq<Obj>, o: nat, c: nat, level: nat)
    requires ObjsOk(threads, objs) && o < |objs| && c < |threads| && objs[o].kind != Event && objs[o].owner == None
    requires level == if objs[o].kind == Recursive then 1 else 0
    ensures ObjsOk(threads[c := threads[c].(owned := [o] + threads[c].owned)], objs[o := objs[o].(val := 1, owner := Some(c), level := level)])
  {
    var threads' := threads[c := threads[c].(owned := [o] + threads[c].owned)];
    var objs' := objs[o := objs[o].(val := 1, owner := Some(c), level := level)];
    assert ThreadOk(threads[c], objs, c);
    forall x | 0 <= x < |objs'| ensures ObjOk(threads', objs'[x], x) {
      assert ObjOk(threads, objs[x], x);
    }
    forall id | 0 <= id < |threads'| ensures ThreadOk(threads'[id], objs', id) {
      assert ThreadOk(threads[id], objs, id);
    }
  }

  /** A lock nobody waits for is given up. */
  lemma GiveUpOk(threads: seq<Thread>, objs: seq<Obj>, o: nat, c: nat)
    requires ObjsOk(threads, objs) && o < |objs| && c < |threads| && objs[o].owner == Some(c) && objs[o].waiters == []
    ensures ObjsOk(threads[c := threads[c].(owned := Without(threads[c].owned, o))], objs[o := objs[o].(val := 0, owner := None, level := 0)])
  {
    var threads' := threads[c := threads[c].(owned := Without(threads[c].owned, o))];
    var objs' := objs[o := objs[o].(val := 0, owner := None, level := 0)];
    assert ThreadOk(threads[c], objs, c);
    WithoutOk(threads[c].owned, o);
    forall x | 0 <= x < |objs'| ensures ObjOk(threads', objs'[x], x) {
      assert ObjOk(threads, objs[x], x);
    }
    forall id | 0 <= id < |threads'| ensures ThreadOk(threads'[id], objs', id) {
      assert ThreadOk(threads[id], objs, id);
    }
  }

  /** Priorities play no part in the invariant, nor does the state of a thread that sleeps on no object. */
  lemma SameLinks(threads: seq<Thread>, objs: seq<Obj>, threads': seq<Thread>)
    requires ObjsOk(threads, objs) && |threads'| == |threads|
    requires forall id :: 0 <= id < |threads| ==>
               && threads'[id].chan == threads[id].chan && threads'[id].owned == threads[id].owned
               && (threads[id].chan.Some? ==> threads'[id].state == threads[id].state)
    ensures ObjsOk(threads', objs)
  {
    forall x | 0 <= x < |objs| ensures ObjOk(threads', objs[x], x) {
      assert ObjOk(threads, objs[x], x);
    }
    forall id | 0 <= id < |threads'| ensures ThreadOk(threads'[id], objs, id) {
      assert ThreadOk(threads[id], objs, id);
    }
  }

  // ---- Whole histories ----

  datatype Act = Acquire(thread: nat, obj: nat) | Release(thread: nat, obj: nat)

  /** Who holds an object after a history of acquisitions and releases, and how often; `Broken` once a thread took
      what another held, or released what it did not hold. */
  datatype Hold = Free | Held(holder: nat, times: nat) | Broken

  function Replay(log: seq<Act>, o: nat): Hold {
    if log == [] then Free else
    var h, a := Replay(log[..|log| - 1], o), log[|log| - 1];
    if a.obj != o then h else
    match a
    case Acquire(t, _) => if h.Free? then Held(t, 1) else if h.Held? && h.holder == t then Held(t, h.times + 1) else Broken
    case Release(t, _) => if h.Held? && h.holder == t then (if h.times > 1 then Held(t, h.times - 1) else Free) else Broken
  }

  /** The owner and nesting level of every lock are those of the history. */
  ghost predicate Tied(objs: seq<Obj>, log: seq<Act>) {
    forall o :: 0 <= o < |objs| ==>
      Replay(log, o) == if objs[o].owner == None then Free
                        else Held(objs[o].owner.value, if objs[o].kind == Recursive then objs[o].level else 1)
  }

  lemma Logged(log: seq<Act>, a: Act, o: nat)
    ensures a.obj != o ==> Replay(log + [a], o) == Replay(log, o)
    ensures a.obj == o && a.Acquire? && Replay(log, o) == Free ==> Replay(log + [a], o) == Held(a.thread, 1)
    ensures a.obj == o && a.Acquire? && Replay(log, o).Held? && Replay(log, o).holder == a.thread ==>
              Replay(log + [a], o) == Held(a.thread, Replay(log, o).times + 1)
    ensures a.obj == o && a.Release? && Replay(log, o).Held? && Replay(log, o).holder == a.thread ==>
              Replay(log + [a], o) == if Replay(log, o).times > 1 then Held(a.thread, Replay(log, o).times - 1) else Free
  {
    assert (log + [a])[..|log|] == log;
  }

  lemma {:induction false} NeverMended(log: seq<Act>, o: nat, m: nat)
    requires m <= |log| && Replay(log, o) != Broken
    ensures Replay(log[..m], o) != Broken
    decreases |log|
  {
    if m < |log| {
      NeverMended(log[..|log| - 1], o, m);
      assert log[..|log| - 1][..m] == log[..m];
    } else {
      assert log[..m] == log;
    }
  }

  lemma {:induction false} HeldUntilReleased(log: seq<Act>, o: nat, t: nat, i: nat, m: nat)
    requires i < m <= |log| && log[i] == Acquire(t, o) && Replay(log[..m], o) != Broken
    requires forall k :: i < k < m ==> log[k] != Release(t, o)
    ensures Replay(log[..m], o).Held? && Replay(log[..m], o).holder == t
    decreases m
  {
    assert log[..m][..m - 1] == log[..m - 1];
    if m > i + 1 {
      HeldUntilReleased(log, o, t, i, m - 1);
    }
  }

  /** In a history that is not broken no thread takes an object between another's taking and releasing it. */
  lemma Exclusive(log: seq<Act>, o: nat, i: nat, j: nat)
    requires Replay(log, o) != Broken && i < j < |log| && log[i].Acquire? && log[j].Acquire?
    requires log[i].obj == o == log[j].obj && log[i].thread != log[j].thread
    ensures exists k :: i < k < j && log[k] == Release(log[i].thread, o)
  {
    NeverMended(log, o, j);
    NeverMended(log, o, j + 1);
    assert log[..j + 1][..j] == log[..j];
    if forall k :: i < k < j ==> log[k] != Release(log[i].thread, o) {
      HeldUntilReleased(log, o, log[i].thread, i, j);
      assert false;
    }
  }

  /** In every state of the kernel the history of each lock is free of conflicts, and its owner and level follow. */
  lemma HistoryIsExclusive(threads: seq<Thread>, ready: seq<seq<nat>>, out: set<nat>, objs: seq<Obj>, current: nat, log: seq<Act>, o: nat,
                           i: nat, j: nat)
    requires Good(threads, ready, out, objs, current, log) && o < |objs|
    requires i < j < |log| && log[i].Acquire? && log[j].Acquire? && log[i].obj == o == log[j].obj
    requires log[i].thread != log[j].thread
    ensures exists k :: i < k < j && log[k] == Release(log[i].thread, o)
  {
    Exclusive(log, o, i, j);
  }

  // ---- Lending of priorities ----

  /** Threads below a priority. */
  ghost function Lower(threads: seq<Thread>, pri: int): set<nat> {
    set id: nat | 0 <= id < |threads| && Eff(threads[id]) < pri
  }

  ghost function Raise(threads: seq<Thread>, t: nat, pri: int): (threads': seq<Thread>)
    requires t < |threads| && Eff(threads[t]) < pri <= 159
    ensures Lower(threads', pri) < Lower(threads, pri)
  {
    var threads' := threads[t := threads[t].(inhpri := pri)];
    assert t in Lower(threads, pri) && t !in Lower(threads', pri);
    threads'
  }

  /** The priority `pri` is lent to the owner of `g`, to the owner of what that one waits for, and so on. */
  ghost function Lent(threads: seq<Thread>, objs: seq<Obj>, g: nat, pri: int): (threads': seq<Thread>)
    requires pri <= 159
    ensures |threads'| == |threads|
    ensures forall id :: 0 <= id < |threads| ==>
              threads'[id] == threads[id] || (Eff(threads[id]) < pri && threads'[id] == threads[id].(inhpri := pri))
    decreases Lower(threads, pri)
  {
    if g >= |objs| || objs[g].kind == Event || objs[g].owner == None || objs[g].owner.value >= |threads| then threads else
    var t := objs[g].owner.value;
    if Eff(threads[t]) >= pri then threads else
    var threads' := Raise(threads, t, pri);
    if threads[t].state == Sleep && threads[t].chan.Some? then Lent(threads', objs, threads[t].chan.value, pri) else threads'
  }

  /** No thread waits for a lock whose owner has less priority; on object `g` a priority up to `pri` is pending. */
  ghost predicate LentUpTo(threads: seq<Thread>, objs: seq<Obj>, g: nat, pri: int) {
    var ok := forall t, o :: Waits(threads, objs, t, o) ==>
                Eff(threads[objs[o].owner.value]) >= Eff(threads[t]) || (o == g && Eff(threads[t]) <= pri);
    ok
  }

  ghost predicate Waits(threads: seq<Thread>, objs: seq<Obj>, t: int, o: int) {
    && 0 <= t < |threads| && 0 <= o < |objs| && threads[t].chan == Some(o)
    && objs[o].kind != Event && objs[o].owner.Some? && objs[o].owner.value < |threads|
  }

  /** Every lock's owner has at least the priority of each thread that waits for the lock. */
  ghost predicate NoInversion(threads: seq<Thread>, objs: seq<Obj>) {
    var ok := forall t, o :: Waits(threads, objs, t, o) ==> Eff(threads[objs[o].owner.value]) >= Eff(threads[t]);
    ok
  }

  /** Lending along the chain of owners removes the inversion that a new waiter brings. */
  lemma {:induction false} LendingSuffices(threads: seq<Thread>, objs: seq<Obj>, g: nat, pri: int)
    requires ObjsOk(threads, objs) && pri <= 159 && LentUpTo(threads, objs, g, pri)
    requires g < |objs| && objs[g].waiters != []
    ensures NoInversion(Lent(threads, objs, g, pri), objs)
    decreases Lower(threads, pri)
  {
    assert ObjOk(threads, objs[g], g);
    if objs[g].kind != Event && Eff(threads[objs[g].owner.value]) < pri {
      var t := objs[g].owner.value;
      var threads' := Raise(threads, t, pri);
      SameLinks(threads, objs, threads');
      assert forall u, o :: Waits(threads', objs, u, o) ==> Waits(threads, objs, u, o);
      if threads[t].state == Sleep && threads[t].chan.Some? {
        assert ThreadOk(threads[t], objs, t);
        var g' := threads[t].chan.value;
        assert ObjOk(threads, objs[g'], g');
        assert t in objs[g'].waiters;
        LendingSuffices(threads', objs, g', pri);
      } else {
        assert ThreadOk(threads[t], objs, t);
      }
    }
  }

  /** Without inversion nobody on a chain of waiting threads and owners is weaker than the first. */
  lemma {:induction false} WholeChain(threads: seq<Thread>, objs: seq<Obj>, path: seq<nat>, via: seq<nat>, i: nat)
    requires NoInversion(threads, objs) && |via| + 1 == |path| && i < |path|
    requires forall k :: 0 <= k < |via| ==> Waits(threads, objs, path[k], via[k]) && objs[via[k]].owner == Some(path[k + 1])
    requires path[0] < |threads|
    ensures path[i] < |threads| && Eff(threads[path[i]]) >= Eff(threads[path[0]])
  {
    if i > 0 {
      WholeChain(threads, objs, path, via, i - 1);
      assert Waits(threads, objs, path[i - 1], via[i - 1]);
    }
  }

  /** The walk that lends `pri` from `g` on raises a thread of `out`. */
  ghost predicate Reaches(threads: seq<Thread>, objs: seq<Obj>, g: nat, pri: int, out: set<nat>)
    requires pri <= 159
    decreases Lower(threads, pri)
  {
    if g >= |objs| || objs[g].kind == Event || objs[g].owner == None || objs[g].owner.value >= |threads| then false else
    var t := objs[g].owner.value;
    if Eff(threads[t]) >= pri then false else
    t in out || (threads[t].state == Sleep && threads[t].chan.Some? && Reaches(Raise(threads, t, pri), objs, threads[t].chan.value, pri, out))
  }

  /** It does exactly if lending changes one of them; so it never does if there are none. */
  lemma {:induction false} ReachesIff(threads: seq<Thread>, objs: seq<Obj>, g: nat, pri: int, out: set<nat>)
    requires pri <= 159 && AllReady(threads, out)
    ensures Reaches(threads, objs, g, pri, out) <==> exists m :: m in out && Lent(threads, objs, g, pri)[m] != threads[m]
    decreases Lower(threads, pri)
  {
    if !(g >= |objs| || objs[g].kind == Event || objs[g].owner == None || objs[g].owner.value >= |threads|) {
      var t := objs[g].owner.value;
      if Eff(threads[t]) < pri {
        var threads' := Raise(threads, t, pri);
        if threads[t].state == Sleep && threads[t].chan.Some? {
          var g' := threads[t].chan.value;
          ReachesIff(threads', objs, g', pri, out);
          assert forall m :: m in out ==> threads'[m] == threads[m];
        }
      }
    }
  }

  /** The threads are as they were, or raised to `pri`. */
  ghost predicate OnlyRaised(threads: seq<Thread>, threads': seq<Thread>, pri: int) {
    var ok := |threads'| == |threads| && forall id :: 0 <= id < |threads| ==>
                threads'[id].state == threads[id].state && (threads'[id] == threads[id] || Eff(threads'[id]) == pri);
    ok
  }

  /** The walk that lends `pri` from `o` on has come to `next`, or to its end. */
  ghost predicate Lending(threads: seq<Thread>, ready: seq<seq<nat>>, out: set<nat>, objs: seq<Obj>, o: nat, pri: int, next: Option<nat>,
                          threads': seq<Thread>, ready': seq<seq<nat>>)
    requires pri <= 159
  {
    var ok :=
      && OnlyRaised(threads, threads', pri) && Lifted(threads, ready, out, threads', ready')
      && (next.Some? ==> Queued(threads', ready', out) && ready' == ready && ReadySame(threads, threads'))
      && (Queued(threads', ready', out) || Upset(threads, ready, out, threads', ready'))
      && Lent(threads, objs, o, pri) == (if next.Some? then Lent(threads', objs, next.value, pri) else threads')
      && (Reaches(threads, objs, o, pri, out) <==> if next.Some? then Reaches(threads', objs, next.value, pri, out) else !Queued(threads', ready', out));
    ok
  }

  lemma OneRaise(threads: seq<Thread>, ready: seq<seq<nat>>, out: set<nat>, objs: seq<Obj>, g: nat, pri: int, next: Option<nat>,
                 threads': seq<Thread>, ready': seq<seq<nat>>)
    requires Queued(threads, ready, out) && AllReady(threads, out) && pri <= 159
    requires g < |objs| && objs[g].kind != Event && objs[g].owner.Some? && objs[g].owner.value < |threads|
    requires var t := objs[g].owner.value;
             && Eff(threads[t]) < pri && threads' == Raise(threads, t, pri)
             && next == (if threads[t].state == Sleep then threads[t].chan else None)
             && (t !in out ==> Queued(threads', ready', out))
             && if threads[t].state == Ready then LiftedBy(threads, ready, out, t, threads', ready') else ready' == ready
    ensures Lending(threads, ready, out, objs, g, pri, next, threads', ready')
  {
    var t := objs[g].owner.value;
    if t in out {
      MarkedRaised(threads, ready, out, t, pri);
    }
  }

  lemma LendingOn(first: seq<Thread>, ready: seq<seq<nat>>, out: set<nat>, objs: seq<Obj>, o: nat, pri: int, threads: seq<Thread>, g: nat,
                  next: Option<nat>, threads': seq<Thread>, ready': seq<seq<nat>>)
    requires pri <= 159 && Lending(first, ready, out, objs, o, pri, Some(g), threads, ready)
    requires Lending(threads, ready, out, objs, g, pri, next, threads', ready')
    ensures Lending(first, ready, out, objs, o, pri, next, threads', ready')
  {
    UpsetSince(first, threads, ready, out, threads', ready', pri);
    LiftedSince(first, threads, ready, out, threads', ready');
  }

  /** A thread of `out` was raised: its bucket was emptied, and the thread itself was put into one. */
  ghost predicate Upset(threads: seq<Thread>, ready: seq<seq<nat>>, out: set<nat>, threads': seq<Thread>, ready': seq<seq<nat>>) {
    exists m: nat :: m in out && UpsetBy(threads, ready, m, threads', ready')
  }

  ghost predicate UpsetBy(threads: seq<Thread>, ready: seq<seq<nat>>, m: nat, threads': seq<Thread>, ready': seq<seq<nat>>) {
    && m < |threads| == |threads'| && Eff(threads[m]) < Eff(threads'[m]) && |ready| == BUCKETS
    && ready' == Trampled(ready, Bucket(threads[m]), Bucket(threads'[m]), m)
  }

  /** The buckets when a ready thread was raised: it was taken out of its bucket and put at the end of another one, or the
      same; if it was in none, its bucket was emptied. */
  ghost predicate LiftedBy(threads: seq<Thread>, ready: seq<seq<nat>>, out: set<nat>, m: nat, threads': seq<Thread>, ready': seq<seq<nat>>) {
    && m < |threads| == |threads'| && |ready| == BUCKETS
    && var b, j := Bucket(threads[m]), Bucket(threads'[m]);
       var left := ready[b := if m in out then [] else Without(ready[b], m)];
       ready' == left[j := left[j] + [m]]
  }

  ghost predicate ReadySame(threads: seq<Thread>, threads': seq<Thread>) {
    |threads'| == |threads| && forall id :: 0 <= id < |threads| && threads[id].state == Ready ==> threads'[id] == threads[id]
  }

  /** The same of any threads that were raised: at most one of them was ready. */
  ghost predicate Lifted(threads: seq<Thread>, ready: seq<seq<nat>>, out: set<nat>, threads': seq<Thread>, ready': seq<seq<nat>>) {
    var ok :=
      && |threads'| == |threads| && (ReadySame(threads, threads') ==> ready' == ready)
      && forall m :: 0 <= m < |threads| && threads[m].state == Ready && threads'[m] != threads[m] ==>
           LiftedBy(threads, ready, out, m, threads', ready');
    ok
  }

  lemma LiftedSince(first: seq<Thread>, threads: seq<Thread>, ready: seq<seq<nat>>, out: set<nat>, threads': seq<Thread>, ready': seq<seq<nat>>)
    requires ReadySame(first, threads) && Lifted(threads, ready, out, threads', ready')
    requires |threads'| == |threads| && forall id :: 0 <= id < |threads| ==> threads[id].state == first[id].state
    ensures Lifted(first, ready, out, threads', ready')
    ensures ReadySame(threads, threads') ==> ReadySame(first, threads')
  {
  }

  lemma MarkedRaised(threads: seq<Thread>, ready: seq<seq<nat>>, out: set<nat>, m: nat, pri: int)
    requires Queued(threads, ready, out) && m in out && m < |threads| && Eff(threads[m]) < pri <= 159 && |ready| == BUCKETS
    ensures var threads' := threads[m := threads[m].(inhpri := pri)];
            var ready' := Trampled(ready, Bucket(threads[m]), Bucket(threads'[m]), m);
            !Queued(threads', ready', out) && Upset(threads, ready, out, threads', ready')
  {
    var threads' := threads[m := threads[m].(inhpri := pri)];
    var ready' := Trampled(ready, Bucket(threads[m]), Bucket(threads'[m]), m);
    assert UpsetBy(threads, ready, m, threads', ready');
    assert m in ready'[Bucket(threads'[m])] && !Fits(threads', m, out, Bucket(threads'[m]));
  }

  lemma UpsetSince(first: seq<Thread>, threads: seq<Thread>, ready: seq<seq<nat>>, out: set<nat>, threads': seq<Thread>,
                   ready': seq<seq<nat>>, pri: int)
    requires OnlyRaised(first, threads, pri) && OnlyRaised(threads, threads', pri)
    ensures OnlyRaised(first, threads', pri)
    ensures Upset(threads, ready, out, threads', ready') ==> Upset(first, ready, out, threads', ready')
  {
    if Upset(threads, ready, out, threads', ready') {
      var m: nat :| m in out && UpsetBy(threads, ready, m, threads', ready');
      assert UpsetBy(first, ready, m, threads', ready');
    }
  }

  /** A thread fallen asleep on an object. */
  function Asleep(threads: seq<Thread>, c: nat, o: nat): seq<Thread>
    requires c < |threads|
  {
    threads[c := threads[c].(state := Sleep, chan := Some(o))]
  }

  /** The owner of the object waited for gets the lender's priority, or has as much. */
  lemma OwnerIsRaised(threads: seq<Thread>, objs: seq<Obj>, g: nat, pri: int)
    requires pri <= 159 && g < |objs| && objs[g].kind != Event && objs[g].owner.Some? && objs[g].owner.value < |threads|
    ensures Eff(Lent(threads, objs, g, pri)[objs[g].owner.value]) >= pri
  {
  }

  // ---- The operations ----

  datatype Result = Success | NotOwned

  class Kernel {
    const rq: ReadyQueues
    var objs: seq<Obj>
    var current: nat
    ghost var log: seq<Act>

    ghost predicate Valid()
      reads this, rq
    {
      Good(rq.threads, rq.ready, rq.marked, objs, current, log)
    }

    ghost predicate Active()
      reads this, rq
    {
      Valid() && rq.threads[current].state == Running
    }

    constructor (rq: ReadyQueues, objs: seq<Obj>, current: nat)
      requires Queued(rq.threads, rq.ready, {}) && rq.marked == {} && current < |rq.threads| && OneRunning(rq.threads, current)
      requires forall o :: 0 <= o < |objs| ==> objs[o].val == 0 && objs[o].owner == None && objs[o].level == 0 && objs[o].waiters == []
      requires forall id :: 0 <= id < |rq.threads| ==> rq.threads[id].chan == None && rq.threads[id].owned == []
      ensures Valid() && this.rq == rq && this.objs == objs && this.current == current && log == []
    {
      this.rq, this.objs, this.current, log := rq, objs, current, [];
    }

    /** Makes all threads that wait for an object ready, first come first. */
    method WakeAll(o: nat)
      requires Queued(rq.threads, rq.ready, rq.marked) && AllReady(rq.threads, rq.marked) && ObjsOk(rq.threads, objs) && o < |objs|
      requires (objs[o].kind == Event || objs[o].owner.Some?)
      modifies rq`threads, rq`ready, this`objs
      ensures Queued(rq.threads, rq.ready, rq.marked) && AllReady(rq.threads, rq.marked) && ObjsOk(rq.threads, objs)
      ensures objs == old(objs)[o := old(objs)[o].(waiters := [])]
      ensures AllWoken(old(rq.threads), old(objs[o].waiters), rq.threads)
      ensures Appended(old(rq.threads), old(rq.ready), old(objs[o].waiters), rq.ready)
    {
      ghost var all := objs[o].waiters;
      ghost var i := 0;
      assert all[..0] == [];
      while objs[o].waiters != []
        invariant |objs| == |old(objs)| && i <= |all| && objs == old(objs)[o := old(objs)[o].(waiters := all[i..])]
        invariant Queued(rq.threads, rq.ready, rq.marked) && AllReady(rq.threads, rq.marked) && ObjsOk(rq.threads, objs)
        invariant AllWoken(old(rq.threads), all[..i], rq.threads) && Appended(old(rq.threads), old(rq.ready), all[..i], rq.ready)
        decreases |objs[o].waiters|
      {
        var t := objs[o].waiters[0];
        var rest := objs[o].waiters[1..];
        WakeOne(rq.threads, objs, o, t, rest);
        OneMoreWoken(old(rq.threads), all, i, rq.threads);
        AppendedNext(old(rq.threads), old(rq.ready), all, i, rq.ready);
        objs := objs[o := objs[o].(waiters := rest)];
        rq.AddReady(t, rq.marked);
        assert rq.marked - {t} == rq.marked;
        i := i + 1;
      }
      assert all[..i] == all;
    }

    /** The current thread becomes the owner of a free lock. */
    method Take(o: nat)
      requires Active() && o < |objs| && objs[o].kind != Event && objs[o].owner == None
      modifies rq`threads, this`objs, this`log
      ensures Active() && log == old(log) + [Acquire(current, o)]
      ensures objs == old(objs)[o := Owned(old(objs)[o], current)]
      ensures rq.threads == old(rq.threads)[current := old(rq.threads)[current].(owned := [o] + old(rq.threads)[current].owned)]
      ensures old(NoInversion(rq.threads, objs)) ==> NoInversion(rq.threads, objs)
    {
      var t := rq.threads[current];
      var level := if objs[o].kind == Recursive then objs[o].level + 1 else 0;
      OwnedIffSet(rq.threads, objs, o);
      Taken(rq.threads, rq.ready, rq.marked, objs, current, log, o, level);
      rq.threads := rq.threads[current := t.(owned := [o] + t.owned)];
      objs := objs[o := objs[o].(val := 1, owner := Some(current), level := level)];
      log := log + [Acquire(current, o)];
    }

    method TryLock(o: nat) returns (got: bool)
      requires Active() && o < |objs| && objs[o].kind == Plain
      modifies rq`threads, this`objs, this`log
      ensures Active() && got == (old(objs)[o].owner == None)
      ensures got ==> objs == old(objs)[o := Owned(old(objs)[o], current)] && log == old(log) + [Acquire(current, o)]
      ensures got ==> rq.threads == old(rq.threads)[current := old(rq.threads)[current].(owned := [o] + old(rq.threads)[current].owned)]
      ensures !got ==> rq.threads == old(rq.threads) && objs == old(objs) && log == old(log)
      ensures old(NoInversion(rq.threads, objs)) ==> NoInversion(rq.threads, objs)
    {
      OwnedIffSet(rq.threads, objs, o);
      if objs[o].val == 1 {
        return false;
      }
      Take(o);
      return true;
    }

    /** Raises one thread, keeping it in the right bucket if it is ready and in one. */
    method RaiseThread(t: nat, pri: int)
      requires Queued(rq.threads, rq.ready, rq.marked) && t < |rq.threads| && Eff(rq.threads[t]) < pri <= 159
      requires rq.threads[t].state == Ready ==> rq.threads[t].chan == None
      requires t in rq.marked ==> rq.threads[t].state == Ready
      modifies rq`threads, rq`ready
      ensures rq.threads == old(rq.threads)[t := old(rq.threads)[t].(inhpri := pri)]
      ensures t !in rq.marked ==> Queued(rq.threads, rq.ready, rq.marked)
      ensures |old(rq.ready)| == BUCKETS
      ensures if old(rq.threads)[t].state == Ready then LiftedBy(old(rq.threads), old(rq.ready), rq.marked, t, rq.threads, rq.ready)
              else rq.ready == old(rq.ready)
    {
      var was := rq.DelReady(t);
      ghost var out := if was then rq.marked + {t} else rq.marked;
      if t !in rq.marked {
        ChangeOk(rq.threads, rq.ready, out, t, rq.threads[t].(inhpri := pri));
        assert rq.marked + {t} - {t} == rq.marked;
      }
      rq.threads := rq.threads[t := rq.threads[t].(inhpri := pri)];
      if was {
        rq.AddReady(t, out);
      }
    }

    /** One round of lending: the owner of `g` is raised, and if it sleeps on an object that one is next. */
    method LendOnce(g: nat) returns (next: Option<nat>)
      requires Queued(rq.threads, rq.ready, rq.marked) && AllReady(rq.threads, rq.marked)
      requires ObjsOk(rq.threads, objs) && g < |objs| && objs[g].waiters != [] && current < |rq.threads|
      modifies rq`threads, rq`ready
      ensures AllReady(rq.threads, rq.marked) && ObjsOk(rq.threads, objs) && |rq.threads| == |old(rq.threads)|
      ensures next.Some? ==> next.value < |objs| && objs[next.value].waiters != []
      ensures var pri := Eff(old(rq.threads)[current]);
              && Eff(rq.threads[current]) == pri && (next.Some? ==> Lower(rq.threads, pri) < Lower(old(rq.threads), pri))
              && Lending(old(rq.threads), old(rq.ready), rq.marked, objs, g, pri, next, rq.threads, rq.ready)
    {
      next := None;
      if objs[g].kind != Event {
        NextOwner(rq.threads, objs, g);
        var t := objs[g].owner.value;
        var pri := Eff(rq.threads[current]);
        if rq.threads[t].cpupri < pri && rq.threads[t].inhpri < pri {
          ghost var raised := Raise(rq.threads, t, pri);
          SameLinks(rq.threads, objs, raised);
          next := if rq.threads[t].state == Sleep then rq.threads[t].chan else None;
          RaiseThread(t, pri);
          OneRaise(old(rq.threads), old(rq.ready), rq.marked, objs, g, pri, next, rq.threads, rq.ready);
        }
      }
    }

    /** Lends the priority of the current thread, asleep on `o`, along the chain of owners. The walk ends on every
        chain, also on a cycle, because each further round leaves fewer threads below that priority. The buckets are
        right afterwards exactly if the walk reaches no thread that a wakeup has still to put into one. */
    method LendPriority(o: nat)
      requires Queued(rq.threads, rq.ready, rq.marked) && AllReady(rq.threads, rq.marked)
      requires ObjsOk(rq.threads, objs) && o < |objs| && objs[o].waiters != [] && current < |rq.threads|
      modifies rq`threads, rq`ready
      ensures AllReady(rq.threads, rq.marked) && ObjsOk(rq.threads, objs)
      ensures rq.threads == Lent(old(rq.threads), objs, o, Eff(old(rq.threads)[current]))
      ensures Queued(rq.threads, rq.ready, rq.marked) <==>
              !Reaches(old(rq.threads), objs, o, Eff(old(rq.threads)[current]), rq.marked)
      ensures Queued(rq.threads, rq.ready, rq.marked) || Upset(old(rq.threads), old(rq.ready), rq.marked, rq.threads, rq.ready)
      ensures Lifted(old(rq.threads), old(rq.ready), rq.marked, rq.threads, rq.ready)
    {
      ghost var pri := Eff(rq.threads[current]);
      var gl: Option<nat> := Some(o);
      while gl.Some?
        invariant AllReady(rq.threads, rq.marked) && ObjsOk(rq.threads, objs)
        invariant current < |rq.threads| && Eff(rq.threads[current]) == pri
        invariant gl.Some? ==> gl.value < |objs| && objs[gl.value].waiters != []
        invariant Lending(old(rq.threads), old(rq.ready), rq.marked, objs, o, pri, gl, rq.threads, rq.ready)
        decreases gl.Some?, Lower(rq.threads, pri)
      {
        ghost var threads := rq.threads;
        var g := gl.value;
        gl := LendOnce(g);
        LendingOn(old(rq.threads), old(rq.ready), rq.marked, objs, o, pri, threads, g, gl, rq.threads, rq.ready);
      }
    }

    /** The current thread goes to sleep on a lock that is held. */
    method Doze(o: nat)
      requires Active() && o < |objs| && objs[o].kind != Event && objs[o].owner.Some?
      modifies rq`threads, this`objs
      ensures Valid() && objs == old(objs)[o := old(objs)[o].(waiters := old(objs)[o].waiters + [current])]
      ensures rq.threads == Asleep(old(rq.threads), current, o) && Eff(rq.threads[current]) == Eff(old(rq.threads)[current])
      ensures old(NoInversion(rq.threads, objs)) ==> NoInversion(Lent(rq.threads, objs, o, Eff(rq.threads[current])), objs)
    {
      ghost var pri := Eff(rq.threads[current]);
      GoneToSleep(rq.threads, rq.ready, rq.marked, objs, current, log, o, objs[o].val);
      PendingOnly(rq.threads, objs, current, o);
      rq.threads := rq.threads[current := rq.threads[current].(state := Sleep, chan := Some(o))];
      objs := objs[o := objs[o].(waiters := objs[o].waiters + [current])];
      if LentUpTo(rq.threads, objs, o, pri) {
        LendingSuffices(rq.threads, objs, o, pri);
      }
    }

    /** It lends its priority then. */
    method Block(o: nat)
      requires Active() && o < |objs| && objs[o].kind != Event && objs[o].owner.Some?
      modifies rq`threads, rq`ready, this`objs
      ensures objs == old(objs)[o := old(objs)[o].(waiters := old(objs)[o].waiters + [current])]
      ensures rq.threads == Lent(Asleep(old(rq.threads), current, o), objs, o, Eff(old(rq.threads)[current]))
      ensures Valid() <==> !Reaches(Asleep(old(rq.threads), current, o), objs, o, Eff(old(rq.threads)[current]), rq.marked)
      ensures Valid() || Upset(Asleep(old(rq.threads), current, o), old(rq.ready), rq.marked, rq.threads, rq.ready)
      ensures Lifted(Asleep(old(rq.threads), current, o), old(rq.ready), rq.marked, rq.threads, rq.ready)
      ensures old(NoInversion(rq.threads, objs)) ==> NoInversion(rq.threads, objs)
    {
      Doze(o);
      ghost var asleep := rq.threads;
      LendPriority(o);
      StillOne(asleep, rq.threads, current);
    }

    /** One attempt to take a lock: if the lock is held the current thread is asleep afterwards, and tries again
        when it runs again. */
    method Lock(o: nat) returns (got: bool)
      requires Active() && o < |objs| && objs[o].kind == Plain
      modifies rq`threads, rq`ready, this`objs, this`log
      ensures got == (old(objs)[o].owner == None)
      ensures got ==> objs == old(objs)[o := Owned(old(objs)[o], current)] && log == old(log) + [Acquire(current, o)]
      ensures got ==> rq.threads == old(rq.threads)[current := old(rq.threads)[current].(owned := [o] + old(rq.threads)[current].owned)]
      ensures !got ==> log == old(log) && objs == old(objs)[o := old(objs)[o].(waiters := old(objs)[o].waiters + [current])]
      ensures !got ==> rq.threads == Lent(Asleep(old(rq.threads), current, o), objs, o, Eff(old(rq.threads)[current]))
      ensures Valid() <==> got || !Reaches(Asleep(old(rq.threads), current, o), objs, o, Eff(old(rq.threads)[current]), rq.marked)
      ensures Valid() || Upset(Asleep(old(rq.threads), current, o), old(rq.ready), rq.marked, rq.threads, rq.ready)
      ensures if got then rq.ready == old(rq.ready) else Lifted(Asleep(old(rq.threads), current, o), old(rq.ready), rq.marked, rq.threads, rq.ready)
      ensures old(NoInversion(rq.threads, objs)) ==> NoInversion(rq.threads, objs)
    {
      OwnedIffSet(rq.threads, objs, o);
      if objs[o].val == 1 {
        Block(o);
        return false;
      }
      Take(o);
      return true;
    }

    /** The current thread gives a lock up and makes all who wait for it ready. */
    method GiveUp(o: nat)
      requires Active() && o < |objs| && objs[o].owner == Some(current) && (objs[o].kind == Recursive ==> objs[o].level == 1)
      modifies rq`threads, rq`ready, this`objs, this`log
      ensures Active() && log == old(log) + [Release(current, o)]
      ensures objs == old(objs)[o := Obj(old(objs)[o].kind, 0, None, 0, [])]
      ensures Released(old(rq.threads), old(objs)[o].waiters, current, o, rq.threads)
      ensures Appended(old(rq.threads), old(rq.ready), old(objs)[o].waiters, rq.ready)
      ensures Others(old(rq.threads), old(objs)[o].waiters, current, rq.threads)
      ensures old(NoInversion(rq.threads, objs)) ==> NoInversion(rq.threads, objs)
    {
      ghost var threads, before, waiters := rq.threads, objs, objs[o].waiters;
      OwnerKind(rq.threads, objs, o);
      CurrentNotWaiting(rq.threads, objs, current, o);
      WakeAll(o);
      GiveUpOk(rq.threads, objs, o, current);
      ChangeOk(rq.threads, rq.ready, rq.marked, current, rq.threads[current].(owned := Without(rq.threads[current].owned, o)));
      rq.threads := rq.threads[current := rq.threads[current].(owned := Without(rq.threads[current].owned, o))];
      objs := objs[o := objs[o].(val := 0, owner := None, level := 0)];
      log := log + [Release(current, o)];
      GivenUp(threads, before, current, old(log), o, rq.threads, objs);
      ReleasedOthers(threads, waiters, current, o, rq.threads);
    }

    /** A thread that owns nothing any more loses what was lent to it. */
    method DropInherited(ghost was: seq<Thread>, ghost woken: seq<nat>)
      requires Active()
      modifies rq`threads
      ensures Active()
      ensures var t := old(rq.threads)[current];
              rq.threads == old(rq.threads)[current := if t.owned == [] then t.(inhpri := 0) else t]
      ensures old(Others(was, woken, current, rq.threads)) ==> Others(was, woken, current, rq.threads)
      ensures old(NoInversion(rq.threads, objs)) ==> NoInversion(rq.threads, objs)
    {
      if rq.threads[current].owned == [] {
        Dropped(rq.threads, rq.ready, rq.marked, objs, current, log);
        if Others(was, woken, current, rq.threads) {
          OthersKept(was, woken, current, rq.threads, rq.threads[current].(inhpri := 0));
        }
        rq.threads := rq.threads[current := rq.threads[current].(inhpri := 0)];
      }
    }

    method Unlock(o: nat) returns (r: Result)
      requires Active() && o < |objs| && objs[o].kind == Plain
      modifies rq`threads, rq`ready, this`objs, this`log
      ensures Active() && (r == Success <==> old(objs)[o].owner == Some(current))
      ensures r == Success ==> log == old(log) + [Release(current, o)] && objs == old(objs)[o := Obj(Plain, 0, None, 0, [])]
      ensures Others(old(rq.threads), if r == Success then old(objs)[o].waiters else [], current, rq.threads)
      ensures rq.threads[current] == Relieved(old(rq.threads)[current], if r == Success then Some(o) else None)
      ensures rq.threads[current].inhpri == if rq.threads[current].owned == [] then 0 else old(rq.threads)[current].inhpri
      ensures r == Success ==> Appended(old(rq.threads), old(rq.ready), old(objs)[o].waiters, rq.ready)
      ensures r == NotOwned ==> log == old(log) && objs == old(objs) && rq.ready == old(rq.ready)
      ensures old(NoInversion(rq.threads, objs)) ==> NoInversion(rq.threads, objs)
    {
      if objs[o].owner == Some(current) {
        GiveUp(o);
        r := Success;
      } else {
        JustSelf(rq.threads, current, rq.threads[current]);
        r := NotOwned;
      }
      DropInherited(old(rq.threads), if r == Success then old(objs)[o].waiters else []);
    }

    /** Notes that the owner of a recursive lock took it once more, or gave it back once. */
    method SetLevel(o: nat, level: nat, ghost a: Act)
      requires Active() && o < |objs| && objs[o].kind == Recursive && objs[o].owner == Some(current)
      requires (a == Acquire(current, o) && level == objs[o].level + 1) || (a == Release(current, o) && level > 0 && level == objs[o].level - 1)
      modifies this`objs, this`log
      ensures Active() && objs == old(objs)[o := old(objs)[o].(level := level)] && log == old(log) + [a]
      ensures old(NoInversion(rq.threads, objs)) ==> NoInversion(rq.threads, objs)
    {
      LevelChanged(rq.threads, rq.ready, rq.marked, objs, current, log, o, a, level);
      objs := objs[o := objs[o].(level := level)];
      log := log + [a];
    }

    /** One attempt to take a recursive lock; the owner gets it once more. */
    method RLock(o: nat) returns (got: bool)
      requires Active() && o < |objs| && objs[o].kind == Recursive
      modifies rq`threads, rq`ready, this`objs, this`log
      ensures got <==> old(objs)[o].owner == None || old(objs)[o].owner == Some(current)
      ensures got ==> objs == old(objs)[o := Owned(old(objs)[o], current)] && log == old(log) + [Acquire(current, o)]
      ensures got ==> rq.threads == if old(objs)[o].owner == None
                                    then old(rq.threads)[current := old(rq.threads)[current].(owned := [o] + old(rq.threads)[current].owned)]
                                    else old(rq.threads)
      ensures !got ==> log == old(log) && objs == old(objs)[o := old(objs)[o].(waiters := old(objs)[o].waiters + [current])]
      ensures !got ==> rq.threads == Lent(Asleep(old(rq.threads), current, o), objs, o, Eff(old(rq.threads)[current]))
      ensures Valid() <==> got || !Reaches(Asleep(old(rq.threads), current, o), objs, o, Eff(old(rq.threads)[current]), rq.marked)
      ensures Valid() || Upset(Asleep(old(rq.threads), current, o), old(rq.ready), rq.marked, rq.threads, rq.ready)
      ensures if got then rq.ready == old(rq.ready) else Lifted(Asleep(old(rq.threads), current, o), old(rq.ready), rq.marked, rq.threads, rq.ready)
      ensures old(NoInversion(rq.threads, objs)) ==> NoInversion(rq.threads, objs)
    {
      OwnedIffSet(rq.threads, objs, o);
      if objs[o].val == 1 {
        if objs[o].owner == Some(current) {
          SetLevel(o, objs[o].level + 1, Acquire(current, o));
          return true;
        }
        Block(o);
        return false;
      }
      Take(o);
      return true;
    }

    /** Undoes one acquisition of a recursive lock; the last one gives the lock up. */
    method RUnlock(o: nat) returns (r: Result)
      requires Active() && o < |objs| && objs[o].kind == Recursive
      modifies rq`threads, rq`ready, this`objs, this`log
      ensures Active() && (r == Success <==> old(objs)[o].owner == Some(current))
      ensures r == NotOwned ==> log == old(log) && objs == old(objs)
      ensures r == Success ==> log == old(log) + [Release(current, o)]
      ensures r == Success && old(objs)[o].level > 1 ==> objs == old(objs)[o := old(objs)[o].(level := old(objs)[o].level - 1)]
      ensures r == Success && old(objs)[o].level == 1 ==> objs == old(objs)[o := Obj(Recursive, 0, None, 0, [])]
      ensures var freed := r == Success && old(objs)[o].level == 1;
              && Others(old(rq.threads), if freed then old(objs)[o].waiters else [], current, rq.threads)
              && rq.threads[current] == Relieved(old(rq.threads)[current], if freed then Some(o) else None)
              && (if freed then Appended(old(rq.threads), old(rq.ready), old(objs)[o].waiters, rq.ready) else rq.ready == old(rq.ready))
              && rq.threads[current].inhpri == if rq.threads[current].owned == [] then 0 else old(rq.threads)[current].inhpri
      ensures old(NoInversion(rq.threads, objs)) ==> NoInversion(rq.threads, objs)
    {
      r := NotOwned;
      ghost var freed := false;
      if objs[o].owner == Some(current) {
        r := Success;
        freed := LevelDown(o);
      } else {
        JustSelf(rq.threads, current, rq.threads[current]);
      }
      DropInherited(old(rq.threads), if freed then old(objs)[o].waiters else []);
    }

    /** The owner undoes one acquisition. */
    method LevelDown(o: nat) returns (ghost freed: bool)
      requires Active() && o < |objs| && objs[o].kind == Recursive && objs[o].owner == Some(current)
      modifies rq`threads, rq`ready, this`objs, this`log
      ensures Active() && log == old(log) + [Release(current, o)] && (freed <==> old(objs)[o].level == 1) && old(objs)[o].level > 0
      ensures objs == old(objs)[o := if freed then Obj(Recursive, 0, None, 0, []) else old(objs)[o].(level := old(objs)[o].level - 1)]
      ensures Others(old(rq.threads), if freed then old(objs)[o].waiters else [], current, rq.threads)
      ensures var t := old(rq.threads)[current]; rq.threads[current] == if freed then t.(owned := Without(t.owned, o)) else t
      ensures if freed then Appended(old(rq.threads), old(rq.ready), old(objs)[o].waiters, rq.ready) else rq.ready == old(rq.ready)
      ensures old(NoInversion(rq.threads, objs)) ==> NoInversion(rq.threads, objs)
    {
      OwnerKind(rq.threads, objs, o);
      freed := objs[o].level == 1;
      if objs[o].level - 1 <= 0 {
        GiveUp(o);
      } else {
        JustSelf(rq.threads, current, rq.threads[current]);
        SetLevel(o, objs[o].level - 1, Release(current, o));
      }
    }

    /** Gives a lock up and goes to sleep on an event, in one step. */
    method EventSleep(e: nat, lck: Option<nat>) returns (r: Result)
      requires Active() && e < |objs| && objs[e].kind == Event
      requires lck.Some? ==> lck.value < |objs| && objs[lck.value].kind == Plain
      modifies rq`threads, rq`ready, this`objs, this`log
      ensures Valid() && (r == NotOwned <==> lck.Some? && old(objs)[lck.value].owner != Some(current))
      ensures r == NotOwned ==> rq.threads == old(rq.threads) && rq.ready == old(rq.ready) && objs == old(objs) && log == old(log)
      ensures r == Success ==> rq.threads[current] == Resting(old(rq.threads)[current], lck, e)
      ensures r == Success ==>
                var freed := if lck.Some? then old(objs)[lck.value := Obj(Plain, 0, None, 0, [])] else old(objs);
                objs == freed[e := old(objs)[e].(val := old(objs)[e].val + 1, waiters := old(objs)[e].waiters + [current])]
      ensures r == Success ==> log == if lck.Some? then old(log) + [Release(current, lck.value)] else old(log)
      ensures r == Success ==> Others(old(rq.threads), if lck.Some? then old(objs)[lck.value].waiters else [], current, rq.threads)
      ensures r == Success ==> if lck.Some? then Appended(old(rq.threads), old(rq.ready), old(objs)[lck.value].waiters, rq.ready)
                               else rq.ready == old(rq.ready)
      ensures old(NoInversion(rq.threads, objs)) ==> NoInversion(rq.threads, objs)
    {
      if lck.Some? {
        if objs[lck.value].owner != Some(current) {
          return NotOwned;
        }
        CurrentNotWaiting(rq.threads, objs, current, lck.value);
        GiveUp(lck.value);
      } else {
        JustSelf(rq.threads, current, rq.threads[current]);
      }
      SleepOn(e, old(rq.threads), if lck.Some? then old(objs)[lck.value].waiters else []);
      return Success;
    }

    /** The current thread goes to sleep on an event. */
    method SleepOn(e: nat, ghost was: seq<Thread>, ghost woken: seq<nat>)
      requires Active() && e < |objs| && objs[e].kind == Event
      modifies rq`threads, this`objs
      ensures Valid()
      ensures objs == old(objs)[e := old(objs)[e].(waiters := old(objs)[e].waiters + [current], val := old(objs)[e].val + 1)]
      ensures rq.threads == old(rq.threads)[current := old(rq.threads)[current].(state := Sleep, chan := Some(e))]
      ensures old(Others(was, woken, current, rq.threads)) ==> Others(was, woken, current, rq.threads)
      ensures old(NoInversion(rq.threads, objs)) ==> NoInversion(rq.threads, objs)
    {
      GoneToSleep(rq.threads, rq.ready, rq.marked, objs, current, log, e, objs[e].val + 1);
      SleepOnEvent(rq.threads, objs, current, e);
      if Others(was, woken, current, rq.threads) {
        OthersKept(was, woken, current, rq.threads, rq.threads[current].(state := Sleep, chan := Some(e)));
      }
      rq.threads := rq.threads[current := rq.threads[current].(state := Sleep, chan := Some(e))];
      objs := objs[e := objs[e].(waiters := objs[e].waiters + [current], val := objs[e].val + 1)];
    }

    /** Wakes all threads asleep on an event, and so every thread that has gone to sleep on it since the last wakeup. */
    method EventWakeup(e: nat) returns (count: nat)
      requires Valid() && e < |objs| && objs[e].kind == Event
      modifies rq`threads, rq`ready, this`objs
      ensures Valid() && count == |old(objs)[e].waiters| && objs == old(objs)[e := old(objs)[e].(val := 0, waiters := [])]
      ensures AllWoken(old(rq.threads), old(objs)[e].waiters, rq.threads)
      ensures Appended(old(rq.threads), old(rq.ready), old(objs)[e].waiters, rq.ready)
      ensures forall id :: 0 <= id < |rq.threads| && old(rq.threads)[id].chan == Some(e) ==> rq.threads[id].state == Ready
      ensures old(NoInversion(rq.threads, objs)) ==> NoInversion(rq.threads, objs)
    {
      ghost var threads, before := rq.threads, objs;
      count := |objs[e].waiters|;
      WakeAll(e);
      EventCleared(threads, before, e, current, log, rq.threads, objs);
      objs := objs[e := objs[e].(val := 0)];
    }

    /** Hands the processor on. */
    method Reschedule(now: int)
      requires Valid() && rq.threads[current].state != Ready
      modifies rq`threads, rq`ready, this`current
      ensures Valid() && Handed(old(rq.threads), old(current), current, now, rq.threads)
      ensures Rejoined(old(rq.threads), old(rq.ready), old(current), current, rq.ready)
      ensures current != old(current) ==> Dispatched(old(rq.threads), old(rq.ready), rq.marked, current) && Active()
      ensures current == old(current) ==>
                NoneReady(old(rq.threads), rq.marked) || (old(rq.threads)[current].state == Running && IdleIsNext(old(rq.threads), old(rq.ready), rq.marked))
      ensures old(NoInversion(rq.threads, objs)) ==> NoInversion(rq.threads, objs)
    {
      ghost var threads := rq.threads;
      var next := rq.Schedule(current, now);
      AfterHanding(threads, objs, current, next, now, rq.threads);
      current := next;
    }

    /** The clock charges the running thread. If no thread waited for a lock of a weaker owner, this is still so
        exactly if no thread that waits for one of the running thread's locks outlasts it. */
    method Tick()
      requires Active()
      modifies rq`threads
      ensures Active() && rq.threads == old(rq.threads)[current := Ticked(old(rq.threads)[current])]
      ensures old(NoInversion(rq.threads, objs)) ==> (NoInversion(rq.threads, objs) <==> !Outlasted(old(rq.threads), objs, current))
    {
      AfterTick(rq.threads, objs, current);
      rq.Charge(current);
    }

    method Age(now: int)
      requires Valid()
      modifies rq`threads, rq`ready
      ensures Valid() && |rq.threads| == |old(rq.threads)|
      ensures forall id: nat :: id < |rq.threads| ==>
                AgedIf(id !in rq.marked && AgesIn(old(rq.threads)[id], BUCKETS - 1), old(rq.threads)[id], now, rq.threads[id])
      ensures |rq.ready| == |old(rq.ready)| == BUCKETS && forall c :: 0 <= c < BUCKETS ==> rq.ready[c] == AgedQueue(rq.threads, old(rq.ready), c)
      ensures old(NoInversion(rq.threads, objs)) ==> NoInversion(rq.threads, objs)
    {
      ghost var threads := rq.threads;
      rq.AgePass(now);
      AfterAgeing(threads, rq.marked, objs, now, rq.threads);
    }

    /** The current thread goes to sleep for a time. */
    method TimedSleep()
      requires Active()
      modifies rq`threads
      ensures Valid() && rq.threads == old(rq.threads)[current := old(rq.threads)[current].(state := Sleep)]
      ensures old(NoInversion(rq.threads, objs)) ==> NoInversion(rq.threads, objs)
    {
      ghost var threads := rq.threads;
      AfterPausing(threads, rq.ready, rq.marked, objs, current, log);
      rq.threads := rq.threads[current := rq.threads[current].(state := Sleep)];
    }

    /** A thread that sleeps for a time only is raised and declared ready; other threads may run before it is put
        into its bucket. */
    method BeginWakeup(id: nat)
      requires Valid() && id < |rq.threads| && rq.threads[id].state == Sleep && rq.threads[id].chan == None
      modifies rq`threads, rq`marked
      ensures Valid() && rq.marked == old(rq.marked) + {id}
      ensures rq.threads == old(rq.threads)[id := Woken(old(rq.threads)[id]).(state := Ready)]
      ensures old(NoInversion(rq.threads, objs)) ==> NoInversion(rq.threads, objs)
    {
      ghost var threads := rq.threads;
      rq.MarkReady(id);
      SameLinks(threads, objs, rq.threads);
      AfterWakeup(threads, objs, id);
    }

    /** It is put into its bucket. */
    method FinishWakeup(id: nat)
      requires Valid() && id in rq.marked
      modifies rq
      ensures Valid() && rq.marked == old(rq.marked) - {id} && rq.threads == old(rq.threads)
      ensures |old(rq.ready)| == BUCKETS && id < |rq.threads|
      ensures var b := Bucket(rq.threads[id]); rq.ready == old(rq.ready)[b := old(rq.ready)[b] + [id]]
    {
      assert ThreadOk(rq.threads[id], objs, id);
      rq.Enqueue(id);
      assert rq.threads == old(rq.threads);
    }

    /** Both halves, if no other thread runs in between. */
    method TimedWakeup(id: nat)
      requires Valid() && id < |rq.threads| && rq.threads[id].state == Sleep && rq.threads[id].chan == None
      modifies rq
      ensures Valid() && rq.marked == old(rq.marked) && rq.threads == old(rq.threads)[id := Woken(old(rq.threads)[id]).(state := Ready)]
      ensures old(NoInversion(rq.threads, objs)) ==> NoInversion(rq.threads, objs)
    {
      BeginWakeup(id);
      FinishWakeup(id);
    }
  }

  lemma AfterHanding(threads: seq<Thread>, objs: seq<Obj>, current: nat, next: nat, now: int, threads': seq<Thread>)
    requires ObjsOk(threads, objs) && Handed(threads, current, next, now, threads')
    requires (next != current ==> threads[next].state == Ready)
    ensures ObjsOk(threads', objs) && (NoInversion(threads, objs) ==> NoInversion(threads', objs))
  {
    forall id | 0 <= id < |threads| ensures threads[id].chan.Some? ==> threads[id].state == Sleep {
      assert ThreadOk(threads[id], objs, id);
    }
    SameLinks(threads, objs, threads');
    if NoInversion(threads, objs) {
      FewerWaits(threads, objs, threads', objs);
    }
  }

  /** The thread is at the end of its time slice, and neither the priority lent to it nor its own, lowered by ten but
      not below the minimum of its class, is as much as `pri`. */
  predicate LosesTo(t: Thread, pri: int) {
    t.tqleft <= TICK_MSEC && t.inhpri < pri && t.cpupri - 10 < pri && BasePri(t.cid) < pri
  }

  /** A thread waits for a lock of thread `c` with a priority that `c` loses to. */
  ghost predicate Outlasted(threads: seq<Thread>, objs: seq<Obj>, c: nat)
    requires c < |threads|
  {
    exists t, o :: Waits(threads, objs, t, o) && objs[o].owner == Some(c) && LosesTo(threads[c], Eff(threads[t]))
  }

  /** A tick takes a thread below a priority it has not been below exactly if it loses to that priority. */
  lemma LosesToIff(t: Thread, pri: int)
    requires Eff(t) >= pri
    ensures Eff(Ticked(t)) < pri <==> LosesTo(t, pri)
  {
  }

  lemma SameWaits(threads: seq<Thread>, objs: seq<Obj>, c: nat, t: Thread)
    requires c < |threads| && t.chan == threads[c].chan
    ensures forall u, o :: Waits(threads[c := t], objs, u, o) <==> Waits(threads, objs, u, o)
  {
  }

  lemma AfterTick(threads: seq<Thread>, objs: seq<Obj>, c: nat)
    requires ObjsOk(threads, objs) && c < |threads| && threads[c].state == Running
    ensures var threads' := threads[c := Ticked(threads[c])];
            ObjsOk(threads', objs) && (NoInversion(threads, objs) ==> (NoInversion(threads', objs) <==> !Outlasted(threads, objs, c)))
  {
    var threads' := threads[c := Ticked(threads[c])];
    SameLinks(threads, objs, threads');
    assert ThreadOk(threads[c], objs, c);
    SameWaits(threads, objs, c, Ticked(threads[c]));
    if NoInversion(threads, objs) {
      forall t, o | Waits(threads, objs, t, o)
        ensures t != c && (objs[o].owner == Some(c) ==>
                  (Eff(threads'[c]) < Eff(threads'[t]) <==> LosesTo(threads[c], Eff(threads[t]))))
      {
        if objs[o].owner == Some(c) {
          LosesToIff(threads[c], Eff(threads[t]));
        }
      }
      if Outlasted(threads, objs, c) {
        var t, o :| Waits(threads, objs, t, o) && objs[o].owner == Some(c) && LosesTo(threads[c], Eff(threads[t]));
        assert Waits(threads', objs, t, o);
      }
    }
  }

  /** Thread 0, at the end of its time slice but for one tick, owns lock 0, and thread 1, as strong as it, waits. */
  ghost predicate AboutToInvert(k: Kernel)
    reads k, k.rq
  {
    && k.Active() && k.current == 0 && |k.rq.threads| == 2 && |k.objs| == 1
    && k.objs[0].kind == Plain && k.objs[0].owner == Some(0)
    && k.rq.threads[1].chan == Some(0) && Eff(k.rq.threads[1]) == 50
    && k.rq.threads[0].cid == CLASS_USER && k.rq.threads[0].cpupri == 50 && k.rq.threads[0].inhpri == 0
    && NoInversion(k.rq.threads, k.objs)
  }

  /** Two user threads of equal priority and a lock: the first takes the lock, and the second is dispatched. */
  method OwnerPreempted() returns (k: Kernel)
    ensures fresh(k) && fresh(k.rq) && k.Active() && k.current == 1 && k.rq.marked == {} && NoInversion(k.rq.threads, k.objs)
    ensures |k.objs| == 1 && k.objs[0].kind == Plain && k.objs[0].owner == Some(0)
    ensures |k.rq.threads| == 2 && Eff(k.rq.threads[1]) == 50
    ensures var t := k.rq.threads[0]; t.state == Ready && t.cid == CLASS_USER && t.cpupri == 50 && t.inhpri == 0 && t.chan == None
  {
    var first: Thread := ThreadInfo(Running, CLASS_USER, 0, 50, 0, 0, TIME_QUANTUM, None, []);
    var second: Thread := ThreadInfo(Sleep, CLASS_USER, 0, 45, 0, 0, TIME_QUANTUM, None, []);
    var rq := new ReadyQueues([first, second]);
    k := new Kernel(rq, [Obj(Plain, 0, None, 0, [])], 0);
    assert NoInversion(k.rq.threads, k.objs);
    k.TimedWakeup(1);
    var got := k.Lock(0);
    assert k.rq.threads[1].state == Ready && k.rq.threads[1].cid == CLASS_USER;
    k.Reschedule(1);
  }

  /** The second asks for the lock and goes to sleep, without having to lend anything; the first is dispatched
      again. */
  method ReachContention() returns (k: Kernel)
    ensures fresh(k) && fresh(k.rq) && AboutToInvert(k) && k.rq.threads[0].tqleft == TIME_QUANTUM
  {
    k := OwnerPreempted();
    var got := k.Lock(0);
    assert k.rq.threads[0].state == Ready && k.rq.threads[0].cpupri == 50 && k.rq.threads[0].inhpri == 0;
    k.Reschedule(2);
  }

  /** Five ticks later the owner of the lock is weaker than the thread that waits for it; before the last tick it
      was not. */
  method TickInverts() returns (k: Kernel, ghost before: seq<Thread>)
    ensures fresh(k) && k.Active() && NoInversion(before, k.objs) && !NoInversion(k.rq.threads, k.objs)
    ensures k.current < |before| && k.rq.threads == before[k.current := Ticked(before[k.current])]
  {
    k := ReachContention();
    for i := 0 to 4
      invariant fresh(k) && fresh(k.rq) && AboutToInvert(k) && k.rq.threads[0].tqleft == TIME_QUANTUM - TICK_MSEC * i
    {
      k.Tick();
    }
    before := k.rq.threads;
    k.Tick();
    assert Waits(k.rq.threads, k.objs, 1, 0);
  }

  /** A thread of no inherited priority that sleeps, or waits, on no object. */
  predicate Plainly(t: Thread, state: State, cid: nat, cpupri: int) {
    t.state == state && t.cid == cid && t.cpupri == cpupri && t.inhpri == 0 && t.chan == None
  }

  /** Four threads and a lock, owned by `owner`. */
  ghost predicate Four(k: Kernel, current: nat, marked: set<nat>, owner: Option<nat>)
    reads k, k.rq
  {
    && k.Valid() && k.current == current && k.rq.marked == marked && |k.rq.threads| == 4
    && |k.objs| == 1 && k.objs[0].kind == Plain && k.objs[0].owner == owner
  }

  /** The first runs, the second is ready. */
  method FourThreads() returns (k: Kernel)
    ensures fresh(k) && fresh(k.rq) && Four(k, 0, {}, None)
    ensures Plainly(k.rq.threads[0], Running, CLASS_USER, 45) && Plainly(k.rq.threads[1], Ready, CLASS_SYSTEM, 105)
    ensures Plainly(k.rq.threads[2], Sleep, CLASS_SYSTEM, 110) && Plainly(k.rq.threads[3], Sleep, CLASS_USER, 45)
  {
    var owner: Thread := ThreadInfo(Running, CLASS_USER, 0, 45, 0, 0, TIME_QUANTUM, None, []);
    var waker: Thread := ThreadInfo(Sleep, CLASS_SYSTEM, 0, 100, 0, 0, TIME_QUANTUM, None, []);
    var lender: Thread := ThreadInfo(Sleep, CLASS_SYSTEM, 0, 110, 0, 0, TIME_QUANTUM, None, []);
    var other: Thread := ThreadInfo(Sleep, CLASS_USER, 0, 45, 0, 0, TIME_QUANTUM, None, []);
    var rq := new ReadyQueues([owner, waker, lender, other]);
    k := new Kernel(rq, [Obj(Plain, 0, None, 0, [])], 0);
    k.TimedWakeup(1);
  }

  /** The first takes the lock and goes to sleep for a time. */
  method OwnerSleeps() returns (k: Kernel)
    ensures fresh(k) && fresh(k.rq) && Four(k, 0, {}, Some(0))
    ensures Plainly(k.rq.threads[0], Sleep, CLASS_USER, 45) && Plainly(k.rq.threads[1], Ready, CLASS_SYSTEM, 105)
    ensures Plainly(k.rq.threads[2], Sleep, CLASS_SYSTEM, 110) && Plainly(k.rq.threads[3], Sleep, CLASS_USER, 45)
  {
    k := FourThreads();
    var got := k.Lock(0);
    k.TimedSleep();
  }

  method WakerRuns() returns (k: Kernel)
    ensures fresh(k) && fresh(k.rq) && Four(k, 1, {}, Some(0))
    ensures Plainly(k.rq.threads[0], Sleep, CLASS_USER, 45) && Plainly(k.rq.threads[1], Running, CLASS_SYSTEM, 105)
    ensures Plainly(k.rq.threads[2], Sleep, CLASS_SYSTEM, 110) && Plainly(k.rq.threads[3], Sleep, CLASS_USER, 45)
  {
    k := OwnerSleeps();
    assert k.rq.threads[1].state == Ready;
    k.Reschedule(1);
  }

  /** The second wakes the others by the clock, and has declared the first ready. */
  method OwnerMarked() returns (k: Kernel)
    ensures fresh(k) && fresh(k.rq) && Four(k, 1, {0}, Some(0))
    ensures Plainly(k.rq.threads[0], Ready, CLASS_USER, 50) && Plainly(k.rq.threads[1], Running, CLASS_SYSTEM, 105)
    ensures Plainly(k.rq.threads[2], Ready, CLASS_SYSTEM, 115) && Plainly(k.rq.threads[3], Ready, CLASS_USER, 50)
  {
    k := WakerRuns();
    k.TimedWakeup(3);
    k.TimedWakeup(2);
    k.BeginWakeup(0);
  }

  lemma ThirdIsNext(threads: seq<Thread>, ready: seq<seq<nat>>)
    requires |threads| == 4 && threads[1].state == Running
    requires Plainly(threads[2], Ready, CLASS_SYSTEM, 115) && Plainly(threads[3], Ready, CLASS_USER, 50)
    ensures !NoneReady(threads, {0}) && forall id: nat :: Dispatched(threads, ready, {0}, id) ==> id == 2
  {
    assert Bucket(threads[2]) == 8 && Bucket(threads[3]) == 21;
  }

  /** Before the first is put into its bucket the second is preempted by the third. */
  method WakerPreempted() returns (k: Kernel)
    ensures fresh(k) && fresh(k.rq) && Four(k, 2, {0}, Some(0))
    ensures Plainly(k.rq.threads[0], Ready, CLASS_USER, 50) && Plainly(k.rq.threads[2], Running, CLASS_SYSTEM, 115)
    ensures Plainly(k.rq.threads[3], Ready, CLASS_USER, 50)
  {
    k := OwnerMarked();
    ThirdIsNext(k.rq.threads, k.rq.ready);
    k.Reschedule(2);
  }

  /** The third asks for the lock of the first, and lends it its priority. The fourth, ready, is in no bucket then;
      and the first, still to be put into a bucket, is in one. */
  method LenderUpsets() returns (k: Kernel)
    ensures fresh(k) && k.rq.marked == {0} && |k.rq.threads| == 4 && |k.rq.ready| == BUCKETS
    ensures k.rq.threads[3].state == Ready && forall b :: 0 <= b < BUCKETS ==> 3 !in k.rq.ready[b]
    ensures 0 in k.rq.ready[Bucket(k.rq.threads[0])]
  {
    k := WakerPreempted();
    ghost var threads, ready := k.rq.threads, k.rq.ready;
    assert Bucket(threads[3]) == Bucket(threads[0]) == 21;
    assert Fits(threads, 3, k.rq.marked, 21);
    assert 3 in ready[21];
    var got := k.Lock(0);
    TrampledLoses(threads, ready, k.rq.marked, 21, Bucket(k.rq.threads[0]), 0);
  }

  lemma AfterAgeing(threads: seq<Thread>, out: set<nat>, objs: seq<Obj>, now: int, threads': seq<Thread>)
    requires ObjsOk(threads, objs) && |threads'| == |threads|
    requires forall id: nat :: id < |threads| ==> AgedIf(id !in out && AgesIn(threads[id], BUCKETS - 1), threads[id], now, threads'[id])
    ensures ObjsOk(threads', objs) && (NoInversion(threads, objs) ==> NoInversion(threads', objs))
  {
    SameLinks(threads, objs, threads');
    if NoInversion(threads, objs) {
      forall id | 0 <= id < |threads| ensures threads[id].chan.Some? ==> threads'[id] == threads[id] {
        assert ThreadOk(threads[id], objs, id);
      }
      FewerWaits(threads, objs, threads', objs);
    }
  }

  lemma AfterPausing(threads: seq<Thread>, ready: seq<seq<nat>>, out: set<nat>, objs: seq<Obj>, c: nat, log: seq<Act>)
    requires Good(threads, ready, out, objs, c, log) && threads[c].state == Running
    ensures var threads' := threads[c := threads[c].(state := Sleep)];
            Good(threads', ready, out, objs, c, log) && (NoInversion(threads, objs) ==> NoInversion(threads', objs))
  {
    var threads' := threads[c := threads[c].(state := Sleep)];
    assert ThreadOk(threads[c], objs, c);
    ChangeOk(threads, ready, out, c, threads'[c]);
    SameLinks(threads, objs, threads');
    if NoInversion(threads, objs) {
      FewerWaits(threads, objs, threads', objs);
    }
  }

  lemma AfterWakeup(threads: seq<Thread>, objs: seq<Obj>, id: nat)
    requires id < |threads| && threads[id].chan == None
    ensures NoInversion(threads, objs) ==> NoInversion(threads[id := Woken(threads[id]).(state := Ready)], objs)
  {
    if NoInversion(threads, objs) {
      FewerWaits(threads, objs, threads[id := Woken(threads[id]).(state := Ready)], objs);
    }
  }

  /** An object after a thread took it; a recursive lock is one level deeper. */
  function Owned(x: Obj, c: nat): Obj {
    x.(val := 1, owner := Some(c), level := if x.kind == Recursive then x.level + 1 else 0)
  }

  /** A thread after it gave an object up; if it owns nothing then, nothing is lent to it any more. */
  function Relieved(t: Thread, o: Option<nat>): Thread {
    var owned := if o.Some? then Without(t.owned, o.value) else t.owned;
    t.(owned := owned, inhpri := if owned == [] then 0 else t.inhpri)
  }

  /** A thread after it gave a lock up, if any, and went to sleep on an event. */
  function Resting(t: Thread, lck: Option<nat>, e: nat): Thread {
    t.(owned := if lck.Some? then Without(t.owned, lck.value) else t.owned, state := Sleep, chan := Some(e))
  }

  /** The threads of `q` are ready, and thread `c` no longer owns `o`. */
  ghost predicate Released(threads: seq<Thread>, q: seq<nat>, c: nat, o: nat, threads': seq<Thread>) {
    && |threads'| == |threads|
    && forall id :: 0 <= id < |threads| ==>
         threads'[id] == if id == c then threads[id].(owned := Without(threads[id].owned, o))
                         else if id in q then threads[id].(state := Ready, chan := None) else threads[id]
  }

  /** Of the threads other than `c`, those of `q` have become ready and the rest is as it was. */
  ghost predicate Others(threads: seq<Thread>, q: seq<nat>, c: nat, threads': seq<Thread>) {
    var ok := |threads'| == |threads| && forall id :: 0 <= id < |threads| && id != c ==>
                threads'[id] == if id in q then threads[id].(state := Ready, chan := None) else threads[id];
    ok
  }

  lemma OthersKept(threads: seq<Thread>, q: seq<nat>, c: nat, threads': seq<Thread>, t: Thread)
    requires Others(threads, q, c, threads') && c < |threads'|
    ensures Others(threads, q, c, threads'[c := t])
  {
  }

  lemma ReleasedOthers(threads: seq<Thread>, q: seq<nat>, c: nat, o: nat, threads': seq<Thread>)
    requires Released(threads, q, c, o, threads')
    ensures Others(threads, q, c, threads')
  {
  }

  lemma JustSelf(threads: seq<Thread>, c: nat, t: Thread)
    requires c < |threads|
    ensures Others(threads, [], c, threads[c := t]) && Others(threads, [], c, threads)
  {
  }

  lemma OwnedIffSet(threads: seq<Thread>, objs: seq<Obj>, o: nat)
    requires ObjsOk(threads, objs) && o < |objs| && objs[o].kind != Event
    ensures objs[o].val == 1 <==> objs[o].owner.Some?
    ensures objs[o].kind == Recursive && objs[o].owner == None ==> objs[o].level == 0
    ensures objs[o].kind == Plain ==> objs[o].level == 0
  {
    assert ObjOk(threads, objs[o], o);
  }

  lemma NextOwner(threads: seq<Thread>, objs: seq<Obj>, g: nat)
    requires ObjsOk(threads, objs) && g < |objs| && objs[g].waiters != [] && objs[g].kind != Event
    ensures objs[g].owner.Some? && objs[g].owner.value < |threads|
    ensures var t := threads[objs[g].owner.value];
            (t.state == Ready ==> t.chan == None) && (t.chan.Some? ==> t.chan.value < |objs| && objs[t.chan.value].waiters != [])
  {
    assert ObjOk(threads, objs[g], g);
    var id := objs[g].owner.value;
    assert ThreadOk(threads[id], objs, id);
    if threads[id].chan.Some? {
      var o := threads[id].chan.value;
      assert ObjOk(threads, objs[o], o);
      assert id in objs[o].waiters;
    }
  }

  lemma Taken(threads: seq<Thread>, ready: seq<seq<nat>>, out: set<nat>, objs: seq<Obj>, c: nat, log: seq<Act>, o: nat, level: nat)
    requires Good(threads, ready, out, objs, c, log) && threads[c].state == Running
    requires o < |objs| && objs[o].kind != Event && objs[o].owner == None
    requires level == if objs[o].kind == Recursive then 1 else 0
    ensures Good(threads[c := threads[c].(owned := [o] + threads[c].owned)], ready, out,
                 objs[o := objs[o].(val := 1, owner := Some(c), level := level)], c, log + [Acquire(c, o)])
    ensures NoInversion(threads, objs) ==> NoInversion(threads[c := threads[c].(owned := [o] + threads[c].owned)],
                                                       objs[o := objs[o].(val := 1, owner := Some(c), level := level)])
  {
    var threads' := threads[c := threads[c].(owned := [o] + threads[c].owned)];
    var objs' := objs[o := objs[o].(val := 1, owner := Some(c), level := level)];
    OwnedIffSet(threads, objs, o);
    TakeOk(threads, objs, o, c, level);
    ChangeOk(threads, ready, out, c, threads'[c]);
    TiedTaken(objs, log, o, c, level);
    if NoInversion(threads, objs) {
      NobodyWaits(threads, objs, o);
      FewerWaits(threads, objs, threads', objs');
    }
  }

  lemma NobodyWaits(threads: seq<Thread>, objs: seq<Obj>, o: nat)
    requires ObjsOk(threads, objs) && o < |objs| && objs[o].waiters == []
    ensures forall t :: 0 <= t < |threads| ==> threads[t].chan != Some(o)
  {
    assert ObjOk(threads, objs[o], o);
    forall t: nat | t < |threads| ensures threads[t].chan != Some(o) {
      assert t !in objs[o].waiters;
    }
  }

  lemma TiedTaken(objs: seq<Obj>, log: seq<Act>, o: nat, c: nat, level: nat)
    requires Tied(objs, log) && o < |objs| && objs[o].owner == None && level == if objs[o].kind == Recursive then 1 else 0
    ensures Tied(objs[o := objs[o].(val := 1, owner := Some(c), level := level)], log + [Acquire(c, o)])
  {
    forall x: nat | x < |objs| ensures Replay(log + [Acquire(c, o)], x) == if x == o then Held(c, 1) else Replay(log, x) {
      Logged(log, Acquire(c, o), x);
    }
  }

  /** Fewer waiting threads and no lower owners bring no inversion. */
  lemma FewerWaits(threads: seq<Thread>, objs: seq<Obj>, threads': seq<Thread>, objs': seq<Obj>)
    requires NoInversion(threads, objs)
    requires forall t, o :: Waits(threads', objs', t, o) ==>
               && Waits(threads, objs, t, o) && objs'[o].owner == objs[o].owner
               && Eff(threads'[objs[o].owner.value]) >= Eff(threads[objs[o].owner.value]) && Eff(threads'[t]) <= Eff(threads[t])
    ensures NoInversion(threads', objs')
  {
    forall t, o | Waits(threads', objs', t, o) ensures Eff(threads'[objs'[o].owner.value]) >= Eff(threads'[t]) {
      assert Waits(threads, objs, t, o);
    }
  }

  lemma GoneToSleep(threads: seq<Thread>, ready: seq<seq<nat>>, out: set<nat>, objs: seq<Obj>, c: nat, log: seq<Act>, o: nat, val: nat)
    requires Good(threads, ready, out, objs, c, log) && threads[c].state == Running && o < |objs|
    requires if objs[o].kind == Event then val == objs[o].val + 1 else objs[o].owner.Some? && val == objs[o].val
    ensures Good(threads[c := threads[c].(state := Sleep, chan := Some(o))], ready, out,
                 objs[o := objs[o].(waiters := objs[o].waiters + [c], val := val)], c, log)
  {
    FallAsleep(threads, objs, o, c, val);
    ChangeOk(threads, ready, out, c, threads[c].(state := Sleep, chan := Some(o)));
  }

  /** A new waiter on `o` brings no inversion but on `o`. */
  lemma PendingOnly(threads: seq<Thread>, objs: seq<Obj>, c: nat, o: nat)
    requires c < |threads| && o < |objs|
    ensures NoInversion(threads, objs) ==>
              LentUpTo(threads[c := threads[c].(state := Sleep, chan := Some(o))],
                       objs[o := objs[o].(waiters := objs[o].waiters + [c])], o, Eff(threads[c]))
  {
    var threads' := threads[c := threads[c].(state := Sleep, chan := Some(o))];
    var objs' := objs[o := objs[o].(waiters := objs[o].waiters + [c])];
    if NoInversion(threads, objs) {
      forall t, x | Waits(threads', objs', t, x)
        ensures Eff(threads'[objs'[x].owner.value]) >= Eff(threads'[t]) || (x == o && Eff(threads'[t]) <= Eff(threads[c]))
      {
        assert t != c ==> Waits(threads, objs, t, x);
      }
    }
  }

  lemma StillOne(threads: seq<Thread>, threads': seq<Thread>, current: nat)
    requires OneRunning(threads, current) && |threads'| == |threads|
    requires forall id :: 0 <= id < |threads| ==> threads'[id].state == threads[id].state
    ensures OneRunning(threads', current)
  {
  }

  /** Threads declared ready. */
  ghost predicate AllReady(threads: seq<Thread>, out: set<nat>) {
    forall id :: id in out ==> id < |threads| && threads[id].state == Ready
  }

  ghost predicate Good(threads: seq<Thread>, ready: seq<seq<nat>>, out: set<nat>, objs: seq<Obj>, current: nat, log: seq<Act>) {
    var ok :=
      && Queued(threads, ready, out) && AllReady(threads, out) && ObjsOk(threads, objs) && Counted(objs)
      && current < |threads| && OneRunning(threads, current) && Tied(objs, log);
    ok
  }

  /** The threads of `q` are ready and sleep on nothing; the others are as they were. */
  ghost predicate AllWoken(threads: seq<Thread>, q: seq<nat>, threads': seq<Thread>) {
    && |threads'| == |threads|
    && forall id :: 0 <= id < |threads| ==>
         threads'[id] == if id in q then threads[id].(state := Ready, chan := None) else threads[id]
  }

  lemma OneMoreWoken(threads: seq<Thread>, q: seq<nat>, i: nat, threads': seq<Thread>)
    requires i < |q| && q[i] < |threads| && AllWoken(threads, q[..i], threads')
    ensures AllWoken(threads, q[..i + 1], threads'[q[i] := threads'[q[i]].(state := Ready, chan := None)])
  {
    assert q[..i + 1] == q[..i] + [q[i]];
  }

  lemma OwnerKind(threads: seq<Thread>, objs: seq<Obj>, o: nat)
    requires ObjsOk(threads, objs) && o < |objs| && objs[o].owner.Some?
    ensures objs[o].kind != Event && objs[o].val == 1 && (objs[o].kind == Plain ==> objs[o].level == 0)
    ensures objs[o].kind == Recursive ==> objs[o].level > 0
  {
    assert ObjOk(threads, objs[o], o);
  }

  lemma CurrentNotWaiting(threads: seq<Thread>, objs: seq<Obj>, c: nat, o: nat)
    requires ObjsOk(threads, objs) && o < |objs| && c < |threads| && threads[c].state == Running
    ensures threads[c].chan == None && c !in objs[o].waiters
    ensures forall i :: 0 <= i < |objs[o].waiters| ==> objs[o].waiters[i] < |threads| && objs[o].waiters[i] != c
  {
    assert ObjOk(threads, objs[o], o);
    assert ThreadOk(threads[c], objs, c);
    forall i | 0 <= i < |objs[o].waiters| ensures objs[o].waiters[i] < |threads| && objs[o].waiters[i] != c {
      assert objs[o].waiters[i] in objs[o].waiters;
    }
  }

  lemma TiedReleased(objs: seq<Obj>, log: seq<Act>, o: nat, c: nat, x: Obj)
    requires Tied(objs, log) && o < |objs| && objs[o].owner == Some(c) && (objs[o].kind == Recursive ==> objs[o].level == 1)
    requires x.owner == None
    ensures Tied(objs[o := x], log + [Release(c, o)])
  {
    forall y: nat | y < |objs| ensures Replay(log + [Release(c, o)], y) == if y == o then Free else Replay(log, y) {
      Logged(log, Release(c, o), y);
    }
  }

  lemma GivenUp(threads: seq<Thread>, objs: seq<Obj>, c: nat, log: seq<Act>, o: nat, threads': seq<Thread>, objs': seq<Obj>)
    requires c < |threads| && OneRunning(threads, c) && Counted(objs) && Tied(objs, log)
    requires o < |objs| && objs[o].owner == Some(c) && objs[o].kind != Event
    requires (objs[o].kind == Recursive ==> objs[o].level == 1)
    requires objs' == objs[o := Obj(objs[o].kind, 0, None, 0, [])] && c !in objs[o].waiters
    requires Released(threads, objs[o].waiters, c, o, threads')
    ensures Counted(objs') && OneRunning(threads', c) && Tied(objs', log + [Release(c, o)])
    ensures NoInversion(threads, objs) ==> NoInversion(threads', objs')
  {
    TiedReleased(objs, log, o, c, objs'[o]);
    if NoInversion(threads, objs) {
      FewerWaits(threads, objs, threads', objs');
    }
  }

  lemma Dropped(threads: seq<Thread>, ready: seq<seq<nat>>, out: set<nat>, objs: seq<Obj>, c: nat, log: seq<Act>)
    requires Good(threads, ready, out, objs, c, log) && threads[c].state == Running && threads[c].owned == []
    ensures var threads' := threads[c := threads[c].(inhpri := 0)];
            Good(threads', ready, out, objs, c, log) && (NoInversion(threads, objs) ==> NoInversion(threads', objs))
  {
    var threads' := threads[c := threads[c].(inhpri := 0)];
    ChangeOk(threads, ready, out, c, threads'[c]);
    SameLinks(threads, objs, threads');
    assert ThreadOk(threads[c], objs, c);
    forall o: nat | o < |objs| ensures objs[o].owner != Some(c) {
      assert o !in threads[c].owned;
    }
    if NoInversion(threads, objs) {
      FewerWaits(threads, objs, threads', objs);
    }
  }

  lemma LevelChanged(threads: seq<Thread>, ready: seq<seq<nat>>, out: set<nat>, objs: seq<Obj>, c: nat, log: seq<Act>, o: nat, a: Act,
                     level: nat)
    requires Good(threads, ready, out, objs, c, log) && o < |objs| && objs[o].kind == Recursive && objs[o].owner == Some(c)
    requires (a == Acquire(c, o) && level == objs[o].level + 1) || (a == Release(c, o) && level > 0 && level == objs[o].level - 1)
    ensures var objs' := objs[o := objs[o].(level := level)];
            Good(threads, ready, out, objs', c, log + [a]) && (NoInversion(threads, objs) ==> NoInversion(threads, objs'))
  {
    var objs' := objs[o := objs[o].(level := level)];
    forall x | 0 <= x < |objs'| ensures ObjOk(threads, objs'[x], x) {
      assert ObjOk(threads, objs[x], x);
    }
    forall id | 0 <= id < |threads| ensures ThreadOk(threads[id], objs', id) {
      assert ThreadOk(threads[id], objs, id);
    }
    forall y: nat | y < |objs| ensures Replay(log + [a], y) == if y == o then Held(c, level) else Replay(log, y) {
      Logged(log, a, y);
    }
    if NoInversion(threads, objs) {
      FewerWaits(threads, objs, threads, objs');
    }
  }

  lemma SleepOnEvent(threads: seq<Thread>, objs: seq<Obj>, c: nat, e: nat)
    requires c < |threads| && e < |objs| && objs[e].kind == Event
    ensures NoInversion(threads, objs) ==>
              NoInversion(threads[c := threads[c].(state := Sleep, chan := Some(e))],
                          objs[e := objs[e].(waiters := objs[e].waiters + [c], val := objs[e].val + 1)])
  {
    if NoInversion(threads, objs) {
      FewerWaits(threads, objs, threads[c := threads[c].(state := Sleep, chan := Some(e))],
                 objs[e := objs[e].(waiters := objs[e].waiters + [c], val := objs[e].val + 1)]);
    }
  }

  lemma EventCleared(threads: seq<Thread>, objs: seq<Obj>, e: nat, c: nat, log: seq<Act>, threads': seq<Thread>,
                     objs': seq<Obj>)
    requires ObjsOk(threads, objs) && c < |threads| && OneRunning(threads, c) && Counted(objs) && Tied(objs, log)
    requires e < |objs| && objs[e].kind == Event && AllWoken(threads, objs[e].waiters, threads')
    requires objs' == objs[e := objs[e].(waiters := [])] && ObjsOk(threads', objs')
    ensures var objs'' := objs'[e := objs'[e].(val := 0)];
            && ObjsOk(threads', objs'') && Counted(objs'') && OneRunning(threads', c) && Tied(objs'', log)
            && (NoInversion(threads, objs) ==> NoInversion(threads', objs''))
    ensures forall id :: 0 <= id < |threads| && threads[id].chan == Some(e) ==> threads'[id].state == Ready
  {
    var objs'' := objs'[e := objs'[e].(val := 0)];
    assert ObjOk(threads, objs[e], e);
    forall x | 0 <= x < |objs''| ensures ObjOk(threads', objs''[x], x) {
      assert ObjOk(threads', objs'[x], x);
    }
    forall id | 0 <= id < |threads'| ensures ThreadOk(threads'[id], objs'', id) {
      assert ThreadOk(threads'[id], objs', id);
    }
    if NoInversion(threads, objs) {
      FewerWaits(threads, objs, threads', objs'');
    }
  }
}
