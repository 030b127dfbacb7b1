/** Timers started, stopped, ticked and expired in any interleaving. The clock interrupt counts the first timer
    down without the lock of the queue, so it can fall between any two steps of the lock's holder. */
module TimerRuns {
  import opened Basics
  import opened Timers

  /** A timer that ended: when it was to end when it was started, the ticks it missed, its turn among the
      timers queued, and when it ended. */
  datatype Firing = Firing(id: nat, asked: int, missed: nat, turn: nat, at: int)

  /** What the holder of the queue's lock is in the middle of: nothing; putting a timer in front, having found
      that the first one is later; the same, with the first timer's count already reduced by the new one's;
      taking the first timer out, with its count still to be added to the next one's. */
  datatype Hold = Free | Compared(id: nat) | Cut(id: nat) | Unlinked(owed: int)

  /** `popped` is the timer the clock interrupt still takes for the first one while an expiry pass takes timers
      off; `prepared` holds the timers whose count is set and which are not queued yet. In the middle of a
      change the first timer's count in memory is that of `q` without `Off`. The rest only records: when each
      timer is to end, how many ticks did not count for it and when it got the lock, and how many ticks made a
      timer put in front later than the one it was put in front of. */
  datatype Sys = Sys(q: seq<Timer>, hold: Hold, timeout: bool, passing: bool, popped: Option<nat>,
                     prepared: map<nat, int>, now: int, asked: map<nat, int>, missed: map<nat, nat>,
                     turns: map<nat, nat>, turn: nat, slipped: nat, fired: seq<Firing>)

  datatype Step =
    | Tick
    | Start(id: nat, msec: nat)
    | Insert(id: nat)
    | Compare(id: nat)
    | Subtract
    | Store
    | Stop(at: nat)
    | Unlink
    | Join
    | BeginPass
    | Fire
    | EndPass

  predicate Initial(s: Sys) {
    && s.q == [] && s.hold == Free && !s.timeout && !s.passing && s.popped == None && s.prepared == map[]
    && s.missed == map[] && s.slipped == 0 && s.fired == []
  }

  predicate Queued(q: seq<Timer>, id: nat) {
    exists i :: 0 <= i < |q| && q[i].id == id
  }

  predicate Unlocked(s: Sys) {
    s.hold == Free && !s.passing
  }

  /** A timer is about to be put in front of the queue. */
  predicate InFront(s: Sys) {
    (s.hold.Compared? || s.hold.Cut?) && s.hold.id in s.prepared && s.q != []
  }

  /** What the first timer's count in memory lacks. */
  function Off(s: Sys): int {
    match s.hold
    case Cut(id) => if id in s.prepared then s.prepared[id] else 0
    case Unlinked(owed) => owed
    case _ => 0
  }

  /** Behind the first timer, a timer is as good as queued when the first one's count is taken off its own:
      ticks before that do not count for it and ticks after it do, and no tick touches what is read later. */
  predicate Enabled(s: Sys, step: Step) {
    match step
    case Tick => true
    case Start(id, _) => !Queued(s.q, id) && id !in s.prepared
    case Insert(id) => Unlocked(s) && id in s.prepared && (s.q == [] || s.q[0].count <= s.prepared[id])
    case Compare(id) => Unlocked(s) && id in s.prepared && s.q != [] && s.q[0].count > s.prepared[id]
    case Subtract => s.hold.Compared?
    case Store => s.hold.Cut? && InFront(s)
    case Stop(at) => Unlocked(s) && at < |s.q| && (at > 0 || |s.q| == 1)
    case Unlink => Unlocked(s) && |s.q| > 1
    case Join => s.hold.Unlinked?
    case BeginPass => Unlocked(s) && s.timeout
    case Fire =>
      && s.passing && s.q != [] && s.q[0].count <= 0
      && s.q[0].id in s.asked && s.q[0].id in s.missed && s.q[0].id in s.turns
    case EndPass => s.passing && (s.q == [] || s.q[0].count > 0)
  }

  /** A tick does not count for a timer that is not queued yet, nor for a queued timer during an expiry pass
      that has taken a timer off. */
  predicate Misses(s: Sys, id: nat) {
    if s.popped.Some? then !(id == s.popped.value && id in s.prepared) else id in s.prepared
  }

  function Later(s: Sys): map<nat, nat> {
    map id | id in s.missed :: if Misses(s, id) then s.missed[id] + 1 else s.missed[id]
  }

  /** A tick during an insertion in front that makes the new timer later than the one it is put in front of. */
  predicate Slips(s: Sys, step: Step) {
    step == Tick && s.popped == None && InFront(s) && s.q[0].count - s.prepared[s.hold.id] < TICK
  }

  /** The same, or as late as that one. */
  predicate Overtakes(s: Sys, step: Step) {
    step == Tick && s.popped == None && InFront(s) && s.q[0].count - s.prepared[s.hold.id] <= TICK
  }

  function Next(s: Sys, step: Step): Sys
    requires Enabled(s, step)
  {
    match step
    case Tick =>
      var s' := s.(now := s.now + TICK, missed := Later(s), slipped := if Slips(s, Tick) then s.slipped + 1 else s.slipped);
      if s.popped.Some? then
        var x := s.popped.value;
        if x in s.prepared then
          s'.(prepared := s.prepared[x := s.prepared[x] - TICK], timeout := s.timeout || s.prepared[x] - TICK <= 0)
        else s'.(timeout := true)
      else s'.(q := Ticked(s.q), timeout := s.timeout || (s.q != [] && s.q[0].count - Off(s) - TICK <= 0))
    case Start(id, msec) =>
      s.(prepared := s.prepared[id := msec], asked := s.asked[id := s.now + msec], missed := s.missed[id := 0])
    case Insert(id) =>
      s.(q := Inserted(s.q, id, s.prepared[id]), prepared := s.prepared - {id}, turns := s.turns[id := s.turn], turn := s.turn + 1)
    case Compare(id) => s.(hold := Compared(id), turns := s.turns[id := s.turn], turn := s.turn + 1)
    case Subtract => s.(hold := Cut(s.hold.id))
    case Store =>
      var id := s.hold.id;
      s.(q := InsertedAt(s.q, 0, id, s.prepared[id]), hold := Free, prepared := s.prepared - {id})
    case Stop(at) => s.(q := Removed(s.q, at))
    case Unlink => s.(q := Removed(s.q, 0), hold := Unlinked(s.q[0].count))
    case Join => s.(hold := Free)
    case BeginPass => s.(passing := true, timeout := false)
    case Fire =>
      var id := s.q[0].id;
      s.(q := Removed(s.q, 0), popped := if s.popped.Some? then s.popped else Some(id),
         fired := s.fired + [Firing(id, s.asked[id], s.missed[id], s.turns[id], s.now)])
    case EndPass => s.(passing := false, popped := None)
  }

  // ---- The invariant ----

  /** Every deadline is what was asked for, put off by the ticks that did not count. */
  ghost predicate Meets(a: seq<Entry>, asked: map<nat, int>, missed: map<nat, nat>) {
    forall i :: 0 <= i < |a| ==> a[i].id in asked && a[i].id in missed && a[i].deadline == asked[a[i].id] + TICK * missed[a[i].id]
  }

  ghost predicate Unique(a: seq<Entry>, prepared: map<nat, int>) {
    && (forall i, j :: 0 <= i < j < |a| ==> a[i].id != a[j].id)
    && (forall i :: 0 <= i < |a| ==> a[i].id !in prepared)
  }

  ghost predicate Waits(s: Sys) {
    forall id :: id in s.prepared ==>
      id in s.asked && id in s.missed && s.now + s.prepared[id] == s.asked[id] + TICK * s.missed[id]
  }

  ghost predicate QueueOk(s: Sys) {
    var ok := var a := Agenda(s.q, s.now);
              Meets(a, s.asked, s.missed) && Unique(a, s.prepared) && Waits(s);
    ok
  }

  /** The deadlines as they will be queued once the lock's holder is done. */
  ghost function Plan(s: Sys): seq<Entry> {
    if InFront(s) then [Entry(s.hold.id, s.now + s.prepared[s.hold.id])] + Agenda(s.q, s.now) else Agenda(s.q, s.now)
  }

  /** No deadline is more than `d` before one in front of it. */
  ghost predicate Near(a: seq<Entry>, d: nat) {
    forall i, j :: 0 <= i < j < |a| ==> a[i].deadline <= a[j].deadline + d
  }

  /** Every timer has had its turn. */
  ghost predicate Numbered(a: seq<Entry>, turns: map<nat, nat>, turn: nat) {
    forall i :: 0 <= i < |a| ==> a[i].id in turns && turns[a[i].id] < turn
  }

  /** Sorted, and of equal deadlines the one queued first is in front. */
  ghost predicate Ordered(a: seq<Entry>, turns: map<nat, nat>) {
    forall i, j :: 0 <= i < j < |a| ==> Before(a[i], a[j], turns)
  }

  predicate Before(e: Entry, f: Entry, turns: map<nat, nat>) {
    && e.id in turns && f.id in turns
    && (e.deadline < f.deadline || (e.deadline == f.deadline && turns[e.id] < turns[f.id]))
  }

  ghost predicate PlanOk(s: Sys) {
    var ok := Near(Plan(s), TICK * s.slipped) && Numbered(Plan(s), s.turns, s.turn);
    ok
  }

  /** The lock is not held twice, and what the interrupt takes for the first timer during a pass is not queued. */
  ghost predicate Detached(s: Sys) {
    && (s.hold != Free ==> !s.passing)
    && (s.hold.Compared? || s.hold.Cut? ==> InFront(s))
    && (s.popped.Some? ==> s.passing && !Queued(s.q, s.popped.value))
  }

  ghost predicate NoneEarly(s: Sys) {
    forall i :: 0 <= i < |s.fired| ==> s.fired[i].at >= s.fired[i].asked + TICK * s.fired[i].missed
  }

  ghost predicate Inv(s: Sys) {
    QueueOk(s) && PlanOk(s) && Detached(s) && NoneEarly(s)
  }

  // ---- Lists of deadlines ----

  /** A deadline behind all that are not later, and in front of one that is. */
  lemma EnteredNear(a: seq<Entry>, e: Entry, k: nat, b: seq<Entry>, d: nat)
    requires Near(a, d) && k <= |a| && (forall i :: 0 <= i < k ==> a[i].deadline <= e.deadline)
    requires (k < |a| ==> a[k].deadline > e.deadline) && b == EnteredAt(a, e, k)
    ensures Near(b, d)
  {
    forall i, j | 0 <= i < j < |b| ensures b[i].deadline <= b[j].deadline + d {
      assert b[i] == if i < k then a[i] else if i == k then e else a[i - 1];
      assert b[j] == if j < k then a[j] else if j == k then e else a[j - 1];
    }
  }

  lemma EnteredOrdered(a: seq<Entry>, e: Entry, k: nat, b: seq<Entry>, turns: map<nat, nat>, turn: nat)
    requires Ordered(a, turns) && Numbered(a, turns, turn) && k <= |a| && forall i :: 0 <= i < |a| ==> a[i].id != e.id
    requires forall i :: 0 <= i < k ==> a[i].deadline <= e.deadline
    requires (k < |a| ==> a[k].deadline > e.deadline) && b == EnteredAt(a, e, k)
    ensures Ordered(b, turns[e.id := turn])
  {
    var turns' := turns[e.id := turn];
    forall i, j | 0 <= i < j < |b| ensures Before(b[i], b[j], turns') {
      assert b[i] == if i < k then a[i] else if i == k then e else a[i - 1];
      assert b[j] == if j < k then a[j] else if j == k then e else a[j - 1];
    }
  }

  lemma EnteredNumbered(a: seq<Entry>, e: Entry, k: nat, b: seq<Entry>, turns: map<nat, nat>, turn: nat)
    requires Numbered(a, turns, turn) && k <= |a| && b == EnteredAt(a, e, k)
    ensures Numbered(b, turns[e.id := turn], turn + 1)
  {
    assert forall i :: 0 <= i < |b| ==> b[i] == if i < k then a[i] else if i == k then e else a[i - 1];
  }

  lemma EnteredMeets(a: seq<Entry>, e: Entry, k: nat, b: seq<Entry>, asked: map<nat, int>, missed: map<nat, nat>, prepared: map<nat, int>)
    requires Meets(a, asked, missed) && Unique(a, prepared) && k <= |a| && b == EnteredAt(a, e, k)
    requires e.id in prepared && e.id in asked && e.id in missed && e.deadline == asked[e.id] + TICK * missed[e.id]
    ensures Meets(b, asked, missed) && Unique(b, prepared - {e.id})
  {
    assert forall i :: 0 <= i < |b| ==> b[i] == if i < k then a[i] else if i == k then e else a[i - 1];
  }

  lemma Dropped(a: seq<Entry>, at: nat, a': seq<Entry>, d: nat, turns: map<nat, nat>)
    requires at < |a| && a' == a[..at] + a[at + 1..]
    ensures forall i :: 0 <= i < |a'| ==> a'[i] == a[if i < at then i else i + 1]
    ensures (Near(a, d) ==> Near(a', d)) && (Ordered(a, turns) ==> Ordered(a', turns))
  {
    assert forall i :: 0 <= i < |a'| ==> a'[i] == a[if i < at then i else i + 1];
    forall i, j | 0 <= i < j < |a'|
      ensures Near(a, d) ==> a'[i].deadline <= a'[j].deadline + d
      ensures Ordered(a, turns) ==> Before(a'[i], a'[j], turns)
    {
      var x, y := if i < at then i else i + 1, if j < at then j else j + 1;
      assert x < y && a'[i] == a[x] && a'[j] == a[y];
    }
  }

  /** The first deadline put off by a tick, with respect to the others. */
  lemma FirstLater(a: seq<Entry>, e: Entry, e': Entry, d: nat)
    requires a != [] && e' == Entry(e.id, e.deadline + TICK) && Near([e] + a, d)
    ensures Near([e'] + a, d + TICK)
    ensures a[0].deadline >= e'.deadline ==> Near([e'] + a, d)
    ensures Near([e'] + a, 0) ==> a[0].deadline >= e'.deadline
  {
    var b, b' := [e] + a, [e'] + a;
    assert b'[0] == e' && b'[1] == a[0];
    forall i, j | 0 <= i < j < |b'|
      ensures b'[i].deadline <= b'[j].deadline + d + TICK
      ensures a[0].deadline >= e'.deadline ==> b'[i].deadline <= b'[j].deadline + d
    {
      assert b[j] == b'[j] == a[j - 1] && b[1] == a[0];
      assert b[i].deadline <= b[j].deadline + d;
      assert j > 1 ==> b[1].deadline <= b[j].deadline + d;
      assert i > 0 ==> b[i] == b'[i];
    }
  }

  lemma FirstLaterOrdered(a: seq<Entry>, e: Entry, e': Entry, turns: map<nat, nat>)
    requires a != [] && e' == Entry(e.id, e.deadline + TICK) && Ordered([e] + a, turns)
    requires e.id in turns && a[0].id in turns && turns[a[0].id] < turns[e.id]
    ensures Ordered([e'] + a, turns) <==> a[0].deadline > e'.deadline
  {
    var b, b' := [e] + a, [e'] + a;
    assert b'[0] == e' && b'[1] == a[0];
    if Ordered(b', turns) {
      assert Before(b'[0], b'[1], turns);
    }
    if a[0].deadline > e'.deadline {
      forall i, j | 0 <= i < j < |b'| ensures Before(b'[i], b'[j], turns) {
        assert b[j] == b'[j] == a[j - 1] && b[1] == a[0];
        assert Before(b[i], b[j], turns) && (j > 1 ==> Before(b[1], b[j], turns));
        assert i > 0 ==> b[i] == b'[i];
      }
    }
  }

  lemma FirstDeadline(s: Sys, e: Entry)
    requires InFront(s) && e == Entry(s.hold.id, s.now + s.prepared[s.hold.id])
    ensures var a := Agenda(s.q, s.now);
            a[0] == Entry(s.q[0].id, s.now + s.q[0].count) && a[0].deadline - e.deadline == s.q[0].count - s.prepared[s.hold.id]
  {
    FirstDue(s.q);
  }

  // ---- Each kind of step keeps the invariant ----

  lemma LostTickShifts(s: Sys, a: seq<Entry>, a': seq<Entry>)
    requires Inv(s) && s.popped.Some? && a == Agenda(s.q, s.now) && a' == Agenda(s.q, s.now + TICK)
    ensures Plan(s) == a && Plan(Next(s, Tick)) == a' && |a'| == |a|
    ensures forall i :: 0 <= i < |a| ==> a'[i] == Entry(a[i].id, a[i].deadline + TICK) && Misses(s, a[i].id)
  {
    forall i | 0 <= i < |a| ensures a'[i] == Entry(a[i].id, a[i].deadline + TICK) && Misses(s, a[i].id) {
      assert a[i].id == s.q[i].id;
    }
  }

  lemma LostTickKeepsInv(s: Sys)
    requires Inv(s) && s.popped.Some?
    ensures Inv(Next(s, Tick))
  {
    var s' := Next(s, Tick);
    var a, a' := Agenda(s.q, s.now), Agenda(s.q, s'.now);
    LostTickShifts(s, a, a');
    assert Meets(a', s.asked, s'.missed);
    assert Unique(a', s'.prepared);
  }

  /** A tick that counts moves no deadline of the queue; the one about to be put in front is put off. */
  lemma TickedPlan(s: Sys)
    requires s.popped.None?
    ensures var s' := Next(s, Tick);
            && Agenda(s'.q, s'.now) == Agenda(s.q, s.now) && InFront(s') == InFront(s)
            && Plan(s') == if InFront(s) then [Entry(s.hold.id, s.now + s.prepared[s.hold.id] + TICK)] + Agenda(s.q, s.now) else Plan(s)
  {
    TickRefines(s.q, s.now);
  }

  lemma TickKeepsPlan(s: Sys)
    requires PlanOk(s) && s.popped.None?
    ensures PlanOk(Next(s, Tick))
  {
    var s' := Next(s, Tick);
    TickedPlan(s);
    if InFront(s) {
      var a, e := Agenda(s.q, s.now), Entry(s.hold.id, s.now + s.prepared[s.hold.id]);
      var e' := Entry(e.id, e.deadline + TICK);
      FirstDeadline(s, e);
      FirstLater(a, e, e', TICK * s.slipped);
      FirstRenumbered(a, e, e', s.turns, s.turn);
    }
  }

  lemma FirstRenumbered(a: seq<Entry>, e: Entry, e': Entry, turns: map<nat, nat>, turn: nat)
    requires Numbered([e] + a, turns, turn) && e'.id == e.id
    ensures Numbered([e'] + a, turns, turn)
  {
    var b, b' := [e] + a, [e'] + a;
    assert forall i :: 0 <= i < |b'| ==> b'[i].id == b[i].id;
  }

  lemma TickKeepsInv(s: Sys)
    requires Inv(s) && s.popped.None?
    ensures Inv(Next(s, Tick))
  {
    var s' := Next(s, Tick);
    TickRefines(s.q, s.now);
    assert Meets(Agenda(s.q, s.now), s.asked, s'.missed);
    TickKeepsPlan(s);
  }

  /** Where a timer is inserted, in terms of deadlines. */
  lemma InsertedPlan(s: Sys, id: nat, a: seq<Entry>, e: Entry, k: nat, b: seq<Entry>)
    requires Enabled(s, Insert(id)) && a == Agenda(s.q, s.now) && e == Entry(id, s.now + s.prepared[id])
    requires k == Place(s.q, 0, s.prepared[id]) && b == Agenda(Next(s, Insert(id)).q, s.now)
    ensures Plan(s) == a && Plan(Next(s, Insert(id))) == b
    ensures k <= |a| && b == EnteredAt(a, e, k) && (forall i :: 0 <= i < k ==> a[i].deadline <= e.deadline)
    ensures k < |a| ==> a[k].deadline > e.deadline
  {
    InsertMovesNone(s.q, id, s.prepared[id], s.now);
    forall i | 0 <= i < k ensures a[i].deadline <= e.deadline {
      assert Due(s.q, i) <= Sum(s.q, 0) + s.prepared[id];
    }
  }

  lemma InsertKeepsInv(s: Sys, id: nat)
    requires Inv(s) && Enabled(s, Insert(id))
    ensures Inv(Next(s, Insert(id)))
  {
    var s' := Next(s, Insert(id));
    var a, e, k, b := Agenda(s.q, s.now), Entry(id, s.now + s.prepared[id]), Place(s.q, 0, s.prepared[id]), Agenda(s'.q, s.now);
    InsertedPlan(s, id, a, e, k, b);
    EnteredMeets(a, e, k, b, s.asked, s.missed, s.prepared);
    EnteredNear(a, e, k, b, TICK * s.slipped);
    EnteredNumbered(a, e, k, b, s.turns, s.turn);
  }

  lemma InsertKeepsOrder(s: Sys, id: nat)
    requires Inv(s) && Enabled(s, Insert(id)) && Ordered(Plan(s), s.turns)
    ensures Ordered(Plan(Next(s, Insert(id))), Next(s, Insert(id)).turns)
  {
    var s' := Next(s, Insert(id));
    var a, e, k, b := Agenda(s.q, s.now), Entry(id, s.now + s.prepared[id]), Place(s.q, 0, s.prepared[id]), Agenda(s'.q, s.now);
    InsertedPlan(s, id, a, e, k, b);
    EnteredOrdered(a, e, k, b, s.turns, s.turn);
  }

  lemma ComparedPlan(s: Sys, id: nat, a: seq<Entry>, e: Entry, b: seq<Entry>)
    requires Enabled(s, Compare(id)) && a == Agenda(s.q, s.now) && e == Entry(id, s.now + s.prepared[id]) && b == [e] + a
    ensures Plan(s) == a && Plan(Next(s, Compare(id))) == b == EnteredAt(a, e, 0) && a[0].deadline > e.deadline
  {
    FirstDue(s.q);
    assert EnteredAt(a, e, 0) == [e] + a;
  }

  lemma CompareKeepsInv(s: Sys, id: nat)
    requires Inv(s) && Enabled(s, Compare(id))
    ensures Inv(Next(s, Compare(id)))
  {
    var a, e := Agenda(s.q, s.now), Entry(id, s.now + s.prepared[id]);
    var b := [e] + a;
    ComparedPlan(s, id, a, e, b);
    EnteredNear(a, e, 0, b, TICK * s.slipped);
    EnteredNumbered(a, e, 0, b, s.turns, s.turn);
  }

  lemma CompareKeepsOrder(s: Sys, id: nat)
    requires Inv(s) && Enabled(s, Compare(id)) && Ordered(Plan(s), s.turns)
    ensures Ordered(Plan(Next(s, Compare(id))), Next(s, Compare(id)).turns)
  {
    var a, e := Agenda(s.q, s.now), Entry(id, s.now + s.prepared[id]);
    var b := [e] + a;
    ComparedPlan(s, id, a, e, b);
    EnteredOrdered(a, e, 0, b, s.turns, s.turn);
  }

  lemma StoreKeepsInv(s: Sys)
    requires Inv(s) && Enabled(s, Store)
    ensures Inv(Next(s, Store)) && Plan(Next(s, Store)) == Plan(s)
  {
    var id, s' := s.hold.id, Next(s, Store);
    var a, e, b := Agenda(s.q, s.now), Entry(id, s.now + s.prepared[id]), Agenda(s'.q, s.now);
    InsertedDeadlines(s.q, 0, id, s.prepared[id], s.now);
    assert EnteredAt(a, e, 0) == [e] + a;
    assert Plan(s) == b == Plan(s');
    EnteredMeets(a, e, 0, b, s.asked, s.missed, s.prepared);
  }

  lemma RemoveKeepsQueue(s: Sys, at: nat)
    requires QueueOk(s) && PlanOk(s) && !InFront(s) && at < |s.q|
    ensures QueueOk(s.(q := Removed(s.q, at)))
    ensures var a, a' := Agenda(s.q, s.now), Agenda(Removed(s.q, at), s.now);
            && a' == a[..at] + a[at + 1..] && Near(a', TICK * s.slipped) && Numbered(a', s.turns, s.turn)
            && (Ordered(a, s.turns) ==> Ordered(a', s.turns))
    ensures forall id :: Queued(Removed(s.q, at), id) ==> Queued(s.q, id) && id != s.q[at].id
  {
    var a, a' := Agenda(s.q, s.now), Agenda(Removed(s.q, at), s.now);
    RemoveRefines(s.q, at, s.now);
    Dropped(a, at, a', TICK * s.slipped, s.turns);
    forall id | Queued(Removed(s.q, at), id) ensures Queued(s.q, id) && id != s.q[at].id {
      var r := Removed(s.q, at);
      var i :| 0 <= i < |r| && r[i].id == id;
      assert a'[i].id == id && a[at].id == s.q[at].id;
      var j := if i < at then i else i + 1;
      assert a[j].id == id && s.q[j].id == id;
    }
  }

  lemma StopKeepsInv(s: Sys, step: Step)
    requires Inv(s) && Enabled(s, step) && (step.Stop? || step.Unlink? || step.Join?)
    ensures Inv(Next(s, step))
    ensures Ordered(Plan(s), s.turns) ==> Ordered(Plan(Next(s, step)), s.turns)
  {
    if !step.Join? {
      RemoveKeepsQueue(s, if step.Stop? then step.at else 0);
    }
  }

  lemma StartKeepsInv(s: Sys, id: nat, msec: nat)
    requires Inv(s) && Enabled(s, Start(id, msec))
    ensures Inv(Next(s, Start(id, msec))) && Plan(Next(s, Start(id, msec))) == Plan(s)
  {
    var a := Agenda(s.q, s.now);
    forall i | 0 <= i < |a| ensures a[i].id != id {
      assert a[i].id == s.q[i].id;
    }
  }

  lemma FireKeepsInv(s: Sys)
    requires Inv(s) && Enabled(s, Fire)
    ensures Inv(Next(s, Fire))
    ensures Ordered(Plan(s), s.turns) ==> Ordered(Plan(Next(s, Fire)), s.turns)
  {
    RemoveKeepsQueue(s, 0);
    FirstDue(s.q);
    assert Agenda(s.q, s.now)[0].deadline == s.now + s.q[0].count;
  }

  lemma StepKeepsInv(s: Sys, step: Step)
    requires Inv(s) && Enabled(s, step)
    ensures Inv(Next(s, step))
  {
    match step
    case Tick => if s.popped.Some? { LostTickKeepsInv(s); } else { TickKeepsInv(s); }
    case Start(id, msec) => StartKeepsInv(s, id, msec);
    case Insert(id) => InsertKeepsInv(s, id);
    case Compare(id) => CompareKeepsInv(s, id);
    case Subtract =>
    case Store => StoreKeepsInv(s);
    case Stop(_) => StopKeepsInv(s, step);
    case Unlink => StopKeepsInv(s, step);
    case Join => StopKeepsInv(s, step);
    case BeginPass =>
    case Fire => FireKeepsInv(s);
    case EndPass =>
  }

  // ---- What keeps the order ----

  lemma PutOff(s: Sys, a: seq<Entry>, e: Entry, e': Entry)
    requires s.popped.None? && InFront(s) && a == Agenda(s.q, s.now)
    requires e == Entry(s.hold.id, s.now + s.prepared[s.hold.id]) && e' == Entry(e.id, e.deadline + TICK)
    ensures a != [] && Plan(s) == [e] + a && Plan(Next(s, Tick)) == [e'] + a
    ensures a[0].id == s.q[0].id && a[0].deadline - e.deadline == s.q[0].count - s.prepared[s.hold.id]
  {
    TickedPlan(s);
    FirstDeadline(s, e);
  }

  lemma CountedTickKeepsSortedIff(s: Sys)
    requires s.popped.None? && InFront(s) && Near(Plan(s), 0)
    ensures Near(Plan(Next(s, Tick)), 0) <==> !Slips(s, Tick)
  {
    var a, e := Agenda(s.q, s.now), Entry(s.hold.id, s.now + s.prepared[s.hold.id]);
    var e' := Entry(e.id, e.deadline + TICK);
    PutOff(s, a, e, e');
    FirstLater(a, e, e', 0);
  }

  lemma TickKeepsSortedIff(s: Sys)
    requires Inv(s) && Near(Plan(s), 0)
    ensures Near(Plan(Next(s, Tick)), 0) <==> !Slips(s, Tick)
  {
    if s.popped.Some? {
      LostTickShifts(s, Agenda(s.q, s.now), Agenda(s.q, s.now + TICK));
    } else if InFront(s) {
      CountedTickKeepsSortedIff(s);
    } else {
      TickedPlan(s);
    }
  }

  /** The record of slipped ticks bears on nothing else. */
  lemma Forgotten(s: Sys, step: Step)
    requires Inv(s) && Enabled(s, step) && step != Tick && Near(Plan(s), 0)
    ensures Near(Plan(Next(s, step)), 0)
  {
    var t := s.(slipped := 0);
    Without(s);
    StepKeepsInv(t, step);
    assert Next(t, step) == Next(s, step).(slipped := 0);
    Without(Next(s, step));
  }

  lemma Without(s: Sys)
    ensures Plan(s.(slipped := 0)) == Plan(s)
    ensures Inv(s) && Near(Plan(s), 0) ==> Inv(s.(slipped := 0))
  {
  }

  /** Of all steps just the slipping ticks put deadlines out of order. */
  lemma StepKeepsSortedIff(s: Sys, step: Step)
    requires Inv(s) && Enabled(s, step) && Near(Plan(s), 0)
    ensures Near(Plan(Next(s, step)), 0) <==> !Slips(s, step)
  {
    if step == Tick {
      TickKeepsSortedIff(s);
    } else {
      Forgotten(s, step);
    }
  }

  lemma CountedTickKeepsOrderIff(s: Sys)
    requires s.popped.None? && InFront(s) && Ordered(Plan(s), s.turns) && Latest(s)
    ensures Ordered(Plan(Next(s, Tick)), s.turns) <==> !Overtakes(s, Tick)
  {
    var a, e := Agenda(s.q, s.now), Entry(s.hold.id, s.now + s.prepared[s.hold.id]);
    var e' := Entry(e.id, e.deadline + TICK);
    PutOff(s, a, e, e');
    FirstLaterOrdered(a, e, e', s.turns);
  }

  lemma TickKeepsOrderIff(s: Sys)
    requires Inv(s) && Ordered(Plan(s), s.turns) && Latest(s)
    ensures Ordered(Plan(Next(s, Tick)), s.turns) <==> !Overtakes(s, Tick)
    ensures Latest(Next(s, Tick))
  {
    if s.popped.Some? {
      LostTickShifts(s, Agenda(s.q, s.now), Agenda(s.q, s.now + TICK));
    } else if InFront(s) {
      CountedTickKeepsOrderIff(s);
    } else {
      TickedPlan(s);
    }
  }

  lemma OthersKeepOrder(s: Sys, step: Step)
    requires Inv(s) && Enabled(s, step) && Ordered(Plan(s), s.turns) && Latest(s) && step != Tick
    ensures Ordered(Plan(Next(s, step)), Next(s, step).turns)
  {
    match step
    case Insert(id) => InsertKeepsOrder(s, id);
    case Compare(id) => CompareKeepsOrder(s, id);
    case Stop(_) => StopKeepsInv(s, step);
    case Unlink => StopKeepsInv(s, step);
    case Join => StopKeepsInv(s, step);
    case Fire => FireKeepsInv(s);
    case _ => SamePlan(s, step);
  }

  lemma OthersKeepLatest(s: Sys, step: Step)
    requires Inv(s) && Enabled(s, step) && Latest(s) && step != Tick
    ensures Latest(Next(s, step))
  {
    if step.Compare? {
      FirstNumbered(s);
    } else if step.Start? || step.Subtract? || step.Store? || step.BeginPass? || step.EndPass? {
      SamePlan(s, step);
    }
  }

  /** Of all steps just the overtaking ticks put deadlines, or timers of equal deadlines, out of order. */
  lemma StepKeepsOrderIff(s: Sys, step: Step)
    requires Inv(s) && Enabled(s, step) && Ordered(Plan(s), s.turns) && Latest(s)
    ensures Ordered(Plan(Next(s, step)), Next(s, step).turns) <==> !Overtakes(s, step)
    ensures Latest(Next(s, step))
  {
    if step == Tick {
      TickKeepsOrderIff(s);
    } else {
      OthersKeepOrder(s, step);
      OthersKeepLatest(s, step);
    }
  }

  /** The other steps leave the deadlines as they are, and where they are. */
  lemma SamePlan(s: Sys, step: Step)
    requires Inv(s) && Enabled(s, step)
    requires step.Start? || step.Subtract? || step.Store? || step.BeginPass? || step.EndPass?
    ensures Plan(Next(s, step)) == Plan(s) && Next(s, step).turns == s.turns && (Latest(s) ==> Latest(Next(s, step)))
  {
    match step
    case Start(id, msec) => StartKeepsInv(s, id, msec);
    case Store => StoreKeepsInv(s);
    case _ =>
  }

  lemma FirstNumbered(s: Sys)
    requires Inv(s) && s.hold == Free && s.q != []
    ensures s.q[0].id in s.turns && s.turns[s.q[0].id] < s.turn && s.q[0].id !in s.prepared
  {
    assert Agenda(s.q, s.now)[0].id == s.q[0].id;
  }

  /** The timer about to be put in front had its turn after the first one. */
  ghost predicate Latest(s: Sys) {
    InFront(s) ==> s.hold.id in s.turns && s.q[0].id in s.turns && s.turns[s.q[0].id] < s.turns[s.hold.id]
  }

  // ---- Whole runs ----

  predicate IsRun(run: seq<Sys>, steps: seq<Step>) {
    && |run| == |steps| + 1 && Initial(run[0])
    && forall i :: 0 <= i < |steps| ==> Enabled(run[i], steps[i]) && run[i + 1] == Next(run[i], steps[i])
  }

  lemma {:induction false} RunKeepsInv(run: seq<Sys>, steps: seq<Step>, k: nat)
    requires IsRun(run, steps) && k < |run|
    ensures Inv(run[k])
  {
    if k > 0 {
      RunKeepsInv(run, steps, k - 1);
      StepKeepsInv(run[k - 1], steps[k - 1]);
    }
  }

  /** In no run does a timer end before the time it was started for. */
  lemma NeverEarly(run: seq<Sys>, steps: seq<Step>, k: nat, i: nat)
    requires IsRun(run, steps) && k < |run| && i < |run[k].fired|
    ensures run[k].fired[i].at >= run[k].fired[i].asked
  {
    RunKeepsInv(run, steps, k);
  }

  /** In every run the queue holds exactly the deadlines asked for, each put off by the ticks that did not
      count for it, and earliest first up to the ticks that slipped. */
  lemma QueueIsExact(run: seq<Sys>, steps: seq<Step>, k: nat, i: nat)
    requires IsRun(run, steps) && k < |run| && i < |run[k].q|
    ensures var s, id := run[k], run[k].q[i].id;
            && id in s.asked && id in s.missed && s.now + Due(s.q, i) == s.asked[id] + TICK * s.missed[id]
            && (forall j :: i <= j < |s.q| ==> Due(s.q, i) <= Due(s.q, j) + TICK * s.slipped)
  {
    RunKeepsInv(run, steps, k);
    var s := run[k];
    var a := Agenda(s.q, s.now);
    assert a[i].id == s.q[i].id && a[i].deadline == s.now + Due(s.q, i);
    forall j | i <= j < |s.q| ensures Due(s.q, i) <= Due(s.q, j) + TICK * s.slipped {
      var x := if InFront(s) then 1 else 0;
      assert Plan(s)[i + x] == a[i] && Plan(s)[j + x] == a[j];
    }
  }

  /** In every run without overtaking ticks timers are queued earliest first, and of equal deadlines first the
      one that came first. */
  lemma {:induction false} RunKeepsOrder(run: seq<Sys>, steps: seq<Step>, k: nat)
    requires IsRun(run, steps) && k < |run| && forall i :: 0 <= i < k ==> !Overtakes(run[i], steps[i])
    ensures Ordered(Plan(run[k]), run[k].turns) && Latest(run[k])
  {
    if k > 0 {
      RunKeepsInv(run, steps, k - 1);
      RunKeepsOrder(run, steps, k - 1);
      StepKeepsOrderIff(run[k - 1], steps[k - 1]);
    }
  }

  /** After a tick that found the first timer's count whole, a timer that is due, and was so for as many ticks as
      ever slipped, has an expiry pass to come or is reached by the one under way. */
  lemma DueIsNoticed(run: seq<Sys>, steps: seq<Step>, k: nat, i: nat)
    requires IsRun(run, steps) && k < |steps| && steps[k] == Tick && (run[k].hold.Free? || run[k].hold.Compared?)
    requires i < |run[k + 1].q| && Due(run[k + 1].q, i) + TICK * run[k + 1].slipped <= 0
    ensures run[k + 1].timeout || Enabled(run[k + 1], Fire)
  {
    RunKeepsInv(run, steps, k);
    RunKeepsInv(run, steps, k + 1);
    QueueIsExact(run, steps, k + 1, 0);
    var s := run[k + 1];
    FirstDue(s.q);
    assert s.q[0].count <= 0;
    assert s == Next(run[k], Tick);
    assert Agenda(s.q, s.now)[0].id == s.q[0].id;
    assert s.popped.Some? ==> Plan(s)[0].id == s.q[0].id;
  }

  // ---- Expiry passes ----

  /** The ticks from step `i` up to step `k` that counted for the queue. */
  function Counted(run: seq<Sys>, steps: seq<Step>, i: nat, k: nat): nat
    requires i <= k <= |steps| < |run|
  {
    if k == i then 0
    else Counted(run, steps, i, k - 1) + if steps[k - 1] == Tick && run[k - 1].popped.None? then 1 else 0
  }

  /** The `m`th timer of the queue was the one behind the first `n` when the pass began, and `c` ticks nearer. */
  ghost predicate Remains(s0: Sys, s: Sys, n: nat, c: nat, m: nat) {
    var ok := m < |s.q| && n + m < |s0.q| && s.q[m].id == s0.q[n + m].id && Due(s.q, m) == Due(s0.q, n + m) - TICK * c;
    ok
  }

  /** The `m`th timer the pass ended was the `m`th of the queue when it began, and due after `c` ticks. */
  ghost predicate Ended(s0: Sys, fired: seq<Firing>, c: nat, m: nat) {
    var ok :=
      && m < |s0.q| && |s0.fired| + m < |fired| && Due(s0.q, m) <= TICK * c
      && var f := fired[|s0.fired| + m]; f.id == s0.q[m].id && f.id in s0.turns && f.turn == s0.turns[f.id];
    ok
  }

  /** Since a pass began with the queue of `s0`, it has ended the first `n` timers, each due by then, and `c` ticks
      counted for the others. */
  ghost predicate Passed(s0: Sys, s: Sys, n: nat, c: nat) {
    var ok :=
      && s.passing && s.hold == Free && s.turns == s0.turns && n + |s.q| == |s0.q| && (s.popped.Some? <==> n > 0)
      && |s.fired| == |s0.fired| + n
      && (forall m: nat :: m < |s.q| ==> Remains(s0, s, n, c, m)) && (forall m: nat :: m < n ==> Ended(s0, s.fired, c, m));
    ok
  }

  lemma TickInPass(s0: Sys, s: Sys, n: nat, c: nat)
    requires Passed(s0, s, n, c) && s.popped.None?
    ensures Passed(s0, Next(s, Tick), n, c + 1)
  {
    var s', c' := Next(s, Tick), c + 1;
    forall m: nat | m < |s.q| ensures Remains(s0, s', n, c', m) {
      assert Remains(s0, s, n, c, m);
      TickedSums(s.q, m);
    }
  }

  lemma PassStep(s0: Sys, s: Sys, n: nat, c: nat, step: Step)
    requires Passed(s0, s, n, c) && Enabled(s, step) && step != EndPass
    ensures Passed(s0, Next(s, step), if step == Fire then n + 1 else n, if step == Tick && s.popped.None? then c + 1 else c)
  {
    if step == Tick && s.popped.None? {
      TickInPass(s0, s, n, c);
    } else if step == Fire {
      FireInPass(s0, s, n, c);
    } else {
      var s' := Next(s, step);
      assert s'.q == s.q && s'.fired == s.fired;
      forall m: nat | m < |s.q| ensures Remains(s0, s', n, c, m) {
        assert Remains(s0, s, n, c, m);
      }
    }
  }

  lemma FireInPass(s0: Sys, s: Sys, n: nat, c: nat)
    requires Passed(s0, s, n, c) && Enabled(s, Fire)
    ensures Passed(s0, Next(s, Fire), n + 1, c)
  {
    var s', n' := Next(s, Fire), n + 1;
    FirstDue(s.q);
    assert Remains(s0, s, n, c, 0);
    forall m: nat | m < |s'.q| ensures Remains(s0, s', n', c, m) {
      assert Remains(s0, s, n, c, m + 1);
      RemovedSums(s.q, 0, m + 1);
      RemovedNth(s.q, 0, m);
    }
    var fired := s'.fired;
    forall m: nat | m < n + 1 ensures Ended(s0, fired, c, m) {
      if m < n {
        assert Ended(s0, s.fired, c, m);
      }
    }
  }

  lemma {:induction false} PassSoFar(run: seq<Sys>, steps: seq<Step>, i: nat, k: nat) returns (n: nat)
    requires IsRun(run, steps) && i < k <= |steps| && steps[i] == BeginPass && forall m :: i < m < k ==> steps[m] != EndPass
    ensures Passed(run[i + 1], run[k], n, Counted(run, steps, i + 1, k))
    decreases k
  {
    if k == i + 1 {
      RunKeepsInv(run, steps, i);
      n := 0;
    } else {
      n := PassSoFar(run, steps, i, k - 1);
      PassStep(run[i + 1], run[k - 1], n, Counted(run, steps, i + 1, k - 1), steps[k - 1]);
      n := if steps[k - 1] == Fire then n + 1 else n;
    }
  }

  /** An expiry pass ends timers from the front of the queue on, each when it is due, and goes on while the first one
      is: if the queue was sorted when it began, exactly the timers that were due, or became so by the ticks that
      still counted for the queue. */
  lemma PassEndsTheDue(run: seq<Sys>, steps: seq<Step>, i: nat, j: nat) returns (n: nat, c: nat)
    requires IsRun(run, steps) && i < j < |steps| && steps[i] == BeginPass && steps[j] == EndPass
    requires forall m :: i < m < j ==> steps[m] != EndPass
    ensures c == Counted(run, steps, i + 1, j)
    ensures var s0, s1 := run[i + 1], run[j + 1];
            && n <= |s0.q| && |s1.fired| == |s0.fired| + n
            && (forall m: nat :: m < n ==> Ended(s0, s1.fired, c, m))
            && (Near(Agenda(s0.q, s0.now), 0) ==> forall m: nat :: n <= m < |s0.q| ==> Due(s0.q, m) > TICK * c)
  {
    n := PassSoFar(run, steps, i, j);
    c := Counted(run, steps, i + 1, j);
    var s0, s := run[i + 1], run[j];
    if Near(Agenda(s0.q, s0.now), 0) {
      forall m: nat | n <= m < |s0.q| ensures Due(s0.q, m) > TICK * c {
        FirstDue(s.q);
        assert Remains(s0, s, n, c, 0);
        var a := Agenda(s0.q, s0.now);
        assert m > n ==> a[n].deadline <= a[m].deadline;
      }
    }
  }

  /** In every run without overtaking ticks a pass ends timers in the order of their deadlines, and of equal ones
      first the one that came first. */
  lemma PassEndsInOrder(run: seq<Sys>, steps: seq<Step>, i: nat, j: nat, n: nat, x: nat, y: nat)
    requires IsRun(run, steps) && i < j < |steps| && steps[i] == BeginPass && steps[j] == EndPass
    requires forall m :: i < m < j ==> steps[m] != EndPass
    requires forall m :: 0 <= m <= i ==> !Overtakes(run[m], steps[m])
    requires |run[j + 1].fired| == |run[i + 1].fired| + n && x < y < n
    ensures var s0 := run[i + 1];
            var f, g := run[j + 1].fired[|s0.fired| + x], run[j + 1].fired[|s0.fired| + y];
            && y < |s0.q| && f.id == s0.q[x].id && g.id == s0.q[y].id
            && (Due(s0.q, x) < Due(s0.q, y) || (Due(s0.q, x) == Due(s0.q, y) && f.turn < g.turn))
  {
    var n', c := PassEndsTheDue(run, steps, i, j);
    var s0 := run[i + 1];
    assert Ended(s0, run[j + 1].fired, c, x) && Ended(s0, run[j + 1].fired, c, y);
    PassBeginsInOrder(run, steps, i);
    TwoOfQueue(s0, x, y);
  }

  lemma PassBeginsInOrder(run: seq<Sys>, steps: seq<Step>, i: nat)
    requires IsRun(run, steps) && i < |steps| && steps[i] == BeginPass && forall m :: 0 <= m <= i ==> !Overtakes(run[m], steps[m])
    ensures run[i + 1].hold == Free && Ordered(Plan(run[i + 1]), run[i + 1].turns)
  {
    RunKeepsOrder(run, steps, i + 1);
  }

  lemma TwoOfQueue(s: Sys, x: nat, y: nat)
    requires s.hold == Free && Ordered(Plan(s), s.turns) && x < y < |s.q|
    ensures var i, j := s.q[x].id, s.q[y].id;
            && i in s.turns && j in s.turns
            && (Due(s.q, x) < Due(s.q, y) || (Due(s.q, x) == Due(s.q, y) && s.turns[i] < s.turns[j]))
  {
    var a := Plan(s);
    assert a[x].id == s.q[x].id && a[y].id == s.q[y].id && Before(a[x], a[y], s.turns);
  }

  // ---- Runs in which a timer is late ----

  ghost predicate Reachable(s: Sys) {
    exists run, steps :: IsRun(run, steps) && run[|steps|] == s
  }

  lemma ReachStep(s: Sys, step: Step) returns (s': Sys)
    requires Reachable(s) && Enabled(s, step)
    ensures Reachable(s') && s' == Next(s, step)
  {
    var run, steps :| IsRun(run, steps) && run[|steps|] == s;
    s' := Next(s, step);
    assert IsRun(run + [s'], steps + [step]);
  }

  lemma Begun() returns (s: Sys)
    ensures Reachable(s) && s == Sys([], Free, false, false, None, map[], 0, map[], map[], map[], 0, 0, [])
  {
    s := Sys([], Free, false, false, None, map[], 0, map[], map[], map[], 0, 0, []);
    assert IsRun([s], []);
  }

  lemma OneQueued(msec: nat) returns (s: Sys)
    ensures Reachable(s) && s.q == [Timer(0, msec)] && Unlocked(s) && s.popped == None && !s.timeout && s.prepared == map[] && s.now == 0
    ensures s.asked == map[0 := msec] && s.missed == map[0 := 0] && s.turns == map[0 := 0] && s.turn == 1 && s.slipped == 0
  {
    s := Begun();
    s := ReachStep(s, Start(0, msec));
    s := ReachStep(s, Insert(0));
  }

  /** No pass is under way, and the first timer's time has come, but the queue has it a tick later. */
  predicate Delayed(s: Sys) {
    Unlocked(s) && s.q != [] && s.q[0].id in s.asked && s.asked[s.q[0].id] == s.now && Due(s.q, 0) == TICK
  }

  lemma TwoQueued() returns (s: Sys)
    ensures Reachable(s) && s.q == [Timer(0, 20), Timer(1, 20)] && Unlocked(s) && s.popped == None && s.prepared == map[] && s.now == 0
    ensures s.asked == map[0 := 20, 1 := 40] && s.missed == map[0 := 0, 1 := 0] && s.turns == map[0 := 0, 1 := 1]
  {
    s := OneQueued(20);
    s := ReachStep(s, Start(1, 40));
    assert Place(s.q, 1, 20) == 1 && Sum(s.q, 1) == 20;
    assert Place(s.q, 0, 40) == 1;
    s := ReachStep(s, Insert(1));
  }

  lemma FirstEnded() returns (s: Sys)
    ensures Reachable(s) && s.q == [Timer(1, 20)] && s.passing && s.hold == Free && s.popped == Some(0) && s.prepared == map[] && s.now == 20
    ensures s.asked == map[0 := 20, 1 := 40] && 0 in s.missed && 1 in s.missed
  {
    s := TwoQueued();
    s := ReachStep(s, Tick);
    assert s.q == [Timer(0, 0), Timer(1, 20)] && s.timeout;
    s := ReachStep(s, BeginPass);
    s := ReachStep(s, Fire);
  }

  /** Two timers; the tick that makes the second one due comes while the pass that ended the first is under way. */
  lemma LostTickDelays()
    ensures exists s :: Reachable(s) && Delayed(s)
  {
    var s := FirstEnded();
    s := ReachStep(s, Tick);
    s := ReachStep(s, EndPass);
    FirstDue(s.q);
    assert Delayed(s);
  }

  /** The lock is free and no pass is asked for, but a timer that missed no tick is overdue behind one that is not
      due yet. */
  predicate Hidden(s: Sys) {
    && Unlocked(s) && !s.timeout && |s.q| == 2 && Due(s.q, 0) > 0
    && s.q[1].id in s.asked && s.q[1].id in s.missed && s.missed[s.q[1].id] == 0 && s.asked[s.q[1].id] < s.now
  }

  lemma SlippedTick() returns (s: Sys)
    ensures Reachable(s) && s.q == [Timer(0, 15)] && s.hold == Compared(1) && !s.passing && s.popped == None && !s.timeout && s.now == 20
    ensures s.prepared == map[1 := 30] && 0 in s.asked && s.asked[0] == 35 && 0 in s.missed && s.missed[0] == 0
  {
    s := OneQueued(35);
    s := ReachStep(s, Start(1, 30));
    s := ReachStep(s, Compare(1));
    s := ReachStep(s, Tick);
  }

  lemma SlippedInFront() returns (s: Sys)
    ensures Reachable(s) && s.q == [Timer(1, 30), Timer(0, -15)] && Unlocked(s) && s.popped == None && !s.timeout && s.now == 20
    ensures s.prepared == map[] && 0 in s.asked && s.asked[0] == 35 && 0 in s.missed && s.missed[0] == 0
  {
    s := SlippedTick();
    s := ReachStep(s, Subtract);
    s := ReachStep(s, Store);
  }

  /** A tick falls between finding that the first timer, due in 35 milliseconds, is later than one of 30, and putting
      the latter in front. */
  lemma SlippedTickHidesADueTimer()
    ensures exists s :: Reachable(s) && Hidden(s) && !Near(Agenda(s.q, s.now), 0)
  {
    var s := SlippedInFront();
    s := ReachStep(s, Tick);
    assert s.q == [Timer(1, 10), Timer(0, -15)];
    FirstDue(s.q);
    var a := Agenda(s.q, s.now);
    assert Due(s.q, 1) == Due(s.q, 0) - 15;
    assert a[0].deadline > a[1].deadline;
    assert Hidden(s);
  }
}
