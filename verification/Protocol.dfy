/** The packet transport as a state machine: any number of sending sockets, one receiving host,
    and a network that may lose, duplicate, delay and reorder everything. */
module Protocol {
  import opened Basics
  import opened Packets
  import opened Assembler
  import opened Transmitter

  datatype Key = Key(src: Source, id: nat)

  datatype Queued = Queued(id: nat, data: seq<byte>, nonblocking: bool)

  /** A sending socket. `started` is the id the transmitter took last. */
  datatype Sender = Sender(nextId: nat, queue: seq<Queued>, tx: Option<Tx>, started: nat)

  /** A window loop that goes on with a packet already taken off its socket, because it left before the
      packet's last window. `next` is the packet that was queued behind it, or 0; `freed` records that
      the packet's memory has been released. */
  datatype Orphan = Orphan(tx: Tx, next: nat, freed: bool)

  /** `frames` and `acks` are everything ever put on the wire: the network may deliver any of it at
      any time, any number of times, or never. `sent` and `delivered` are the histories of packets
      submitted and packets handed over to the destination. `tainted` records that an orphaned loop has
      read memory given to somebody else, or has put a wrong packet at the head of its socket's queue:
      from then on the model says nothing about that socket. */
  datatype Sys = Sys(senders: map<Source, Sender>, orphans: seq<Orphan>, tainted: bool, rcv: Receiver,
                     frames: set<Frame>, acks: set<Ack>, sent: map<Key, seq<byte>>, delivered: seq<Assembly>)

  datatype Step =
    | Submit(src: Source, data: seq<byte>, nonblocking: bool)
    | Take(src: Source)
    | Run(src: Source)
    | Wake(src: Source, timeout: bool)
    | Finish(src: Source)
    | AckArrives(ack: Ack)
    | FrameArrives(frame: Frame, mem: Memory)
    | Expire(slot: nat)
    | OrphanRuns(i: nat)
    | OrphanWakes(i: nat)
    | OrphanFinishes(i: nat)
    | SenderFrees(i: nat)
    | Reuse(i: nat, data: seq<byte>)

  ghost predicate Init(s: Sys) {
    && (forall src :: src in s.senders ==> s.senders[src] == Sender(0, [], None, 0))
    && s.orphans == [] && !s.tainted
    && s.rcv.slots == seq(MAXACTIVE, _ => None) && s.rcv.history == map[]
    && s.frames == {} && s.acks == {} && s.sent == map[] && s.delivered == []
  }

  predicate InTx(s: Sys, src: Source) {
    src in s.senders && s.senders[src].tx.Some?
  }

  predicate Enabled(s: Sys, step: Step) {
    match step
    case Submit(src, data, _) => src in s.senders && data != []
    case Take(src) => src in s.senders && s.senders[src].tx.None? && s.senders[src].queue != []
    case Run(src) =>
      InTx(s, src) && !s.senders[src].tx.value.phase.Asleep? && !s.senders[src].tx.value.phase.Leaving?
    case Wake(src, _) => InTx(s, src) && s.senders[src].tx.value.phase.Asleep?
    case Finish(src) => InTx(s, src) && s.senders[src].tx.value.phase.Leaving?
    case AckArrives(a) => a in s.acks && InTx(s, a.dest)
    case FrameArrives(f, _) => f in s.frames
    case Expire(i) => i < |s.rcv.slots|
    case OrphanRuns(i) => i < |s.orphans| && !s.orphans[i].tx.phase.Asleep? && !s.orphans[i].tx.phase.Leaving?
    case OrphanWakes(i) => i < |s.orphans| && s.orphans[i].tx.phase.Asleep?
    case OrphanFinishes(i) => i < |s.orphans| && s.orphans[i].tx.phase.Leaving?
    case SenderFrees(i) => i < |s.orphans| && !s.orphans[i].tx.nonblocking
    case Reuse(i, data) => i < |s.orphans| && s.orphans[i].freed && |data| == |s.orphans[i].tx.data|
  }

  function SetTx(s: Sys, src: Source, t: Tx): Sys
    requires src in s.senders
  {
    s.(senders := s.senders[src := s.senders[src].(tx := Some(t))])
  }

  /** The frames a step of the transmitter may let out: a buffer can still be linked into the transmit
      queue from an earlier window, so a frame can go out as soon as its buffer is filled. */
  function Emitted(t: Tx): set<Frame> {
    if t.phase.Placing? then {Cut(t, t.phase.size)} else {}
  }

  function HeadId(queue: seq<Queued>): nat {
    if queue == [] then 0 else queue[0].id
  }

  /** The loop after the packet has left its socket: it goes on if bytes are left. */
  function GoesOn(o: Orphan): seq<Orphan> {
    if o.tx.curPos < |o.tx.data| then [o.(tx := o.tx.(frames := [], phase := Opening))] else []
  }

  /** Taking a packet off its socket a second time does no harm if the packet then put at the head of the
      queue is already there and nobody is transmitting it. */
  predicate Harmless(s: Sys, o: Orphan) {
    o.tx.src in s.senders && s.senders[o.tx.src].tx.None? && HeadId(s.senders[o.tx.src].queue) == o.next
  }

  function Next(s: Sys, step: Step): Sys
    requires Enabled(s, step)
  {
    match step
    case Submit(src, data, nonblocking) =>
      var x := s.senders[src];
      var p := Queued(x.nextId + 1, data, nonblocking);
      s.(senders := s.senders[src := x.(nextId := p.id, queue := x.queue + [p])], sent := s.sent[Key(src, p.id) := data])
    case Take(src) =>
      var x := s.senders[src];
      var p := x.queue[0];
      s.(senders := s.senders[src := x.(queue := x.queue[1..], started := p.id,
                                        tx := Some(Initial(src, p.id, p.data, p.nonblocking)))])
    case Run(src) =>
      var t := s.senders[src].tx.value;
      SetTx(s, src, Work(t)).(frames := s.frames + Emitted(t))
    case Wake(src, timeout) =>
      var t := s.senders[src].tx.value;
      SetTx(s, src, AfterSleep(t, t.phase.tries, timeout))
    case Finish(src) =>
      var x := s.senders[src];
      s.(senders := s.senders[src := x.(tx := None)],
         orphans := s.orphans + GoesOn(Orphan(x.tx.value, HeadId(x.queue), x.tx.value.nonblocking)))
    case AckArrives(a) => SetTx(s, a.dest, ProcessAck(s.senders[a.dest].tx.value, a))
    case FrameArrives(f, mem) =>
      var o := Receive(s.rcv, f, mem);
      s.(rcv := o.rcv, acks := s.acks + (set a | a in o.acks),
         delivered := if o.delivered.Some? then s.delivered + [o.delivered.value] else s.delivered)
    case Expire(i) => s.(rcv := s.rcv.(slots := s.rcv.slots[i := None]))
    case OrphanRuns(i) =>
      var o := s.orphans[i];
      s.(orphans := s.orphans[i := o.(tx := Work(o.tx))], frames := s.frames + Emitted(o.tx))
    case OrphanWakes(i) =>
      // No acknowledgement reaches a packet that has left its socket: only the timeout wakes the loop.
      var o := s.orphans[i];
      s.(orphans := s.orphans[i := o.(tx := AfterSleep(o.tx, o.tx.phase.tries, true))])
    case OrphanFinishes(i) =>
      s.(orphans := s.orphans[..i] + GoesOn(s.orphans[i]) + s.orphans[i + 1..],
         tainted := s.tainted || !Harmless(s, s.orphans[i]))
    case SenderFrees(i) => s.(orphans := s.orphans[i := s.orphans[i].(freed := true)])
    case Reuse(i, data) =>
      var o := s.orphans[i];
      s.(orphans := s.orphans[i := o.(tx := o.tx.(data := data))], tainted := true)
  }

  ghost predicate IsRun(states: seq<Sys>, steps: seq<Step>) {
    && |states| == |steps| + 1 && Init(states[0])
    && forall i :: 0 <= i < |steps| ==> Enabled(states[i], steps[i]) && states[i + 1] == Next(states[i], steps[i])
  }

  // ---- The invariant ----

  predicate FrameOk(sent: map<Key, seq<byte>>, f: Frame) {
    && Key(f.src, f.id) in sent
    && var data := sent[Key(f.src, f.id)];
    && |data| == f.length && f.payload != [] && f.offset + |f.payload| <= f.length
    && f.payload == data[f.offset..f.offset + |f.payload|]
  }

  predicate AssemblyOk(sent: map<Key, seq<byte>>, a: Assembly) {
    && Key(a.src, a.id) in sent
    && var data := sent[Key(a.src, a.id)];
    |data| == a.length && a.rcvd <= a.length && Concat(a.frames) == data[..a.rcvd]
  }

  predicate Started(senders: map<Source, Sender>, src: Source, id: nat) {
    src in senders && 0 < id <= senders[src].started
  }

  predicate WasDelivered(delivered: seq<Assembly>, src: Source, id: nat) {
    exists i :: 0 <= i < |delivered| && delivered[i].src == src && delivered[i].id == id
  }

  predicate AckOk(s: Sys, a: Ack) {
    && Key(a.dest, a.id) in s.sent && Started(s.senders, a.dest, a.id)
    && var n := |s.sent[Key(a.dest, a.id)]|;
    && a.offset <= n
    && (a.offset == n ==> WasDelivered(s.delivered, a.dest, a.id) || s.senders[a.dest].started > a.id)
  }

  /** Every position the transmitter holds, in the packet or in hand, lies within the packet. */
  predicate WithinData(t: Tx) {
    && t.curPos <= |t.data|
    && match t.phase
       case Measuring => t.curPos < |t.data|
       case Shortening => t.curPos < |t.data|
       case Placing(size) => 0 < size && t.curPos + size <= |t.data|
       case Advancing(size) => 0 < size && t.curPos + size <= |t.data|
       case _ => true
  }

  predicate TxOk(sent: map<Key, seq<byte>>, src: Source, t: Tx) {
    && t.src == src && Key(src, t.id) in sent && sent[Key(src, t.id)] == t.data && t.data != []
    && WithinData(t) && t.ackData <= |t.data|
  }

  predicate SenderOk(sent: map<Key, seq<byte>>, src: Source, x: Sender) {
    && x.nextId == x.started + |x.queue|
    && (forall i :: 0 <= i < |x.queue| ==>
          && x.queue[i].id == x.started + 1 + i && Key(src, x.queue[i].id) in sent
          && sent[Key(src, x.queue[i].id)] == x.queue[i].data)
    && (x.tx.Some? ==> TxOk(sent, src, x.tx.value) && x.tx.value.id == x.started)
  }

  ghost predicate OrphansOk(s: Sys) {
    forall i :: 0 <= i < |s.orphans| ==>
      TxOk(s.sent, s.orphans[i].tx.src, s.orphans[i].tx) && Started(s.senders, s.orphans[i].tx.src, s.orphans[i].tx.id)
  }

  ghost predicate WireOk(s: Sys) {
    && (forall f :: f in s.frames ==> FrameOk(s.sent, f) && Started(s.senders, f.src, f.id))
    && (forall a :: a in s.acks ==> AckOk(s, a))
  }

  ghost predicate SlotsOk(s: Sys, slots: seq<Option<Assembly>>) {
    forall i :: 0 <= i < |slots| && slots[i].Some? ==>
      && AssemblyOk(s.sent, slots[i].value) && slots[i].value.rcvd < slots[i].value.length
      && Started(s.senders, slots[i].value.src, slots[i].value.id)
  }

  ghost predicate ReceiverOk(s: Sys) {
    && SlotsOk(s, s.rcv.slots)
    && (forall i :: 0 <= i < |s.delivered| ==>
          AssemblyOk(s.sent, s.delivered[i]) && s.delivered[i].rcvd == s.delivered[i].length)
    && (forall src :: src in s.rcv.history ==>
          Started(s.senders, src, s.rcv.history[src]) && WasDelivered(s.delivered, src, s.rcv.history[src]))
  }

  ghost predicate SendersOk(s: Sys) {
    && (forall src :: src in s.senders ==> SenderOk(s.sent, src, s.senders[src]))
    && (forall k :: k in s.sent ==> k.src in s.senders && 0 < k.id <= s.senders[k.src].nextId && s.sent[k] != [])
  }

  ghost predicate Inv(s: Sys) {
    !s.tainted && SendersOk(s) && OrphansOk(s) && WireOk(s) && ReceiverOk(s)
  }

  // ---- Preservation, step kind by step kind ----

  /** What is known stays known when packets are added and transmissions start, and what is on the wire,
      at the receiver and delivered is left alone. */
  lemma MorePackets(s: Sys, s': Sys)
    requires OrphansOk(s) && WireOk(s) && ReceiverOk(s)
    requires forall k :: k in s.sent ==> k in s'.sent && s'.sent[k] == s.sent[k]
    requires forall x :: x in s.senders ==> x in s'.senders && s'.senders[x].started >= s.senders[x].started
    requires s'.rcv == s.rcv && s'.frames == s.frames && s'.acks == s.acks && s'.delivered == s.delivered
    ensures WireOk(s') && ReceiverOk(s') && (s'.orphans == s.orphans ==> OrphansOk(s'))
  {
    assert forall x, id :: Started(s.senders, x, id) ==> Started(s'.senders, x, id);
    assert forall a :: a in s.acks ==> AckOk(s, a) && AckOk(s', a);
  }

  lemma SubmitKeepsInv(s: Sys, src: Source, data: seq<byte>, nonblocking: bool)
    requires Inv(s) && Enabled(s, Submit(src, data, nonblocking))
    ensures Inv(Next(s, Submit(src, data, nonblocking)))
  {
    var s' := Next(s, Submit(src, data, nonblocking));
    assert Key(src, s.senders[src].nextId + 1) !in s.sent;
    MorePackets(s, s');
    forall x | x in s'.senders ensures SenderOk(s'.sent, x, s'.senders[x]) {
      assert SenderOk(s.sent, x, s.senders[x]);
    }
  }

  lemma TakeKeepsInv(s: Sys, src: Source)
    requires Inv(s) && Enabled(s, Take(src))
    ensures Inv(Next(s, Take(src)))
  {
    var s' := Next(s, Take(src));
    assert s.senders[src].queue[0].id == s.senders[src].started + 1;
    MorePackets(s, s');
  }

  /** Changing only a socket's packet in transmission keeps everything known about the rest. */
  lemma SetTxKeepsInv(s: Sys, src: Source, t: Tx)
    requires Inv(s) && InTx(s, src)
    requires TxOk(s.sent, src, t) && t.id == s.senders[src].tx.value.id
    ensures Inv(SetTx(s, src, t))
  {
    MorePackets(s, SetTx(s, src, t));
  }

  lemma MoreFrames(s: Sys, frames: set<Frame>)
    requires Inv(s)
    requires forall f :: f in frames ==> FrameOk(s.sent, f) && Started(s.senders, f.src, f.id)
    ensures Inv(s.(frames := s.frames + frames))
  {
    var s' := s.(frames := s.frames + frames);
    assert forall a :: a in s.acks ==> AckOk(s, a) && AckOk(s', a);
  }

  /** Wherever the current position was reset in between, a step of the transmitter keeps its positions
      within the packet and lets out only frames that say what the packet says. */
  lemma WorkOk(sent: map<Key, seq<byte>>, src: Source, t: Tx)
    requires TxOk(sent, src, t)
    ensures TxOk(sent, src, Work(t)) && Work(t).id == t.id
    ensures forall f :: f in Emitted(t) ==> FrameOk(sent, f) && f.src == src && f.id == t.id
  {
  }

  lemma TransmitterKeepsInv(s: Sys, src: Source)
    requires Inv(s) && Enabled(s, Run(src))
    ensures Inv(Next(s, Run(src)))
  {
    var x := s.senders[src];
    var t := x.tx.value;
    assert SenderOk(s.sent, src, x);
    WorkOk(s.sent, src, t);
    SetTxKeepsInv(s, src, Work(t));
    var s1 := SetTx(s, src, Work(t));
    assert Started(s1.senders, src, t.id) by {
      assert Key(src, t.id) in s.sent;
    }
    MoreFrames(s1, Emitted(t));
  }

  lemma AckKeepsInv(s: Sys, a: Ack)
    requires Inv(s) && Enabled(s, AckArrives(a))
    ensures Inv(Next(s, AckArrives(a)))
  {
    var t := s.senders[a.dest].tx.value;
    assert SenderOk(s.sent, a.dest, s.senders[a.dest]) && AckOk(s, a);
    SetTxKeepsInv(s, a.dest, ProcessAck(t, a));
  }

  lemma FinishKeepsInv(s: Sys, src: Source)
    requires Inv(s) && Enabled(s, Finish(src))
    ensures Inv(Next(s, Finish(src)))
  {
    var s' := Next(s, Finish(src));
    var t := s.senders[src].tx.value;
    assert SenderOk(s.sent, src, s.senders[src]);
    assert Started(s'.senders, src, t.id) by {
      assert Key(src, t.id) in s.sent;
    }
    MorePackets(s, s');
    assert forall x, id :: Started(s.senders, x, id) ==> Started(s'.senders, x, id);
  }

  lemma ExpireKeepsInv(s: Sys, i: nat)
    requires Inv(s) && Enabled(s, Expire(i))
    ensures Inv(Next(s, Expire(i)))
  {
    var s' := Next(s, Expire(i));
    assert forall a :: a in s.acks ==> AckOk(s, a) && AckOk(s', a);
  }

  lemma OrphansChange(s: Sys, orphans: seq<Orphan>)
    requires Inv(s) && OrphansOk(s.(orphans := orphans))
    ensures Inv(s.(orphans := orphans))
  {
    MorePackets(s, s.(orphans := orphans));
  }

  lemma OrphanStepKeepsInv(s: Sys, step: Step)
    requires Inv(s) && Enabled(s, step) && !Next(s, step).tainted
    requires step.OrphanRuns? || step.OrphanWakes? || step.OrphanFinishes? || step.SenderFrees?
    ensures Inv(Next(s, step))
  {
    var o := s.orphans[step.i];
    var orphans := Next(s, step).orphans;
    WorkOk(s.sent, o.tx.src, o.tx);
    OrphansChange(s, orphans);
    if step.OrphanRuns? {
      MoreFrames(s.(orphans := orphans), Emitted(o.tx));
    }
  }

  /** An assembly extended by the frame it expects is again an exact prefix of the packet sent. */
  lemma ExtendOk(sent: map<Key, seq<byte>>, a: Assembly, f: Frame)
    requires AssemblyOk(sent, a) && FrameOk(sent, f) && a.src == f.src && a.id == f.id && a.rcvd == f.offset
    ensures AssemblyOk(sent, Extend(a, f)) && 0 < Extend(a, f).rcvd
  {
    var data := sent[Key(a.src, a.id)];
    ConcatSnoc(a.frames, f.payload);
    assert data[..a.rcvd] + data[a.rcvd..a.rcvd + |f.payload|] == data[..a.rcvd + |f.payload|];
  }

  /** What a frame does to the receiver, in terms of the packets sent. */
  ghost predicate OutcomeOk(s: Sys, f: Frame, mem: Memory, o: Outcome) {
    && SlotsOk(s, o.rcv.slots)
    && (if o.delivered.Some? then
          && AssemblyOk(s.sent, o.delivered.value) && o.delivered.value.rcvd == o.delivered.value.length
          && o.delivered.value.src == f.src && o.delivered.value.id == f.id
          && o.rcv.history == Record(s.rcv.history, f.src, f.id, mem)
        else o.rcv.history == s.rcv.history)
    && (forall a :: a in o.acks ==>
          && a.dest == f.src && a.id == f.id && a.offset <= f.length
          && (a.offset == f.length ==> o.delivered.Some? || LastId(s.rcv.history, f.src) >= f.id))
  }

  lemma AcceptOk(s: Sys, r: Receiver, i: nat, f: Frame, mem: Memory)
    requires FrameOk(s.sent, f) && Started(s.senders, f.src, f.id)
    requires r.history == s.rcv.history && SlotsOk(s, r.slots)
    requires i < |r.slots| && r.slots[i].Some? && r.slots[i].value.src == f.src && r.slots[i].value.id == f.id
    ensures OutcomeOk(s, f, mem, Accept(r, i, f, mem))
  {
    var a := r.slots[i].value;
    if a.rcvd == f.offset {
      ExtendOk(s.sent, a, f);
    }
  }

  lemma ReceiveOk(s: Sys, f: Frame, mem: Memory)
    requires Inv(s) && f in s.frames
    ensures OutcomeOk(s, f, mem, Receive(s.rcv, f, mem))
  {
    var r := s.rcv;
    var ind := FirstFrom(r.slots, x => Matches(x, f), 0);
    if ind < |r.slots| {
      AcceptOk(s, r, ind, f, mem);
    } else if LastId(r.history, f.src) < f.id {
      var free := FirstFrom(r.slots, IsFree, 0);
      if free < |r.slots| {
        AcceptOk(s, r.(slots := r.slots[free := Some(Fresh(f))]), free, f, mem);
      }
    }
  }

  lemma DeliveredStays(d: seq<Assembly>, d': seq<Assembly>)
    requires d <= d'
    ensures forall src, id :: WasDelivered(d, src, id) ==> WasDelivered(d', src, id)
  {
    forall src, id | WasDelivered(d, src, id) ensures WasDelivered(d', src, id) {
      var i :| 0 <= i < |d| && d[i].src == src && d[i].id == id;
      assert d'[i] == d[i];
    }
  }

  lemma FrameKeepsInv(s: Sys, f: Frame, mem: Memory)
    requires Inv(s) && Enabled(s, FrameArrives(f, mem))
    ensures Inv(Next(s, FrameArrives(f, mem)))
  {
    var o := Receive(s.rcv, f, mem);
    ReceiveOk(s, f, mem);
    var s' := Next(s, FrameArrives(f, mem));
    DeliveredStays(s.delivered, s'.delivered);
    assert o.delivered.Some? ==> WasDelivered(s'.delivered, f.src, f.id) by {
      if o.delivered.Some? {
        assert s'.delivered[|s.delivered|] == o.delivered.value;
      }
    }
    forall a | a in s'.acks ensures AckOk(s', a) {
      if a in s.acks {
        assert AckOk(s, a);
      } else {
        assert a in o.acks;
        if a.offset == f.length && !o.delivered.Some? {
          assert f.src in s.rcv.history;
        }
      }
    }
  }

  lemma StepKeepsInv(s: Sys, step: Step)
    requires Inv(s) && Enabled(s, step) && !Next(s, step).tainted
    ensures Inv(Next(s, step))
  {
    match step
    case Submit(src, data, nonblocking) => SubmitKeepsInv(s, src, data, nonblocking);
    case Take(src) => TakeKeepsInv(s, src);
    case Run(src) => TransmitterKeepsInv(s, src);
    case Wake(src, timeout) =>
      var t := s.senders[src].tx.value;
      assert SenderOk(s.sent, src, s.senders[src]);
      SetTxKeepsInv(s, src, AfterSleep(t, t.phase.tries, timeout));
    case Finish(src) => FinishKeepsInv(s, src);
    case AckArrives(a) => AckKeepsInv(s, a);
    case FrameArrives(f, mem) => FrameKeepsInv(s, f, mem);
    case Expire(i) => ExpireKeepsInv(s, i);
    case OrphanRuns(_) => OrphanStepKeepsInv(s, step);
    case OrphanWakes(_) => OrphanStepKeepsInv(s, step);
    case OrphanFinishes(_) => OrphanStepKeepsInv(s, step);
    case SenderFrees(_) => OrphanStepKeepsInv(s, step);
    case Reuse(_, _) =>
  }

  /** In every run that is not tainted, every state satisfies the invariant. */
  lemma {:induction false} RunKeepsInv(states: seq<Sys>, steps: seq<Step>)
    requires IsRun(states, steps) && !states[|steps|].tainted
    ensures Inv(states[|steps|])
    decreases |steps|
  {
    if steps != [] {
      var n := |steps| - 1;
      assert IsRun(states[..n + 1], steps[..n]);
      RunKeepsInv(states[..n + 1], steps[..n]);
      StepKeepsInv(states[n], steps[n]);
    }
  }
}
