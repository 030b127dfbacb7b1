/** What gets the transport on: where each acknowledgement leads the sleeping transmitter, how a lost one is
    made up for, and that a network which loses nothing lets every packet through. */
module TransportProgress {
  import opened Basics
  import opened Packets
  import opened Assembler
  import opened Transmitter
  import opened Protocol
  import opened TransportSafety
  import opened TransportWindows
  import opened TransportRuns

  // ---- What an acknowledgement leads to ----

  /** The acknowledgement of the packet in transmission is not out of date. */
  predicate Counts(t: Tx, a: Ack) {
    t.id == a.id && (t.ackData <= a.offset || a.offset == 0)
  }

  /** The sleeping transmitter handles an acknowledgement, is woken by it, and takes its next step. */
  function Answered(t: Tx, a: Ack): Tx
    requires t.phase.Asleep?
  {
    Work(AfterSleep(ProcessAck(t, a), t.phase.tries, false))
  }

  /** All bytes acknowledged: it leaves. All bytes of the window: it opens the next one. */
  lemma WindowAcknowledged(t: Tx, a: Ack)
    requires t.phase.Asleep? && Counts(t, a) && a.offset == t.curPos != 0
    ensures a.offset == |t.data| ==> Answered(t, a) == t.(ackData := a.offset, status := TxComplete, phase := Leaving)
    ensures a.offset < |t.data| ==> Answered(t, a) == t.(ackData := a.offset, status := NextWindow, frames := [], phase := Opening)
  {
  }

  /** Some bytes of the window: it queues the frames from the one named on again, if this was the first try, and gives
      the packet up otherwise. */
  lemma PartAcknowledged(t: Tx, a: Ack)
    requires t.phase.Asleep? && Counts(t, a) && t.winPos < a.offset < t.curPos && a.seqno < |t.frames|
    ensures var t' := t.(ackData := a.offset, startFrame := a.seqno, status := RestartTx);
            if t.phase.tries == 0 then Answered(t, a) == t'.(phase := Asleep(1)) && Launched(t') == t.frames[a.seqno..]
            else Answered(t, a) == t'.(status := TxComplete, timedOut := true, phase := WindowDone)
  {
    var t' := ProcessAck(t, a).(phase := Launching(t.phase.tries + 1));
    assert Launched(t')[0] == t.frames[a.seqno];
  }

  /** None: it starts over, twice at most, and gives the packet up at the third request. */
  lemma RestartRequested(t: Tx, a: Ack)
    requires t.phase.Asleep? && t.id == a.id && a.offset == 0 && t.data != []
    ensures t.retries < 3 ==> Answered(t, a) == t.(retries := t.retries + 1, winPos := 0, curPos := 0, ackData := 0, status := NextWindow,
                                                   frames := [], phase := Opening)
    ensures t.retries >= 3 ==> Answered(t, a) == t.(retries := t.retries + 1, status := TxComplete, timedOut := true, phase := Leaving)
  {
  }

  /** The acknowledgement is handled and wakes the transmitter. */
  lemma WokenFrom(o: Sys, s: Sys, a: Ack)
    requires From(o, s) && Enabled(s, AckArrives(a)) && s.senders[a.dest].tx.value.phase.Asleep?
    ensures var t := s.senders[a.dest].tx.value;
            From(o, With(s, a.dest, AfterSleep(ProcessAck(t, a), t.phase.tries, false), s.frames))
  {
    var src, t := a.dest, s.senders[a.dest].tx.value;
    var t1 := ProcessAck(t, a);
    FromStep(o, s, AckArrives(a));
    var s1 := With(s, src, t1, s.frames);
    assert s1 == Next(s, AckArrives(a));
    FromStep(o, s1, Wake(src, false));
    WithAgain(s, src, t1, s.frames, AfterSleep(t1, t.phase.tries, false), s.frames);
  }

  lemma AnsweredFrom(o: Sys, s: Sys, a: Ack)
    requires From(o, s) && Enabled(s, AckArrives(a)) && s.senders[a.dest].tx.value.phase.Asleep?
    ensures var t := Answered(s.senders[a.dest].tx.value, a); From(o, With(s, a.dest, t, s.frames))
  {
    var src, t := a.dest, s.senders[a.dest].tx.value;
    var t2 := AfterSleep(ProcessAck(t, a), t.phase.tries, false);
    WokenFrom(o, s, a);
    RunsOnce(o, With(s, src, t2, s.frames), src, t2);
    assert s.frames + Emitted(t2) == s.frames;
    WithAgain(s, src, t2, s.frames, Work(t2), s.frames);
  }

  /** In every run that is not tainted, an acknowledgement of the whole packet that finds its transmitter asleep behind the
      last window ends the transmission: the packet is taken off its socket, without being reported as timed out if it
      was not so before, and no loop goes on with it. */
  lemma CompletingAckEnds(states: seq<Sys>, steps: seq<Step>, a: Ack) returns (s': Sys)
    requires IsRun(states, steps) && !states[|steps|].tainted && Enabled(states[|steps|], AckArrives(a))
    requires var t := states[|steps|].senders[a.dest].tx.value;
             t.phase.Asleep? && t.id == a.id && a.offset == |t.data| == t.curPos
    ensures var s := states[|steps|];
            var t := s.senders[a.dest].tx.value;
            && From(s, s') && s' == With(s, a.dest, t.(ackData := |t.data|, status := TxComplete, phase := Leaving), s.frames)
            && Enabled(s', Finish(a.dest)) && Next(s', Finish(a.dest)).senders[a.dest].tx == None
            && Next(s', Finish(a.dest)).orphans == s.orphans
  {
    RunKeepsInv(states, steps);
    var s := states[|steps|];
    var t := s.senders[a.dest].tx.value;
    assert SenderOk(s.sent, a.dest, s.senders[a.dest]);
    s' := WholeAcknowledged(s, s, a);
  }

  lemma WholeAcknowledged(o: Sys, s: Sys, a: Ack) returns (s': Sys)
    requires (o == s || From(o, s)) && Enabled(s, AckArrives(a))
    requires var t := s.senders[a.dest].tx.value;
             t.phase.Asleep? && t.id == a.id && a.offset == |t.data| == t.curPos && t.ackData <= |t.data| && t.data != []
    ensures var t := s.senders[a.dest].tx.value;
            && From(o, s') && s' == With(s, a.dest, t.(ackData := |t.data|, status := TxComplete, phase := Leaving), s.frames)
            && Enabled(s', Finish(a.dest)) && Next(s', Finish(a.dest)).senders[a.dest].tx == None
            && Next(s', Finish(a.dest)).orphans == s.orphans
  {
    if o == s {
      FromSelf(s);
    }
    var t := s.senders[a.dest].tx.value;
    WindowAcknowledged(t, a);
    AnsweredFrom(o, s, a);
    s' := With(s, a.dest, Answered(t, a), s.frames);
  }

  // ---- Repeated packets ----

  /** A frame of a packet that is not newer than what its source has completed changes nothing at the receiver and is
      answered with an acknowledgement of all its bytes. */
  lemma DuplicateIsAnswered(r: Receiver, f: Frame, mem: Memory)
    requires Ordered(r) && f.id <= LastId(r.history, f.src)
    ensures Receive(r, f, mem) == Outcome(r, [Ack(f.src, f.id, f.length, FrameCount(f.length) % WINDOW)], None)
  {
  }

  /** Over runs: for every frame on the wire of such a packet, these are the bytes its source sent, and nothing is
      delivered again. */
  lemma RepeatedPacketIsAcknowledged(states: seq<Sys>, steps: seq<Step>, f: Frame, mem: Memory)
    requires IsRun(states, steps) && !states[|steps|].tainted && f in states[|steps|].frames
    requires Ordered(states[|steps|].rcv) && f.id <= LastId(states[|steps|].rcv.history, f.src)
    ensures var s := states[|steps|];
            var s' := Next(s, FrameArrives(f, mem));
            && Key(f.src, f.id) in s.sent
            && var a := Ack(f.src, f.id, |s.sent[Key(f.src, f.id)]|, FrameCount(f.length) % WINDOW);
               s' == s.(acks := s.acks + {a})
  {
    RunKeepsInv(states, steps);
    var s := states[|steps|];
    assert FrameOk(s.sent, f);
    DuplicateIsAnswered(s.rcv, f, mem);
  }

  /** In every run in which packets are completed in order, a lost acknowledgement of a whole packet is made up for: any
      of its frames, arriving again, lets the transmitter that sleeps behind its last window end, and the packet is not
      delivered a second time. */
  lemma LostAckIsRepaired(states: seq<Sys>, steps: seq<Step>, f: Frame, mem: Memory) returns (s': Sys)
    requires IsRun(states, steps) && !states[|steps|].tainted && f in states[|steps|].frames && InTx(states[|steps|], f.src)
    requires forall i :: 0 <= i < |steps| ==> CompletesInOrder(states[i], steps[i])
    requires WasDelivered(states[|steps|].delivered, f.src, f.id)
    requires var t := states[|steps|].senders[f.src].tx.value; t.id == f.id && t.phase.Asleep? && t.curPos == |t.data|
    ensures var s := states[|steps|];
            var t := s.senders[f.src].tx.value;
            && From(s, s') && s'.delivered == s.delivered && s'.rcv == s.rcv && s'.orphans == s.orphans
            && s'.senders == s.senders[f.src := s.senders[f.src].(tx := Some(t.(ackData := |t.data|, status := TxComplete, phase := Leaving)))]
  {
    RunKeepsInv(states, steps);
    DeliveredIdsIncrease(states, steps);
    var s := states[|steps|];
    var t := s.senders[f.src].tx.value;
    assert SenderOk(s.sent, f.src, s.senders[f.src]);
    var i :| 0 <= i < |s.delivered| && s.delivered[i].src == f.src && s.delivered[i].id == f.id;
    assert s.delivered[i].id <= LastId(s.rcv.history, s.delivered[i].src);
    RepeatedPacketIsAcknowledged(states, steps, f, mem);
    FromSelf(s);
    FromStep(s, s, FrameArrives(f, mem));
    var s1 := Next(s, FrameArrives(f, mem));
    s' := WholeAcknowledged(s, s1, Ack(f.src, f.id, |t.data|, FrameCount(f.length) % WINDOW));
  }

  // ---- Retransmission ----

  /** The buffers of the packet in transmission hold frames of it that are on the wire. */
  ghost predicate Buffered(t: Tx, frames: set<Frame>) {
    forall i :: 0 <= i < |t.frames| ==> t.frames[i] in frames && t.frames[i].src == t.src && t.frames[i].id == t.id
  }

  ghost predicate BuffersOut(s: Sys) {
    forall src :: src in s.senders && s.senders[src].tx.Some? ==> Buffered(s.senders[src].tx.value, s.frames)
  }

  lemma TxKeepsBuffers(s: Sys, src: Source, t: Tx, frames: set<Frame>)
    requires BuffersOut(s) && src in s.senders && s.frames <= frames && Buffered(t, frames)
    ensures BuffersOut(With(s, src, t, frames))
  {
    var s' := With(s, src, t, frames);
    forall x | x in s'.senders && s'.senders[x].tx.Some? ensures Buffered(s'.senders[x].tx.value, frames) {
      if x != src {
        assert Buffered(s.senders[x].tx.value, s.frames);
      }
    }
  }

  lemma WorkKeepsBuffers(t: Tx, frames: set<Frame>)
    requires Buffered(t, frames)
    ensures Buffered(Work(t), frames + Emitted(t))
  {
    var t' := Work(t);
    assert t'.src == t.src && t'.id == t.id;
    if t.phase.Placing? {
      assert t'.frames == t.frames + [Cut(t, t.phase.size)] && Emitted(t) == {Cut(t, t.phase.size)};
    } else {
      assert t'.frames == t.frames || t'.frames == [];
    }
  }

  lemma TransmitterKeepsBuffers(s: Sys, step: Step)
    requires BuffersOut(s) && Enabled(s, step) && (step.Run? || step.Wake? || step.AckArrives?)
    ensures BuffersOut(Next(s, step))
  {
    var src := if step.AckArrives? then step.ack.dest else step.src;
    var t := s.senders[src].tx.value;
    assert Buffered(t, s.frames);
    match step
    case Run(_) =>
      WorkKeepsBuffers(t, s.frames);
      TxKeepsBuffers(s, src, Work(t), s.frames + Emitted(t));
    case Wake(_, timeout) => TxKeepsBuffers(s, src, AfterSleep(t, t.phase.tries, timeout), s.frames);
    case AckArrives(a) => TxKeepsBuffers(s, src, ProcessAck(t, a), s.frames);
  }

  lemma StepKeepsBuffers(s: Sys, step: Step)
    requires BuffersOut(s) && Enabled(s, step)
    ensures BuffersOut(Next(s, step))
  {
    if step.Run? || step.Wake? || step.AckArrives? {
      TransmitterKeepsBuffers(s, step);
    } else {
      var s' := Next(s, step);
      forall src | src in s'.senders && s'.senders[src].tx.Some? ensures Buffered(s'.senders[src].tx.value, s'.frames) {
        if s.senders[src].tx.Some? {
          assert Buffered(s.senders[src].tx.value, s.frames);
        }
      }
    }
  }

  lemma {:induction false} RunKeepsBuffers(states: seq<Sys>, steps: seq<Step>)
    requires IsRun(states, steps)
    ensures BuffersOut(states[|steps|])
    decreases |steps|
  {
    if steps != [] {
      var n := |steps| - 1;
      assert IsRun(states[..n + 1], steps[..n]);
      RunKeepsBuffers(states[..n + 1], steps[..n]);
      StepKeepsBuffers(states[n], steps[n]);
    }
  }

  lemma SliceOn(data: seq<byte>, a: nat, b: nat, c: nat)
    requires a <= b <= c <= |data|
    ensures data[a..b] + data[b..c] == data[a..c]
  {
  }

  /** Consecutive regular frames of a packet carry its bytes. */
  lemma {:induction false} ConsecutiveCarry(sent: map<Key, seq<byte>>, t: Tx, fs: seq<Frame>, pos: nat)
    requires forall i :: 0 <= i < |fs| ==> FrameOk(sent, fs[i]) && RegularFrame(fs[i]) && fs[i].src == t.src && fs[i].id == t.id
    requires Key(t.src, t.id) in sent && sent[Key(t.src, t.id)] == t.data
    requires forall i :: 0 <= i < |fs| ==> fs[i].offset == pos + i * FRSIZE
    requires pos <= |t.data|
    ensures Concat(Payloads(fs)) == t.data[pos..Min(pos + |fs| * FRSIZE, |t.data|)]
    decreases |fs|
  {
    if fs != [] {
      var n := |fs| - 1;
      ConsecutiveCarry(sent, t, fs[..n], pos);
      var at := pos + n * FRSIZE;
      assert FrameOk(sent, fs[n]) && fs[n].offset == at;
      assert Payloads(fs) == Payloads(fs[..n]) + [fs[n].payload];
      ConcatSnoc(Payloads(fs[..n]), fs[n].payload);
      SliceOn(t.data, pos, at, at + |fs[n].payload|);
    }
  }

  lemma RetryCarries(sent: map<Key, seq<byte>>, frames: set<Frame>, t: Tx, a: Ack)
    requires Aligned(t) && t.phase.Asleep? && t.curPos <= |t.data| && Partial(t, a) && NamesItsFrame(t, a)
    requires Key(t.src, t.id) in sent && sent[Key(t.src, t.id)] == t.data && Buffered(t, frames)
    requires forall f :: f in frames ==> FrameOk(sent, f) && RegularFrame(f)
    ensures a.seqno < |t.frames| && Concat(Payloads(t.frames[a.seqno..])) == t.data[a.offset..t.curPos]
    ensures forall i :: a.seqno <= i < |t.frames| ==> t.frames[i] in frames
  {
    var k := a.seqno;
    assert InStep(t) && ProcessAck(t, a).startFrame == k;
    var fs := t.frames[k..];
    assert t.frames[k].offset == t.winPos + k * FRSIZE;
    forall i | 0 <= i < |fs| ensures FrameOk(sent, fs[i]) && RegularFrame(fs[i]) && fs[i].src == t.src && fs[i].id == t.id && fs[i].offset == a.offset + i * FRSIZE {
      assert fs[i] == t.frames[k + i];
    }
    ConsecutiveCarry(sent, t, fs, a.offset);
    assert a.offset + |fs| * FRSIZE == t.winPos + |t.frames| * FRSIZE;
  }

  /** In every run without a misaligning restart, a partial acknowledgement that finds the transmitter asleep after its
      first try makes it queue again exactly the bytes from the acknowledged offset to its current position; after the
      second try it makes it give the packet up. */
  lemma RetryQueuesTheRest(states: seq<Sys>, steps: seq<Step>, a: Ack)
    requires IsRun(states, steps) && !states[|steps|].tainted && Enabled(states[|steps|], AckArrives(a))
    requires forall i :: 0 <= i < |steps| ==> !Misaligns(states[i], steps[i])
    requires var t := states[|steps|].senders[a.dest].tx.value; t.phase.Asleep? && Partial(t, a)
    ensures var s := states[|steps|];
            var t := s.senders[a.dest].tx.value;
            var t' := t.(ackData := a.offset, startFrame := a.seqno, status := RestartTx);
            && t.curPos <= |t.data| && Concat(Payloads(Launched(t'))) == t.data[a.offset..t.curPos] && SetOf(Launched(t')) <= s.frames
            && From(s, With(s, a.dest, if t.phase.tries == 0 then t'.(phase := Asleep(1))
                                       else t'.(status := TxComplete, timedOut := true, phase := WindowDone), s.frames))
  {
    RunKeepsInv(states, steps);
    RunKeepsAligned(states, steps);
    RunKeepsBuffers(states, steps);
    PartialAckNamesItsFrame(states, steps, a);
    var s := states[|steps|];
    var t := s.senders[a.dest].tx.value;
    assert SenderOk(s.sent, a.dest, s.senders[a.dest]) && Aligned(t) && Buffered(t, s.frames);
    RetryCarries(s.sent, s.frames, t, a);
    PartAcknowledged(t, a);
    FromSelf(s);
    AnsweredFrom(s, s, a);
  }

  // ---- A network that loses nothing ----

  /** The receiver has the first `n` full frames of the packet in slot `i`, or nothing of it and `i` as its first free slot. */
  ghost predicate Expects(r: Receiver, src: Source, id: nat, data: seq<byte>, n: nat, i: nat) {
    && i < |r.slots| && NotBefore(r.slots, src, id, i) && n * FRSIZE <= |data|
    && if n > 0 then r.slots[i] == Some(Held(src, id, data, n))
       else r.slots[i] == None && (forall j :: 0 <= j < i ==> r.slots[j].Some?) && NotBefore(r.slots, src, id, |r.slots|)
            && LastId(r.history, src) < id
  }

  lemma FirstHeld(o: Sys, s: Sys, src: Source, id: nat, data: seq<byte>, i: nat) returns (s': Sys)
    requires From(o, s) && Expects(s.rcv, src, id, data, 0, i) && FRSIZE < |data| && Nth(src, id, data, 0, 0) in s.frames
    ensures From(o, s') && s' == s.(rcv := s.rcv.(slots := s.rcv.slots[i := Some(Held(src, id, data, 1))]))
  {
    var f := Nth(src, id, data, 0, 0);
    FirstArrival(s.rcv, f, i);
    assert Fresh(f) == Held(src, id, data, 0);
    HeldExtends(src, id, data, 0, 0);
    var r := Receive(s.rcv, f, PLENTY);
    Arrives(o, s, f, r);
    s' := Arrived(s, r);
    assert s.acks + (set a | a in r.acks) == s.acks;
  }

  /** The full frames of a window up to the `m`th of the packet arrive in order. */
  lemma ArrivesUpTo(o: Sys, s: Sys, src: Source, id: nat, data: seq<byte>, i: nat, n: nat, m: nat) returns (s': Sys)
    requires From(o, s) && n % WINDOW == 0 && n <= m <= n + WINDOW && m * FRSIZE < |data| && Expects(s.rcv, src, id, data, n, i)
    requires forall j :: n <= j < m ==> Nth(src, id, data, n, j) in s.frames
    ensures From(o, s') && s' == s.(rcv := s'.rcv, acks := s'.acks) && s.acks <= s'.acks
    ensures Expects(s'.rcv, src, id, data, m, i)
    ensures s'.rcv == if m == 0 then s.rcv else s.rcv.(slots := s.rcv.slots[i := Some(Held(src, id, data, m))])
    ensures m == n + WINDOW ==> Ack(src, id, m * FRSIZE, 0) in s'.acks
  {
    if m == 0 {
      s' := s;
    } else if n == 0 {
      var s1 := FirstHeld(o, s, src, id, data, i);
      s' := ArriveInOrder(o, s1, src, id, data, i, 0, 1, m);
      assert s1.rcv.slots[i := Some(Held(src, id, data, m))] == s.rcv.slots[i := Some(Held(src, id, data, m))];
    } else {
      s' := ArriveInOrder(o, s, src, id, data, i, n, n, m);
    }
  }

  /** All frames but the last, and the last. */
  function Completed(src: Source, id: nat, data: seq<byte>, base: nat, n: nat): Assembly
    requires base <= n && n * FRSIZE <= |data|
  {
    Extend(Held(src, id, data, n), Nth(src, id, data, base, n))
  }

  lemma CompletedBytes(src: Source, id: nat, data: seq<byte>, base: nat, n: nat)
    requires base <= n && n * FRSIZE <= |data| <= (n + 1) * FRSIZE
    ensures var a := Completed(src, id, data, base, n); a.src == src && a.id == id && a.rcvd == |data| && Concat(a.frames) == data
  {
    var held, f := Held(src, id, data, n), Nth(src, id, data, base, n);
    HeldBytes(src, id, data, n);
    ConcatSnoc(held.frames, f.payload);
    assert data[..n * FRSIZE] + f.payload == data;
  }

  lemma LastHeld(r: Receiver, src: Source, id: nat, data: seq<byte>, i: nat, base: nat, n: nat)
    requires Expects(r, src, id, data, n, i) && base <= n && n * FRSIZE < |data| <= (n + 1) * FRSIZE
    ensures var a := Completed(src, id, data, base, n);
            Receive(r, Nth(src, id, data, base, n), PLENTY) ==
            Outcome(Receiver(r.slots[i := None], r.history[src := id]), [Ack(src, id, |data|, a.expSeq)], Some(a))
  {
    var f := Nth(src, id, data, base, n);
    CompletedBytes(src, id, data, base, n);
    if n > 0 {
      LastArrival(r, i, f);
    } else {
      assert FirstFrom(r.slots, IsFree, 0) == i;
      assert Fresh(f) == Held(src, id, data, 0);
      assert r.slots[i := Some(Fresh(f))][i := None] == r.slots[i := None];
    }
  }

  /** Between two windows: `n` frames have been sent and have arrived, and bytes are left. */
  ghost predicate AtWindow(s: Sys, src: Source, id: nat, data: seq<byte>, n: nat, i: nat) {
    && InTx(s, src) && n % WINDOW == 0 && n * FRSIZE < |data| && Expects(s.rcv, src, id, data, n, i)
    && var t := s.senders[src].tx.value;
       && t.phase == WindowDone && t.src == src && t.id == id && t.data == data && t.curPos == n * FRSIZE
       && t.status != TxComplete && !t.timedOut && t.ackData <= t.curPos
  }

  /** A window is sent. */
  lemma WindowOut(o: Sys, s: Sys, src: Source, id: nat, data: seq<byte>, n: nat, i: nat) returns (s': Sys, w: Tx)
    requires From(o, s) && AtWindow(s, src, id, data, n, i)
    ensures From(o, s') && s' == With(s, src, w, s'.frames) && s.frames <= s'.frames
    ensures w.phase == Asleep(0) && w.src == src && w.id == id && w.data == data && !w.timedOut && w.ackData <= n * FRSIZE
    ensures w.curPos == Min((n + WINDOW) * FRSIZE, |data|)
    ensures forall j :: n <= j < n + WINDOW && j * FRSIZE < |data| ==> Nth(src, id, data, n, j) in s'.frames
  {
    var t := s.senders[src].tx.value;
    var u := OpenWindow(t);
    var v := FillWindow(u);
    TransmitsWindow(o, s, src, v);
    w := Sealed(v);
    s' := With(s, src, w, s.frames + SetOf(v.frames));
    FilledWindow(u);
    FilledRest(u);
    forall j | n <= j < n + WINDOW && j * FRSIZE < |data| ensures Nth(src, id, data, n, j) in s'.frames {
      WindowHolds(u, v, n, j);
    }
  }

  lemma WindowHolds(u: Tx, v: Tx, n: nat, j: nat)
    requires u.frames == [] && u.curPos == n * FRSIZE && v == FillWindow(u) && n <= j < n + WINDOW && j * FRSIZE < |u.data|
    ensures Nth(u.src, u.id, u.data, n, j) in SetOf(v.frames)
  {
    FilledCount(u);
    FrameReached(|u.data| - n * FRSIZE, j - n);
    FilledFrame(u, v, j - n, j * FRSIZE);
  }

  lemma FrameReached(left: nat, k: nat)
    requires k * FRSIZE < left
    ensures k < FrameCount(left)
  {
  }

  /** A window that is not the last: its frames arrive, and so does the acknowledgement. */
  lemma FullWindowPasses(o: Sys, s: Sys, src: Source, id: nat, data: seq<byte>, n: nat, i: nat) returns (s': Sys)
    requires From(o, s) && AtWindow(s, src, id, data, n, i) && (n + WINDOW) * FRSIZE < |data|
    ensures From(o, s') && AtWindow(s', src, id, data, n + WINDOW, i) && Only(s, s', src, i)
    ensures s'.delivered == s.delivered && s'.rcv.history == s.rcv.history
  {
    var m := n + WINDOW;
    var s1, w := WindowOut(o, s, src, id, data, n, i);
    var s2 := ArrivesUpTo(o, s1, src, id, data, i, n, m);
    var a := Ack(src, id, m * FRSIZE, 0);
    WindowEnds(w, a);
    WokenFrom(o, s2, a);
    s' := With(s2, src, w.(ackData := a.offset, status := NextWindow, phase := WindowDone), s2.frames);
    NextMultiple(n);
  }

  lemma NextMultiple(n: nat)
    requires n % WINDOW == 0
    ensures (n + WINDOW) % WINDOW == 0
  {
  }

  lemma WindowEnds(w: Tx, a: Ack)
    requires w.phase == Asleep(0) && w.id == a.id && w.ackData <= a.offset == w.curPos && 0 < a.offset < |w.data|
    ensures AfterSleep(ProcessAck(w, a), 0, false) == w.(ackData := a.offset, status := NextWindow, phase := WindowDone)
  {
  }

  /** Nothing but the socket's packet in transmission, the slot, the wire and what was delivered has changed. */
  ghost predicate Only(s: Sys, s': Sys, src: Source, i: nat) {
    && src in s.senders && i < |s.rcv.slots| == |s'.rcv.slots|
    && s' == s.(senders := s.senders[src := s.senders[src].(tx := if src in s'.senders then s'.senders[src].tx else None)],
                rcv := s'.rcv, frames := s'.frames, acks := s'.acks, delivered := s'.delivered)
    && s'.rcv.slots == s.rcv.slots[i := s'.rcv.slots[i]]
  }

  /** The last step took the packet off its socket, and it had not timed out. */
  predicate TookOff(s: Sys, src: Source, id: nat, s': Sys) {
    && Enabled(s, Finish(src)) && s' == Next(s, Finish(src))
    && s.senders[src].tx.value.id == id && !s.senders[src].tx.value.timedOut
  }

  /** The last window: its frames arrive, the packet is delivered, and the transmission ends. */
  lemma LastWindowPasses(o: Sys, s: Sys, src: Source, id: nat, data: seq<byte>, n: nat, i: nat) returns (s4: Sys, s': Sys)
    requires From(o, s) && AtWindow(s, src, id, data, n, i) && |data| <= (n + WINDOW) * FRSIZE
    ensures TookOff(s4, src, id, s') && From(o, s') && Only(s, s', src, i) && s'.senders[src].tx == None && s'.rcv.slots[i] == None
    ensures s'.rcv.history == s.rcv.history[src := id] && |s'.delivered| == |s.delivered| + 1 && s.delivered <= s'.delivered
    ensures var a := s'.delivered[|s.delivered|]; a.src == src && a.id == id && Concat(a.frames) == data
  {
    var l := LastIndex(|data|, n);
    var s1, w := WindowOut(o, s, src, id, data, n, i);
    var s3, a := LastFramesArrive(o, s1, src, id, data, n, i, l);
    CompletedBytes(src, id, data, n, l);
    s4 := WholeAcknowledged(o, s3, a);
    FromStep(o, s4, Finish(src));
    s' := Next(s4, Finish(src));
  }

  lemma LastFramesArrive(o: Sys, s: Sys, src: Source, id: nat, data: seq<byte>, n: nat, i: nat, l: nat) returns (s': Sys, a: Ack)
    requires From(o, s) && Expects(s.rcv, src, id, data, n, i) && n % WINDOW == 0 && n <= l < n + WINDOW
    requires l * FRSIZE < |data| <= (l + 1) * FRSIZE
    requires forall j :: n <= j < n + WINDOW && j * FRSIZE < |data| ==> Nth(src, id, data, n, j) in s.frames
    ensures From(o, s') && a in s'.acks && a.dest == src && a.id == id && a.offset == |data|
    ensures s' == s.(rcv := Receiver(s.rcv.slots[i := None], s.rcv.history[src := id]), acks := s'.acks,
                     delivered := s.delivered + [Completed(src, id, data, n, l)])
  {
    var s2 := ArrivesUpTo(o, s, src, id, data, i, n, l);
    var f := Nth(src, id, data, n, l);
    LastHeld(s2.rcv, src, id, data, i, n, l);
    var r := Receive(s2.rcv, f, PLENTY);
    Arrives(o, s2, f, r);
    s' := Arrived(s2, r);
    a := r.acks[0];
    assert s2.rcv.slots[i := None] == s.rcv.slots[i := None];
  }

  lemma LastIndex(length: nat, n: nat) returns (l: nat)
    requires n * FRSIZE < length <= (n + WINDOW) * FRSIZE
    ensures n <= l < n + WINDOW && l * FRSIZE < length <= (l + 1) * FRSIZE
  {
    l := (length - 1) / FRSIZE;
  }

  lemma {:induction false} WindowsPass(o: Sys, s: Sys, src: Source, id: nat, data: seq<byte>, n: nat, i: nat) returns (s4: Sys, s': Sys)
    requires From(o, s) && AtWindow(s, src, id, data, n, i)
    ensures TookOff(s4, src, id, s') && From(o, s') && Only(s, s', src, i) && s'.senders[src].tx == None && s'.rcv.slots[i] == None
    ensures s'.rcv.history == s.rcv.history[src := id] && |s'.delivered| == |s.delivered| + 1 && s.delivered <= s'.delivered
    ensures var a := s'.delivered[|s.delivered|]; a.src == src && a.id == id && Concat(a.frames) == data
    decreases |data| - n * FRSIZE
  {
    if |data| <= (n + WINDOW) * FRSIZE {
      s4, s' := LastWindowPasses(o, s, src, id, data, n, i);
    } else {
      var s1 := FullWindowPasses(o, s, src, id, data, n, i);
      s4, s' := WindowsPass(o, s1, src, id, data, n + WINDOW, i);
    }
  }

  /** From every state in which a socket has a packet queued and none in transmission, and the receiver has a free slot and
      knows the packet neither as one under assembly nor as completed: steps without a loss lead to a state in which the
      packet has been delivered, just once and with exactly its bytes, and its transmission has ended, without having
      timed out; nothing else at the receiver has changed, and no loop is left behind. */
  lemma GoodNetworkDelivers(s: Sys, src: Source) returns (s4: Sys, s': Sys)
    requires src in s.senders && s.senders[src].tx == None && s.senders[src].queue != [] && s.senders[src].queue[0].data != []
    requires var id := s.senders[src].queue[0].id;
             && LastId(s.rcv.history, src) < id && NotBefore(s.rcv.slots, src, id, |s.rcv.slots|)
             && exists i :: 0 <= i < |s.rcv.slots| && IsFree(s.rcv.slots[i])
    ensures var p := s.senders[src].queue[0];
            && From(s, s') && TookOff(s4, src, p.id, s') && |s'.delivered| == |s.delivered| + 1 && s.delivered <= s'.delivered
            && var a := s'.delivered[|s.delivered|];
               && a.src == src && a.id == p.id && Concat(a.frames) == p.data
               && s' == s.(senders := s.senders[src := s.senders[src].(queue := s.senders[src].queue[1..], started := p.id)],
                           rcv := Receiver(s.rcv.slots, s.rcv.history[src := p.id]), frames := s'.frames, acks := s'.acks,
                           delivered := s'.delivered)
  {
    var p := s.senders[src].queue[0];
    var i := FirstFrom(s.rcv.slots, IsFree, 0);
    FromSelf(s);
    FromStep(s, s, Take(src));
    var s1 := Next(s, Take(src));
    s4, s' := WindowsPass(s, s1, src, p.id, p.data, 0, i);
    assert s'.rcv.slots == s.rcv.slots;
  }
}
