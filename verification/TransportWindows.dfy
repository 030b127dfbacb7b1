/** How packets are cut into windows and frames over whole runs: which frames can be on the wire, and
    when the frame a partial acknowledgement asks for is the one the window buffer holds there.
    The window is filled without holding the packet's lock, so an acknowledgement asking for a restart
    can be handled between any two steps of a round. */
module TransportWindows {
  import opened Basics
  import opened Packets
  import opened Assembler
  import opened Transmitter
  import opened Protocol

  /** The acknowledgement sends the packet back to its beginning. */
  predicate Restarts(t: Tx, a: Ack) {
    t.id == a.id && a.offset == 0 && t.retries < 3
  }

  // ---- Frame sizes ----

  predicate OnFrame(pos: nat, length: nat) {
    pos % FRSIZE == 0 || pos == length
  }

  /** The transmitter stands at a frame boundary, and a size in hand is the size of the frame there. */
  predicate Regular(t: Tx) {
    && OnFrame(t.curPos, |t.data|)
    && match t.phase
       case Shortening => Left(t) <= FRSIZE
       case Placing(size) => size == FrameSize(t)
       case Advancing(size) => size == FrameSize(t)
       case _ => true
  }

  predicate RegularFrame(f: Frame) {
    f.offset % FRSIZE == 0 && |f.payload| == Min(FRSIZE, f.length - f.offset)
  }

  predicate RegularAssembly(a: Assembly) {
    && OnFrame(a.rcvd, a.length) && |a.frames| == FrameCount(a.rcvd) && a.expSeq == |a.frames| % WINDOW
    && Sized(a.frames, a.length)
  }

  predicate RegularAck(a: Ack, length: nat) {
    OnFrame(a.offset, length) && a.seqno == FrameCount(a.offset) % WINDOW
  }

  ghost predicate TransmittersRegular(s: Sys) {
    && (forall src :: src in s.senders && s.senders[src].tx.Some? ==> Regular(s.senders[src].tx.value))
    && (forall i :: 0 <= i < |s.orphans| ==> Regular(s.orphans[i].tx))
  }

  ghost predicate WireRegular(s: Sys) {
    && (forall f :: f in s.frames ==> RegularFrame(f))
    && (forall a :: a in s.acks && Key(a.dest, a.id) in s.sent ==> RegularAck(a, |s.sent[Key(a.dest, a.id)]|))
  }

  ghost predicate SlotsRegular(slots: seq<Option<Assembly>>) {
    forall i :: 0 <= i < |slots| && slots[i].Some? ==> RegularAssembly(slots[i].value)
  }

  ghost predicate AllRegular(s: Sys) {
    && TransmittersRegular(s) && WireRegular(s) && SlotsRegular(s.rcv.slots)
    && (forall i :: 0 <= i < |s.delivered| ==> RegularAssembly(s.delivered[i]))
  }

  /** A restart that arrives with the size of the packet's last frame in hand, or about to be computed. */
  predicate RestartTears(t: Tx, a: Ack) {
    && Restarts(t, a)
    && match t.phase
       case Shortening => |t.data| > FRSIZE
       case Placing(size) => size != Min(FRSIZE, |t.data|)
       case Advancing(size) => size != Min(FRSIZE, |t.data|)
       case _ => false
  }

  predicate Tears(s: Sys, step: Step)
    requires Enabled(s, step)
  {
    step.AckArrives? && RestartTears(s.senders[step.ack.dest].tx.value, step.ack)
  }

  /** Exactly these restarts make the transmitter cut a frame of a size that does not belong where it is. */
  lemma AckKeepsRegularIff(t: Tx, a: Ack)
    requires Regular(t) && WithinData(t)
    ensures Regular(ProcessAck(t, a)) <==> !RestartTears(t, a)
  {
  }

  lemma WorkKeepsRegular(t: Tx)
    requires Regular(t) && WithinData(t)
    ensures Regular(Work(t))
    ensures forall f :: f in Emitted(t) ==> RegularFrame(f)
  {
  }

  lemma ExtendRegular(a: Assembly, f: Frame)
    requires RegularAssembly(a) && RegularFrame(f) && a.rcvd == f.offset < a.length == f.length
    ensures RegularAssembly(Extend(a, f)) && FrameCount(Extend(a, f).rcvd) == FrameCount(a.rcvd) + 1
  {
  }

  ghost predicate OutcomeRegular(f: Frame, o: Outcome) {
    && SlotsRegular(o.rcv.slots) && (o.delivered.Some? ==> RegularAssembly(o.delivered.value))
    && (forall a :: a in o.acks ==> a.dest == f.src && a.id == f.id && RegularAck(a, f.length))
  }

  lemma AcceptRegular(s: Sys, r: Receiver, i: nat, f: Frame, mem: Memory)
    requires FrameOk(s.sent, f) && RegularFrame(f) && SlotsOk(s, r.slots) && SlotsRegular(r.slots)
    requires i < |r.slots| && Matches(r.slots[i], f)
    ensures OutcomeRegular(f, Accept(r, i, f, mem))
  {
    var a := r.slots[i].value;
    assert RegularAssembly(a) && a.length == f.length;
    if a.rcvd == f.offset {
      ExtendRegular(a, f);
    }
  }

  lemma ReceiveRegular(s: Sys, f: Frame, mem: Memory)
    requires Inv(s) && AllRegular(s) && f in s.frames
    ensures OutcomeRegular(f, Receive(s.rcv, f, mem))
  {
    var r := s.rcv;
    var ind := FirstFrom(r.slots, x => Matches(x, f), 0);
    if ind < |r.slots| {
      AcceptRegular(s, r, ind, f, mem);
    } else if LastId(r.history, f.src) < f.id {
      var free := FirstFrom(r.slots, IsFree, 0);
      if free < |r.slots| {
        AcceptRegular(s, r.(slots := r.slots[free := Some(Fresh(f))]), free, f, mem);
      }
    }
  }

  lemma FrameKeepsRegular(s: Sys, f: Frame, mem: Memory)
    requires Inv(s) && AllRegular(s) && Enabled(s, FrameArrives(f, mem))
    ensures AllRegular(Next(s, FrameArrives(f, mem)))
  {
    ReceiveRegular(s, f, mem);
    var s' := Next(s, FrameArrives(f, mem));
    assert |s.sent[Key(f.src, f.id)]| == f.length;
  }

  lemma SetTxKeepsRegular(s: Sys, src: Source, t: Tx)
    requires AllRegular(s) && src in s.senders && Regular(t)
    ensures AllRegular(SetTx(s, src, t))
  {
  }

  lemma TransmitterKeepsRegular(s: Sys, step: Step)
    requires Inv(s) && AllRegular(s) && Enabled(s, step)
    requires step.Run? || step.Wake?
    ensures AllRegular(Next(s, step))
  {
    var t := s.senders[step.src].tx.value;
    assert SenderOk(s.sent, step.src, s.senders[step.src]);
    WorkKeepsRegular(t);
    SetTxKeepsRegular(s, step.src, if step.Run? then Work(t) else AfterSleep(t, t.phase.tries, step.timeout));
  }

  lemma OrphanKeepsRegular(s: Sys, step: Step)
    requires Inv(s) && AllRegular(s) && Enabled(s, step)
    requires step.OrphanRuns? || step.OrphanWakes? || step.OrphanFinishes? || step.SenderFrees?
    ensures AllRegular(Next(s, step))
  {
    WorkKeepsRegular(s.orphans[step.i].tx);
  }

  lemma AckKeepsRegular(s: Sys, a: Ack)
    requires Inv(s) && AllRegular(s) && Enabled(s, AckArrives(a)) && !Tears(s, AckArrives(a))
    ensures AllRegular(Next(s, AckArrives(a)))
  {
    var t := s.senders[a.dest].tx.value;
    assert SenderOk(s.sent, a.dest, s.senders[a.dest]) && Regular(t);
    AckKeepsRegularIff(t, a);
    SetTxKeepsRegular(s, a.dest, ProcessAck(t, a));
  }

  lemma OthersKeepRegular(s: Sys, step: Step)
    requires Inv(s) && AllRegular(s) && Enabled(s, step)
    requires step.Submit? || step.Take? || step.Finish? || step.Expire?
    ensures AllRegular(Next(s, step))
  {
    assert forall a :: a in s.acks ==> AckOk(s, a);
  }

  lemma StepKeepsRegular(s: Sys, step: Step)
    requires Inv(s) && AllRegular(s) && Enabled(s, step) && !Next(s, step).tainted && !Tears(s, step)
    ensures AllRegular(Next(s, step))
  {
    if step.Run? || step.Wake? {
      TransmitterKeepsRegular(s, step);
    } else if step.AckArrives? {
      AckKeepsRegular(s, step.ack);
    } else if step.FrameArrives? {
      FrameKeepsRegular(s, step.frame, step.mem);
    } else if step.Submit? || step.Take? || step.Finish? || step.Expire? {
      OthersKeepRegular(s, step);
    } else {
      OrphanKeepsRegular(s, step);
    }
  }

  /** In every run without a tearing restart, every frame on the wire is full but for its packet's last,
      every acknowledgement names the frame it stands before, and every packet delivered consists of
      full frames but for the last. */
  lemma {:induction false} RunKeepsRegular(states: seq<Sys>, steps: seq<Step>)
    requires IsRun(states, steps) && !states[|steps|].tainted
    requires forall i :: 0 <= i < |steps| ==> !Tears(states[i], steps[i])
    ensures AllRegular(states[|steps|])
    decreases |steps|
  {
    if steps != [] {
      var n := |steps| - 1;
      assert IsRun(states[..n + 1], steps[..n]);
      RunKeepsInv(states[..n + 1], steps[..n]);
      RunKeepsRegular(states[..n + 1], steps[..n]);
      StepKeepsRegular(states[n], steps[n]);
    }
  }

  // ---- Window alignment ----

  /** The first `n` frame buffers hold consecutive frames from the window position on. */
  predicate Consecutive(t: Tx, n: nat) {
    n <= |t.frames| && forall j :: 0 <= j < n ==> t.frames[j].offset == t.winPos + j * FRSIZE && t.frames[j].seqno == j
  }

  /** The window position, the frame buffers and the current position agree. */
  predicate InStep(t: Tx) {
    t.curPos == Min(t.winPos + |t.frames| * FRSIZE, |t.data|) && Consecutive(t, |t.frames|)
  }

  predicate Aligned(t: Tx) {
    && t.winPos % (WINDOW * FRSIZE) == 0 && |t.frames| <= WINDOW
    && match t.phase
       case Opening => t.frames == [] && t.curPos % (WINDOW * FRSIZE) == 0
       case Opened(p) => t.frames == [] && p == t.curPos && p % (WINDOW * FRSIZE) == 0
       case Building => InStep(t)
       case Measuring => InStep(t) && Fillable(t)
       case Shortening => InStep(t) && Fillable(t) && Left(t) <= FRSIZE
       case Placing(size) => InStep(t) && Fillable(t) && size == FrameSize(t)
       case Advancing(size) =>
         && t.frames != [] && t.curPos == t.winPos + (|t.frames| - 1) * FRSIZE < |t.data|
         && Consecutive(t, |t.frames|) && size == FrameSize(t)
       case _ => (InStep(t) && (|t.frames| == WINDOW || t.curPos == |t.data|)) || (t.winPos == 0 && t.curPos == 0)
  }

  predicate AllAligned(s: Sys) {
    forall src :: src in s.senders && s.senders[src].tx.Some? ==> Aligned(s.senders[src].tx.value)
  }

  /** A restart that arrives while a window is being filled and finds something of the window done:
      a window position read, a frame in the buffers, or the size of another frame in hand. */
  predicate RestartMisaligns(t: Tx, a: Ack) {
    && Restarts(t, a)
    && match t.phase
       case Opened(p) => p != 0
       case Building => t.frames != []
       case Measuring => t.frames != []
       case Shortening => t.frames != [] || |t.data| > FRSIZE
       case Placing(size) => t.frames != [] || size != Min(FRSIZE, |t.data|)
       case Advancing(_) => t.curPos != 0
       case _ => false
  }

  predicate Misaligns(s: Sys, step: Step)
    requires Enabled(s, step)
  {
    step.AckArrives? && RestartMisaligns(s.senders[step.ack.dest].tx.value, step.ack)
  }

  lemma RestartAligned(t: Tx, a: Ack)
    requires Aligned(t) && t.data != [] && Restarts(t, a)
    ensures Aligned(ProcessAck(t, a)) <==> !RestartMisaligns(t, a)
  {
    var t' := ProcessAck(t, a);
    match t.phase
    case Advancing(_) => if t.curPos != 0 && |t.frames| == 1 { assert t'.frames[0].offset != 0; }
    case _ =>
  }

  /** Any other acknowledgement leaves positions and buffers alone. */
  lemma OtherAckAligned(t: Tx, a: Ack)
    requires Aligned(t) && !Restarts(t, a)
    ensures Aligned(ProcessAck(t, a))
  {
    var t' := ProcessAck(t, a);
    assert t' == t.(ackData := t'.ackData, retries := t'.retries, status := t'.status, timedOut := t'.timedOut,
                    startFrame := t'.startFrame);
  }

  /** Exactly these restarts break the alignment of an aligned window. */
  lemma AckKeepsAlignedIff(t: Tx, a: Ack)
    requires Aligned(t) && t.data != []
    ensures Aligned(ProcessAck(t, a)) <==> !RestartMisaligns(t, a)
  {
    if Restarts(t, a) {
      RestartAligned(t, a);
    } else {
      OtherAckAligned(t, a);
    }
  }

  lemma TearingMisaligns(t: Tx, a: Ack)
    requires Aligned(t) && RestartTears(t, a)
    ensures RestartMisaligns(t, a)
  {
  }

  lemma FillingKeepsAligned(t: Tx)
    requires Aligned(t) && WithinData(t)
    requires t.phase.Measuring? || t.phase.Shortening? || t.phase.Placing?
    ensures Aligned(Work(t))
  {
    if t.phase.Placing? {
      assert Work(t).frames[|t.frames|] == Cut(t, t.phase.size);
    }
  }

  lemma AdvancingKeepsAligned(t: Tx)
    requires Aligned(t) && WithinData(t) && t.phase.Advancing?
    ensures Aligned(Work(t))
  {
  }

  lemma OpeningKeepsAligned(t: Tx)
    requires Aligned(t) && WithinData(t) && (t.phase.WindowDone? || t.phase.Opening? || t.phase.Opened?)
    ensures Aligned(Work(t))
  {
  }

  lemma LaunchingKeepsAligned(t: Tx)
    requires Aligned(t) && WithinData(t)
    requires t.phase.Building? || t.phase.Launching? || t.phase.Asleep? || t.phase.Leaving?
    ensures Aligned(Work(t))
  {
  }

  lemma WorkKeepsAligned(t: Tx)
    requires Aligned(t) && WithinData(t)
    ensures Aligned(Work(t))
  {
    if t.phase.Measuring? || t.phase.Shortening? || t.phase.Placing? {
      FillingKeepsAligned(t);
    } else if t.phase.Advancing? {
      AdvancingKeepsAligned(t);
    } else if t.phase.WindowDone? || t.phase.Opening? || t.phase.Opened? {
      OpeningKeepsAligned(t);
    } else {
      LaunchingKeepsAligned(t);
    }
  }

  lemma SetTxKeepsAligned(s: Sys, src: Source, t: Tx)
    requires AllAligned(s) && src in s.senders && Aligned(t)
    ensures AllAligned(SetTx(s, src, t))
  {
  }

  lemma TransmitterKeepsAligned(s: Sys, step: Step)
    requires Inv(s) && AllAligned(s) && Enabled(s, step)
    requires step.Run? || step.Wake?
    ensures AllAligned(Next(s, step))
  {
    var t := s.senders[step.src].tx.value;
    assert SenderOk(s.sent, step.src, s.senders[step.src]) && Aligned(t);
    if step.Run? {
      WorkKeepsAligned(t);
      SetTxKeepsAligned(s, step.src, Work(t));
    } else {
      SetTxKeepsAligned(s, step.src, AfterSleep(t, t.phase.tries, step.timeout));
    }
  }

  lemma AckKeepsAligned(s: Sys, a: Ack)
    requires Inv(s) && AllAligned(s) && Enabled(s, AckArrives(a)) && !Misaligns(s, AckArrives(a))
    ensures AllAligned(Next(s, AckArrives(a)))
  {
    var t := s.senders[a.dest].tx.value;
    assert SenderOk(s.sent, a.dest, s.senders[a.dest]) && Aligned(t);
    AckKeepsAlignedIff(t, a);
    SetTxKeepsAligned(s, a.dest, ProcessAck(t, a));
  }

  lemma StepKeepsAligned(s: Sys, step: Step)
    requires Inv(s) && AllAligned(s) && Enabled(s, step) && !Misaligns(s, step)
    ensures AllAligned(Next(s, step))
  {
    if step.Run? || step.Wake? {
      TransmitterKeepsAligned(s, step);
    } else if step.AckArrives? {
      AckKeepsAligned(s, step.ack);
    }
  }

  /** In every run without a misaligning restart, every packet in transmission is aligned, and every
      frame size is regular. */
  lemma {:induction false} RunKeepsAligned(states: seq<Sys>, steps: seq<Step>)
    requires IsRun(states, steps) && !states[|steps|].tainted
    requires forall i :: 0 <= i < |steps| ==> !Misaligns(states[i], steps[i])
    ensures AllAligned(states[|steps|]) && AllRegular(states[|steps|])
    decreases |steps|
  {
    if steps != [] {
      var n := |steps| - 1;
      assert IsRun(states[..n + 1], steps[..n]);
      RunKeepsInv(states[..n + 1], steps[..n]);
      RunKeepsAligned(states[..n + 1], steps[..n]);
      StepKeepsAligned(states[n], steps[n]);
      if Tears(states[n], steps[n]) {
        TearingMisaligns(states[n].senders[steps[n].ack.dest].tx.value, steps[n].ack);
      }
      StepKeepsRegular(states[n], steps[n]);
    }
  }

  /** A partial acknowledgement: between the window's position and the current one, not out of date, and
      handled while the window has frames (between two windows the buffers are empty, and whatever frame
      number is installed then is reset before any frame is queued). */
  predicate Partial(t: Tx, a: Ack) {
    t.id == a.id && t.ackData <= a.offset && t.winPos < a.offset < t.curPos && t.frames != []
  }

  /** Retransmission would start with the buffered frame at exactly the acknowledged offset. */
  predicate NamesItsFrame(t: Tx, a: Ack) {
    var t' := ProcessAck(t, a);
    t'.status == RestartTx && t'.startFrame < |t.frames| && t.frames[t'.startFrame].offset == a.offset
  }

  /** The frame number a partial acknowledgement installs names the buffered frame that starts exactly
      at the acknowledged offset. */
  lemma PartialAckNamesItsFrame(states: seq<Sys>, steps: seq<Step>, a: Ack)
    requires IsRun(states, steps) && !states[|steps|].tainted
    requires forall i :: 0 <= i < |steps| ==> !Misaligns(states[i], steps[i])
    requires Enabled(states[|steps|], AckArrives(a))
    ensures var t := states[|steps|].senders[a.dest].tx.value;
            Partial(t, a) ==> NamesItsFrame(t, a)
  {
    RunKeepsInv(states, steps);
    RunKeepsAligned(states, steps);
    var s := states[|steps|];
    var t := s.senders[a.dest].tx.value;
    assert SenderOk(s.sent, a.dest, s.senders[a.dest]) && AckOk(s, a) && Aligned(t);
    if Partial(t, a) {
      assert RegularAck(a, |t.data|);
      PartialAckOfAligned(t, a);
    }
  }

  lemma PartialAckOfAligned(t: Tx, a: Ack)
    requires Aligned(t) && t.curPos <= |t.data| && Partial(t, a) && RegularAck(a, |t.data|)
    ensures NamesItsFrame(t, a)
  {
    assert a.offset % FRSIZE == 0;
    assert t.curPos <= t.winPos + |t.frames| * FRSIZE;
    FrameOfOffset(t.winPos, a.offset);
  }

  lemma FrameOfOffset(winPos: nat, offset: nat)
    requires winPos % (WINDOW * FRSIZE) == 0 && offset % FRSIZE == 0 && winPos < offset < winPos + WINDOW * FRSIZE
    ensures winPos + (FrameCount(offset) % WINDOW) * FRSIZE == offset
  {
    var m, n := winPos / (WINDOW * FRSIZE), offset / FRSIZE;
    assert winPos == m * (WINDOW * FRSIZE) && offset == n * FRSIZE;
    assert FrameCount(offset) == n;
    assert n == 8 * m + (n - 8 * m) && 0 < n - 8 * m < 8;
  }
}
