/** What every run of the packet transport guarantees, and exactly where the guarantees end. */
module TransportSafety {
  import opened Basics
  import opened Packets
  import opened Assembler
  import opened Transmitter
  import opened Protocol

  // ---- Exact delivery ----

  /** However frames are lost, duplicated, delayed and reordered, wherever a restart catches the window
      being filled, and whether packets are given up early or memory runs out at the receiver: a packet
      under assembly holds exactly a prefix of the packet its source submitted under that id, and a
      delivered packet all of it. */
  lemma AssembledBytesAreExact(states: seq<Sys>, steps: seq<Step>)
    requires IsRun(states, steps) && !states[|steps|].tainted
    ensures var s := states[|steps|];
            forall i :: 0 <= i < |s.rcv.slots| && s.rcv.slots[i].Some? ==>
              var a := s.rcv.slots[i].value;
              && Key(a.src, a.id) in s.sent && a.rcvd < |s.sent[Key(a.src, a.id)]|
              && Concat(a.frames) == s.sent[Key(a.src, a.id)][..a.rcvd]
    ensures var s := states[|steps|];
            forall i :: 0 <= i < |s.delivered| ==>
              var a := s.delivered[i];
              Key(a.src, a.id) in s.sent && Concat(a.frames) == s.sent[Key(a.src, a.id)]
  {
    RunKeepsInv(states, steps);
  }

  /** An acknowledgement completes a transmission only if the receiver has assembled the whole packet,
      be it the acknowledgement of its last frame or one sent again for a duplicate. */
  lemma CompletionMeansAssembled(states: seq<Sys>, steps: seq<Step>, a: Ack)
    requires IsRun(states, steps) && !states[|steps|].tainted
    requires Enabled(states[|steps|], AckArrives(a))
    ensures var s := states[|steps|];
            var t := s.senders[a.dest].tx.value;
            t.status != TxComplete && ProcessAck(t, a).status == TxComplete && a.offset != 0 ==>
              && a.offset == |t.data| && t.id == a.id
              && exists i :: 0 <= i < |s.delivered| && s.delivered[i].src == a.dest && s.delivered[i].id == t.id
                             && Concat(s.delivered[i].frames) == t.data
  {
    RunKeepsInv(states, steps);
    var s := states[|steps|];
    var t := s.senders[a.dest].tx.value;
    assert SenderOk(s.sent, a.dest, s.senders[a.dest]) && AckOk(s, a);
    if t.status != TxComplete && ProcessAck(t, a).status == TxComplete && a.offset != 0 {
      assert WasDelivered(s.delivered, a.dest, t.id);
      var i :| 0 <= i < |s.delivered| && s.delivered[i].src == a.dest && s.delivered[i].id == t.id;
      assert AssemblyOk(s.sent, s.delivered[i]);
    }
  }

  // ---- Order of delivery ----

  /** No packet under assembly is as old as what its source has already completed, and no packet
      occupies two slots. */
  predicate Ordered(r: Receiver) {
    && (forall i :: 0 <= i < |r.slots| && r.slots[i].Some? ==>
          LastId(r.history, r.slots[i].value.src) < r.slots[i].value.id)
    && (forall i, j :: 0 <= i < j < |r.slots| && r.slots[i].Some? && r.slots[j].Some? ==>
          !(r.slots[i].value.src == r.slots[j].value.src && r.slots[i].value.id == r.slots[j].value.id))
  }

  /** A packet of `src` older than `id` is under assembly. */
  predicate OlderUnderAssembly(r: Receiver, src: Source, id: nat) {
    exists i :: 0 <= i < |r.slots| && r.slots[i].Some? && r.slots[i].value.src == src && r.slots[i].value.id < id
  }

  /** The frame completes its packet: it is the last frame of the packet in its slot, or makes up a whole
      packet that is new and finds a slot. */
  predicate Completes(r: Receiver, f: Frame, mem: Memory) {
    var ind := FirstFrom(r.slots, x => Matches(x, f), 0);
    if ind < |r.slots| then
      r.slots[ind].value.rcvd == f.offset && f.length == f.offset + |f.payload|
    else
      && LastId(r.history, f.src) < f.id && mem.slot && (exists i :: 0 <= i < |r.slots| && IsFree(r.slots[i]))
      && f.offset == 0 && f.length == |f.payload|
  }

  /** A completion by `src` finds its entry in the table of last packets, or memory for one. */
  predicate Recorded(r: Receiver, src: Source, mem: Memory) {
    src in r.history || mem.node
  }

  lemma CompletesIff(r: Receiver, f: Frame, mem: Memory)
    ensures Completes(r, f, mem) <==> Receive(r, f, mem).delivered.Some?
  {
    if exists i :: 0 <= i < |r.slots| && IsFree(r.slots[i]) {
      var i :| 0 <= i < |r.slots| && IsFree(r.slots[i]);
      assert FirstFrom(r.slots, IsFree, 0) <= i;
    } else {
      assert FirstFrom(r.slots, IsFree, 0) == |r.slots|;
    }
  }

  lemma AcceptKeepsOrder(r: Receiver, i: nat, f: Frame, mem: Memory)
    requires Ordered(r) && i < |r.slots| && r.slots[i].Some? && Matches(r.slots[i], f)
    ensures var o := Accept(r, i, f, mem);
            Ordered(o.rcv) <==> !(o.delivered.Some? && Recorded(r, f.src, mem) && OlderUnderAssembly(r, f.src, f.id))
  {
    var o := Accept(r, i, f, mem);
    if o.delivered.Some? && Recorded(r, f.src, mem) && OlderUnderAssembly(r, f.src, f.id) {
      var j :| 0 <= j < |r.slots| && r.slots[j].Some? && r.slots[j].value.src == f.src && r.slots[j].value.id < f.id;
      assert o.rcv.slots[j] == r.slots[j];
    }
  }

  /** A new packet's slot does not make older packets appear or disappear. */
  lemma OlderUnchanged(r: Receiver, free: nat, f: Frame)
    requires free < |r.slots| && r.slots[free].None?
    ensures OlderUnderAssembly(r.(slots := r.slots[free := Some(Fresh(f))]), f.src, f.id) <==> OlderUnderAssembly(r, f.src, f.id)
  {
    var r1 := r.(slots := r.slots[free := Some(Fresh(f))]);
    if OlderUnderAssembly(r, f.src, f.id) {
      var j :| 0 <= j < |r.slots| && r.slots[j].Some? && r.slots[j].value.src == f.src && r.slots[j].value.id < f.id;
      assert r1.slots[j] == r.slots[j];
    }
    if OlderUnderAssembly(r1, f.src, f.id) {
      var j :| 0 <= j < |r1.slots| && r1.slots[j].Some? && r1.slots[j].value.src == f.src && r1.slots[j].value.id < f.id;
      assert r1.slots[j] == r.slots[j];
    }
  }

  /** A received frame keeps the order exactly unless it completes a packet, and that is recorded, while
      an older packet of the same source is still under assembly. */
  lemma ReceiveKeepsOrderIff(r: Receiver, f: Frame, mem: Memory)
    requires Ordered(r)
    ensures Ordered(Receive(r, f, mem).rcv) <==>
            !(Completes(r, f, mem) && Recorded(r, f.src, mem) && OlderUnderAssembly(r, f.src, f.id))
  {
    CompletesIff(r, f, mem);
    var ind := FirstFrom(r.slots, x => Matches(x, f), 0);
    if ind < |r.slots| {
      AcceptKeepsOrder(r, ind, f, mem);
    } else if LastId(r.history, f.src) < f.id {
      var free := FirstFrom(r.slots, IsFree, 0);
      if free < |r.slots| {
        OlderUnchanged(r, free, f);
        AcceptKeepsOrder(r.(slots := r.slots[free := Some(Fresh(f))]), free, f, mem);
      }
    }
  }

  /** The table of last packets changes only when a packet is completed, to that packet, which is newer. */
  lemma HistoryFollowsDelivery(r: Receiver, f: Frame, mem: Memory)
    requires Ordered(r)
    ensures var o := Receive(r, f, mem);
            if o.delivered.Some? then
              LastId(r.history, f.src) < f.id && o.delivered.value.src == f.src && o.delivered.value.id == f.id
              && o.rcv.history == Record(r.history, f.src, f.id, mem)
            else o.rcv.history == r.history
  {
  }

  /** The step does not complete a packet past an older one of its source, nor one it has no memory to
      record. */
  predicate CompletesInOrder(s: Sys, step: Step) {
    step.FrameArrives? && Completes(s.rcv, step.frame, step.mem) ==>
      !OlderUnderAssembly(s.rcv, step.frame.src, step.frame.id) && Recorded(s.rcv, step.frame.src, step.mem)
  }

  predicate IdsIncrease(d: seq<Assembly>) {
    forall i, j :: 0 <= i < j < |d| && d[i].src == d[j].src ==> d[i].id < d[j].id
  }

  /** Every packet delivered so far is at most as new as what the table remembers of its source. */
  predicate Remembered(s: Sys) {
    forall i :: 0 <= i < |s.delivered| ==> s.delivered[i].id <= LastId(s.rcv.history, s.delivered[i].src)
  }

  predicate InOrder(s: Sys) {
    Ordered(s.rcv) && IdsIncrease(s.delivered) && Remembered(s)
  }

  /** Exactly the steps that complete in order keep the order. */
  lemma StepKeepsOrderIff(s: Sys, step: Step)
    requires InOrder(s) && Enabled(s, step)
    ensures InOrder(Next(s, step)) <==> CompletesInOrder(s, step)
  {
    if step.FrameArrives? {
      ReceiveKeepsOrderIff(s.rcv, step.frame, step.mem);
      CompletesIff(s.rcv, step.frame, step.mem);
      HistoryFollowsDelivery(s.rcv, step.frame, step.mem);
      var s' := Next(s, step);
      if Completes(s.rcv, step.frame, step.mem) && !Recorded(s.rcv, step.frame.src, step.mem) {
        assert s'.delivered[|s.delivered|].id > LastId(s'.rcv.history, step.frame.src);
      }
    }
  }

  /** In every run in which no packet is completed past an older one of its source or left unrecorded,
      each source's packets are delivered with strictly increasing ids: none twice, however frames are
      duplicated. */
  lemma {:induction false} DeliveredIdsIncrease(states: seq<Sys>, steps: seq<Step>)
    requires IsRun(states, steps)
    requires forall i :: 0 <= i < |steps| ==> CompletesInOrder(states[i], steps[i])
    ensures InOrder(states[|steps|])
    decreases |steps|
  {
    if steps != [] {
      var n := |steps| - 1;
      assert IsRun(states[..n + 1], steps[..n]);
      DeliveredIdsIncrease(states[..n + 1], steps[..n]);
      StepKeepsOrderIff(states[n], steps[n]);
    }
  }
}
