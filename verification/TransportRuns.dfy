/** Reaching states of the transport: what a transmitter does left alone, step by step and window by
    window, and what the frames it lets out do to an idle receiver. */
module TransportRuns {
  import opened Basics
  import opened Packets
  import opened Assembler
  import opened Transmitter
  import opened Protocol
  import opened TransportWindows

  /** The steps lead from each state to the next one. */
  ghost predicate Goes(states: seq<Sys>, steps: seq<Step>) {
    && |states| == |steps| + 1
    && forall i :: 0 <= i < |steps| ==> Enabled(states[i], steps[i]) && states[i + 1] == Next(states[i], steps[i])
  }

  /** There are steps that lead from `o` to `s`. */
  ghost predicate From(o: Sys, s: Sys) {
    exists states, steps :: Goes(states, steps) && states[0] == o && states[|steps|] == s
  }

  ghost predicate Reachable(s: Sys) {
    exists states, steps :: IsRun(states, steps) && states[|steps|] == s
  }

  lemma FromSelf(s: Sys)
    ensures From(s, s)
  {
    assert Goes([s], []);
  }

  lemma FromStep(o: Sys, s: Sys, step: Step)
    requires From(o, s) && Enabled(s, step)
    ensures From(o, Next(s, step))
  {
    var states, steps :| Goes(states, steps) && states[0] == o && states[|steps|] == s;
    var states' := states + [Next(s, step)];
    assert states'[0] == o && Goes(states', steps + [step]);
  }

  lemma FromInitial(o: Sys, s: Sys)
    requires Init(o) && From(o, s)
    ensures Reachable(s)
  {
    var states, steps :| Goes(states, steps) && states[0] == o && states[|steps|] == s;
    assert IsRun(states, steps);
  }

  // ---- What a transmitter does left alone ----

  ghost function WorkFor(t: Tx, n: nat): Tx
    decreases n
  {
    if n == 0 then t else WorkFor(Work(t), n - 1)
  }

  ghost function EmittedIn(t: Tx, n: nat): set<Frame>
    decreases n
  {
    if n == 0 then {} else Emitted(t) + EmittedIn(Work(t), n - 1)
  }

  ghost predicate RunsFor(t: Tx, n: nat)
    decreases n
  {
    n == 0 || (!t.phase.Asleep? && !t.phase.Leaving? && RunsFor(Work(t), n - 1))
  }

  /** Some steps on its own take the transmitter from `t` to `t'`, letting out the frames `out`. */
  ghost predicate Leads(t: Tx, t': Tx, out: set<Frame>) {
    exists n: nat :: RunsFor(t, n) && WorkFor(t, n) == t' && EmittedIn(t, n) == out
  }

  lemma LeadsStep(t: Tx, t': Tx, t'': Tx, out: set<Frame>)
    requires !t.phase.Asleep? && !t.phase.Leaving? && Work(t) == t' && Leads(t', t'', out)
    ensures Leads(t, t'', Emitted(t) + out)
  {
    var n: nat :| RunsFor(t', n) && WorkFor(t', n) == t'' && EmittedIn(t', n) == out;
    assert RunsFor(t, n + 1) && WorkFor(t, n + 1) == t'' && EmittedIn(t, n + 1) == Emitted(t) + out;
  }

  lemma LeadsNowhere(t: Tx)
    ensures Leads(t, t, {})
  {
    assert RunsFor(t, 0) && WorkFor(t, 0) == t && EmittedIn(t, 0) == {};
  }

  lemma {:induction false} LeadsOn(t: Tx, n: nat, t': Tx, t'': Tx, out: set<Frame>, out': set<Frame>)
    requires RunsFor(t, n) && WorkFor(t, n) == t' && EmittedIn(t, n) == out && Leads(t', t'', out')
    ensures Leads(t, t'', out + out')
    decreases n
  {
    if n == 0 {
      assert out + out' == out';
    } else {
      LeadsOn(Work(t), n - 1, t', t'', EmittedIn(Work(t), n - 1), out');
      LeadsStep(t, Work(t), t'', EmittedIn(Work(t), n - 1) + out');
      assert Emitted(t) + (EmittedIn(Work(t), n - 1) + out') == out + out';
    }
  }

  lemma LeadsTrans(t: Tx, t': Tx, t'': Tx, out: set<Frame>, out': set<Frame>)
    requires Leads(t, t', out) && Leads(t', t'', out')
    ensures Leads(t, t'', out + out')
  {
    var n: nat :| RunsFor(t, n) && WorkFor(t, n) == t' && EmittedIn(t, n) == out;
    LeadsOn(t, n, t', t'', out, out');
  }

  /** A step that lets no frame out. */
  lemma LeadsQuietly(t: Tx, t': Tx, t'': Tx, out: set<Frame>)
    requires !t.phase.Asleep? && !t.phase.Leaving? && !t.phase.Placing? && Work(t) == t' && Leads(t', t'', out)
    ensures Leads(t, t'', out)
  {
    LeadsStep(t, t', t'', out);
    assert Emitted(t) + out == out;
  }

  lemma RoundLeads(t: Tx)
    requires t.phase == Building && Fillable(t)
    ensures Leads(t, BuildFrame(t), {Cut(t, FrameSize(t))})
  {
    var f := Cut(t, FrameSize(t));
    var placing := t.(phase := Placing(FrameSize(t)));
    var advancing := Work(placing);
    LeadsNowhere(BuildFrame(t));
    LeadsQuietly(advancing, BuildFrame(t), BuildFrame(t), {});
    LeadsStep(placing, advancing, BuildFrame(t), {});
    assert Emitted(placing) + {} == {f};
    var measuring := t.(phase := Measuring);
    if Left(t) > FRSIZE {
      LeadsQuietly(measuring, placing, BuildFrame(t), {f});
    } else {
      LeadsQuietly(t.(phase := Shortening), placing, BuildFrame(t), {f});
      LeadsQuietly(measuring, t.(phase := Shortening), BuildFrame(t), {f});
    }
    LeadsQuietly(t, measuring, BuildFrame(t), {f});
  }

  ghost function SetOf(frames: seq<Frame>): set<Frame> {
    set f | f in frames
  }

  lemma SetOfCons(frames: seq<Frame>, k: nat)
    requires k < |frames|
    ensures SetOf(frames[k..]) == {frames[k]} + SetOf(frames[k + 1..])
  {
    assert frames[k..] == [frames[k]] + frames[k + 1..];
  }

  /** Filling the rest of the window lets out exactly the frames it adds. */
  lemma {:induction false} FillLeads(t: Tx, w: Tx)
    requires t.phase == Building && |t.frames| <= WINDOW && w == FillWindow(t)
    ensures t.frames <= w.frames && w.phase == Building && !Fillable(w)
    ensures Leads(t, w, SetOf(w.frames[|t.frames|..]))
    decreases WINDOW - |t.frames|
  {
    if Fillable(t) {
      var u := BuildFrame(t);
      RoundLeads(t);
      FillLeads(u, w);
      LeadsTrans(t, u, w, {u.frames[|t.frames|]}, SetOf(w.frames[|u.frames|..]));
      SetOfCons(w.frames, |t.frames|);
    } else {
      LeadsNowhere(t);
      assert t.frames[|t.frames|..] == [];
    }
  }

  function Sealed(w: Tx): Tx {
    w.(startFrame := 0, phase := Asleep(0))
  }

  lemma SealLeads(w: Tx)
    requires w.phase == Building && !Fillable(w) && w.frames != []
    ensures Leads(w, Sealed(w), {})
  {
    var launching := w.(startFrame := 0, phase := Launching(0));
    assert Launched(launching)[0] == w.frames[0];
    LeadsNowhere(Sealed(w));
    LeadsQuietly(launching, Sealed(w), Sealed(w), {});
    LeadsQuietly(w, launching, Sealed(w), {});
  }

  /** From the filling loop to the first sleep. */
  lemma WindowLeads(t: Tx, w: Tx)
    requires t.phase == Building && |t.frames| <= WINDOW && w == FillWindow(t) && w.frames != []
    ensures t.frames <= w.frames
    ensures Leads(t, Sealed(w), SetOf(w.frames[|t.frames|..]))
  {
    FillLeads(t, w);
    SealLeads(w);
    var out := SetOf(w.frames[|t.frames|..]);
    LeadsTrans(t, w, Sealed(w), out, {});
    assert out + {} == out;
  }

  /** From the end of a window to the filling loop of the next. */
  lemma OpenLeads(t: Tx, t': Tx, out: set<Frame>)
    requires t.phase == WindowDone && !Over(t) && Leads(OpenWindow(t), t', out)
    ensures Leads(t, t', out)
  {
    var opening := t.(frames := [], phase := Opening);
    var read := opening.(phase := Opened(t.curPos));
    LeadsQuietly(read, OpenWindow(t), t', out);
    LeadsQuietly(opening, read, t', out);
    LeadsQuietly(t, opening, t', out);
  }

  // ---- The frames of a window ----

  /** The regular frame at `offset`. */
  function Piece(src: Source, id: nat, data: seq<byte>, offset: nat, seqno: nat): Frame
    requires offset <= |data|
  {
    Frame(src, id, |data|, offset, seqno, data[offset..Min(offset + FRSIZE, |data|)])
  }

  lemma {:induction false} FilledCount(t: Tx)
    requires |t.frames| <= WINDOW && t.curPos <= |t.data|
    ensures t.frames <= FillWindow(t).frames
    ensures |FillWindow(t).frames| == Min(WINDOW, |t.frames| + FrameCount(Left(t)))
    decreases WINDOW - |t.frames|
  {
    if Fillable(t) {
      FilledCount(BuildFrame(t));
      assert FrameCount(Left(t)) == 1 + FrameCount(Left(BuildFrame(t)));
    }
  }

  /** The `k`th frame of the window is the regular one as many frames further on. */
  lemma {:induction false} FilledFrame(t: Tx, w: Tx, k: nat, offset: nat)
    requires |t.frames| <= WINDOW && t.curPos <= |t.data| && w == FillWindow(t) && |t.frames| <= k < |w.frames|
    requires offset == t.curPos + (k - |t.frames|) * FRSIZE
    ensures offset < |t.data| && w.frames[k] == Piece(t.src, t.id, t.data, offset, k)
    decreases k - |t.frames|
  {
    FilledFirst(t, w);
    if k > |t.frames| {
      FilledFrame(BuildFrame(t), w, k, offset);
    }
  }

  lemma FilledFirst(t: Tx, w: Tx)
    requires t.curPos <= |t.data| && w == FillWindow(t) && |t.frames| < |w.frames|
    ensures Fillable(t) && w.frames[|t.frames|] == Piece(t.src, t.id, t.data, t.curPos, |t.frames|)
    ensures w == FillWindow(BuildFrame(t)) && |BuildFrame(t).frames| == |t.frames| + 1 <= WINDOW
    ensures |t.frames| + 1 < |w.frames| ==> BuildFrame(t).curPos == t.curPos + FRSIZE
  {
    assert Fillable(t);
    FilledCount(BuildFrame(t));
    assert BuildFrame(t).frames[|t.frames|] == Cut(t, FrameSize(t));
  }

  /** Filling a window changes nothing but the buffers and the current position. */
  lemma {:induction false} FilledRest(t: Tx)
    requires |t.frames| <= WINDOW
    ensures FillWindow(t) == t.(frames := FillWindow(t).frames, curPos := FillWindow(t).curPos)
    decreases WINDOW - |t.frames|
  {
    if Fillable(t) {
      FilledRest(BuildFrame(t));
    }
  }

  // ---- Steps of the whole system ----

  function With(s: Sys, src: Source, t: Tx, frames: set<Frame>): Sys
    requires src in s.senders
  {
    SetTx(s, src, t).(frames := frames)
  }

  lemma WithAgain(s: Sys, src: Source, t: Tx, frames: set<Frame>, t': Tx, frames': set<Frame>)
    requires src in s.senders
    ensures With(With(s, src, t, frames), src, t', frames') == With(s, src, t', frames')
  {
  }

  lemma RunsOnce(o: Sys, s: Sys, src: Source, t: Tx)
    requires From(o, s) && InTx(s, src) && s.senders[src].tx.value == t && !t.phase.Asleep? && !t.phase.Leaving?
    ensures From(o, With(s, src, Work(t), s.frames + Emitted(t)))
  {
    FromStep(o, s, Run(src));
  }

  lemma {:induction false} RunsOn(o: Sys, s: Sys, src: Source, t: Tx, n: nat)
    requires From(o, s) && InTx(s, src) && s.senders[src].tx.value == t && RunsFor(t, n)
    ensures From(o, With(s, src, WorkFor(t, n), s.frames + EmittedIn(t, n)))
    decreases n
  {
    if n == 0 {
      assert With(s, src, t, s.frames + {}) == s;
    } else {
      RunsOnce(o, s, src, t);
      var frames := s.frames + Emitted(t);
      RunsOn(o, With(s, src, Work(t), frames), src, Work(t), n - 1);
      WithAgain(s, src, Work(t), frames, WorkFor(t, n), frames + EmittedIn(Work(t), n - 1));
      assert frames + EmittedIn(Work(t), n - 1) == s.frames + EmittedIn(t, n);
    }
  }

  lemma Transmits(o: Sys, s: Sys, src: Source, t': Tx, out: set<Frame>)
    requires From(o, s) && InTx(s, src) && Leads(s.senders[src].tx.value, t', out)
    ensures From(o, With(s, src, t', s.frames + out))
  {
    var t := s.senders[src].tx.value;
    var n: nat :| RunsFor(t, n) && WorkFor(t, n) == t' && EmittedIn(t, n) == out;
    RunsOn(o, s, src, t, n);
  }

  /** A whole window: from the end of the one before to the first sleep. */
  lemma TransmitsWindow(o: Sys, s: Sys, src: Source, w: Tx)
    requires From(o, s) && InTx(s, src)
    requires var t := s.senders[src].tx.value;
             t.phase == WindowDone && !Over(t) && t.curPos <= |t.data| && w == FillWindow(OpenWindow(t))
    ensures From(o, With(s, src, Sealed(w), s.frames + SetOf(w.frames)))
  {
    var t := s.senders[src].tx.value;
    var u := OpenWindow(t);
    FilledCount(u);
    WindowLeads(u, w);
    assert w.frames[0..] == w.frames;
    OpenLeads(t, Sealed(w), SetOf(w.frames));
    Transmits(o, s, src, Sealed(w), SetOf(w.frames));
  }

  const PLENTY: Memory := Memory(true, true)

  function Arrived(s: Sys, o: Outcome): Sys {
    s.(rcv := o.rcv, acks := s.acks + (set a | a in o.acks),
       delivered := if o.delivered.Some? then s.delivered + [o.delivered.value] else s.delivered)
  }

  lemma Arrives(o: Sys, s: Sys, f: Frame, r: Outcome)
    requires From(o, s) && f in s.frames && Receive(s.rcv, f, PLENTY) == r
    ensures From(o, Arrived(s, r))
  {
    FromStep(o, s, FrameArrives(f, PLENTY));
  }

  // ---- One packet at an idle receiver ----

  function Idle(): seq<Option<Assembly>> {
    seq(MAXACTIVE, _ => None)
  }

  /** The first `n` full frames of a packet, assembled. */
  function Held(src: Source, id: nat, data: seq<byte>, n: nat): Assembly
    requires n * FRSIZE <= |data|
  {
    Assembly(src, id, |data|, seq(n, j requires 0 <= j < n => data[j * FRSIZE..(j + 1) * FRSIZE]), n * FRSIZE, n % WINDOW)
  }

  lemma HeldExtends(src: Source, id: nat, data: seq<byte>, n: nat, seqno: nat)
    requires (n + 1) * FRSIZE <= |data|
    ensures Extend(Held(src, id, data, n), Piece(src, id, data, n * FRSIZE, seqno)) == Held(src, id, data, n + 1)
  {
  }

  /** A frame of a packet not known yet takes the first slot; it is kept if it is the packet's first. */
  lemma FirstArrival(r: Receiver, f: Frame, free: nat)
    requires LastId(r.history, f.src) < f.id && (f.offset == 0 ==> f.length > |f.payload|)
    requires forall i :: 0 <= i < |r.slots| ==> !Matches(r.slots[i], f)
    requires free < |r.slots| && r.slots[free].None? && forall i :: 0 <= i < free ==> r.slots[i].Some?
    ensures var a := Fresh(f);
            Receive(r, f, PLENTY) ==
              if f.offset == 0 then Outcome(r.(slots := r.slots[free := Some(Extend(a, f))]), [], None)
              else Outcome(r.(slots := r.slots[free := Some(a)]), [Ack(f.src, f.id, 0, 0)], None)
  {
    assert FirstFrom(r.slots, IsFree, 0) == free;
    assert r.slots[free := Some(Fresh(f))][free := Some(Extend(Fresh(f), f))] == r.slots[free := Some(Extend(Fresh(f), f))];
  }

  /** The next frame of the packet in slot `i`, not its last. */
  lemma NextArrival(r: Receiver, i: nat, f: Frame)
    requires i < |r.slots| && Matches(r.slots[i], f) && forall j :: 0 <= j < i ==> !Matches(r.slots[j], f)
    requires r.slots[i].value.rcvd == f.offset && f.length > f.offset + |f.payload|
    ensures var a := Extend(r.slots[i].value, f);
            Receive(r, f, PLENTY) == Outcome(r.(slots := r.slots[i := Some(a)]),
                                             if a.expSeq == 0 then [Ack(f.src, f.id, a.rcvd, 0)] else [], None)
  {
  }

  /** The last frame of the packet in slot `i`. */
  lemma LastArrival(r: Receiver, i: nat, f: Frame)
    requires i < |r.slots| && Matches(r.slots[i], f) && forall j :: 0 <= j < i ==> !Matches(r.slots[j], f)
    requires r.slots[i].value.rcvd == f.offset && f.length == f.offset + |f.payload|
    ensures var a := Extend(r.slots[i].value, f);
            Receive(r, f, PLENTY) == Outcome(Receiver(r.slots[i := None], r.history[f.src := f.id]),
                                             [Ack(f.src, f.id, a.rcvd, a.expSeq)], Some(a))
  {
  }

  /** A frame of the packet in slot `i` that is not the one expected. */
  lemma StrayArrival(r: Receiver, i: nat, f: Frame)
    requires i < |r.slots| && Matches(r.slots[i], f) && forall j :: 0 <= j < i ==> !Matches(r.slots[j], f)
    requires r.slots[i].value.rcvd != f.offset
    ensures var a := r.slots[i].value; Receive(r, f, PLENTY) == Outcome(r, [Ack(f.src, f.id, a.rcvd, a.expSeq)], None)
  {
  }

  /** The regular frame behind `j` full ones, in the window that begins behind `base`. */
  function Nth(src: Source, id: nat, data: seq<byte>, base: nat, j: nat): Frame
    requires base <= j && j * FRSIZE <= |data|
  {
    Piece(src, id, data, j * FRSIZE, j - base)
  }

  /** Slot `i` is the first one the packet could be in. */
  ghost predicate NotBefore(slots: seq<Option<Assembly>>, src: Source, id: nat, i: nat) {
    i <= |slots| && forall j :: 0 <= j < i && slots[j].Some? ==> slots[j].value.src != src || slots[j].value.id != id
  }

  lemma OneArrives(o: Sys, s: Sys, src: Source, id: nat, data: seq<byte>, i: nat, base: nat, n: nat) returns (s': Sys)
    requires From(o, s) && base % WINDOW == 0 && base <= n < base + WINDOW && (n + 1) * FRSIZE < |data|
    requires i < |s.rcv.slots| && s.rcv.slots[i] == Some(Held(src, id, data, n)) && NotBefore(s.rcv.slots, src, id, i)
    requires Nth(src, id, data, base, n) in s.frames
    ensures From(o, s') && s' == s.(rcv := s.rcv.(slots := s.rcv.slots[i := Some(Held(src, id, data, n + 1))]), acks := s'.acks)
    ensures s.acks <= s'.acks && (n + 1 == base + WINDOW ==> Ack(src, id, (n + 1) * FRSIZE, 0) in s'.acks)
  {
    var f := Nth(src, id, data, base, n);
    var r := NextHeld(s.rcv, src, id, data, i, base, n);
    Arrives(o, s, f, r);
    s' := Arrived(s, r);
  }

  lemma NextHeld(r: Receiver, src: Source, id: nat, data: seq<byte>, i: nat, base: nat, n: nat) returns (out: Outcome)
    requires base % WINDOW == 0 && base <= n < base + WINDOW && (n + 1) * FRSIZE < |data|
    requires i < |r.slots| && r.slots[i] == Some(Held(src, id, data, n)) && NotBefore(r.slots, src, id, i)
    ensures out == Receive(r, Nth(src, id, data, base, n), PLENTY)
    ensures out.rcv == r.(slots := r.slots[i := Some(Held(src, id, data, n + 1))]) && out.delivered == None
    ensures n + 1 == base + WINDOW ==> out.acks == [Ack(src, id, (n + 1) * FRSIZE, 0)]
  {
    var f := Nth(src, id, data, base, n);
    out := Receive(r, f, PLENTY);
    NextArrival(r, i, f);
    HeldExtends(src, id, data, n, n - base);
  }

  /** The full frames of a window arrive in order, and are added to the first `n` of the packet. */
  lemma {:induction false} ArriveInOrder(o: Sys, s: Sys, src: Source, id: nat, data: seq<byte>, i: nat, base: nat, n: nat, m: nat)
    returns (s': Sys)
    requires From(o, s) && base % WINDOW == 0 && base <= n <= m <= base + WINDOW && m * FRSIZE < |data|
    requires i < |s.rcv.slots| && s.rcv.slots[i] == Some(Held(src, id, data, n)) && NotBefore(s.rcv.slots, src, id, i)
    requires forall j :: n <= j < m ==> Nth(src, id, data, base, j) in s.frames
    ensures From(o, s') && s' == s.(rcv := s'.rcv, acks := s'.acks) && s.acks <= s'.acks
    ensures s'.rcv == s.rcv.(slots := s.rcv.slots[i := Some(Held(src, id, data, m))])
    ensures n < m == base + WINDOW ==> Ack(src, id, m * FRSIZE, 0) in s'.acks
    decreases m - n
  {
    if n == m {
      s' := s;
    } else {
      var s1 := OneArrives(o, s, src, id, data, i, base, n);
      s' := ArriveInOrder(o, s1, src, id, data, i, base, n + 1, m);
      assert s1.rcv.slots[i := Some(Held(src, id, data, m))] == s.rcv.slots[i := Some(Held(src, id, data, m))];
    }
  }

  lemma {:induction false} HeldBytes(src: Source, id: nat, data: seq<byte>, n: nat)
    requires n * FRSIZE <= |data|
    ensures Concat(Held(src, id, data, n).frames) == data[..n * FRSIZE]
    decreases n
  {
    if n > 0 {
      var fs := Held(src, id, data, n - 1).frames;
      var f := data[(n - 1) * FRSIZE..n * FRSIZE];
      HeldBytes(src, id, data, n - 1);
      ConcatSnoc(fs, f);
      assert Held(src, id, data, n).frames == fs + [f];
      assert data[..(n - 1) * FRSIZE] + f == data[..n * FRSIZE];
    }
  }

  /** No acknowledgement gets through: the second timeout makes the transmitter give the packet up. */
  lemma TimesOut(o: Sys, s: Sys, src: Source, t: Tx) returns (s': Sys)
    requires From(o, s) && InTx(s, src) && s.senders[src].tx.value == t
    requires t.phase == Asleep(0) && t.startFrame < |t.frames|
    ensures From(o, s')
    ensures s' == With(s, src, t.(status := TxComplete, timedOut := true, phase := Leaving), s.frames)
  {
    var t1 := t.(phase := Asleep(1));
    s' := SleepsAgain(o, s, src, t);
    FromStep(o, s', Wake(src, true));
    s' := Next(s', Wake(src, true));
    var launching := t.(phase := Launching(2));
    var done := t.(status := TxComplete, timedOut := true, phase := WindowDone);
    var leaving := done.(phase := Leaving);
    LeadsNowhere(leaving);
    LeadsQuietly(done, leaving, leaving, {});
    LeadsQuietly(launching, done, leaving, {});
    WithAgain(s, src, t1, s.frames, launching, s.frames);
    Transmits(o, s', src, leaving, {});
    WithAgain(s, src, launching, s.frames, leaving, s.frames + {});
    s' := With(s', src, leaving, s.frames + {});
    assert s.frames + {} == s.frames;
  }

  lemma SleepsAgain(o: Sys, s: Sys, src: Source, t: Tx) returns (s': Sys)
    requires From(o, s) && InTx(s, src) && s.senders[src].tx.value == t
    requires t.phase == Asleep(0) && t.startFrame < |t.frames|
    ensures From(o, s') && s' == With(s, src, t.(phase := Asleep(1)), s.frames)
  {
    FromStep(o, s, Wake(src, true));
    s' := Next(s, Wake(src, true));
    var launching := t.(phase := Launching(1));
    assert Launched(launching)[0] == t.frames[t.startFrame];
    WithAgain(s, src, launching, s.frames, t.(phase := Asleep(1)), s.frames + {});
    RunsOnce(o, s', src, launching);
    s' := With(s', src, Work(launching), s'.frames + Emitted(launching));
    assert s.frames + {} == s.frames;
  }
}
