/** Where the transport's guarantees end: reachable states, in small concrete runs, in which a promise
    kept by every run of the right kind is broken. */
module TransportLimits {
  import opened Basics
  import opened Packets
  import opened Assembler
  import opened Transmitter
  import opened Protocol
  import opened TransportWindows
  import opened TransportRuns

  /** One socket, with nothing submitted yet. */
  function Origin(src: Source): Sys {
    Sys(map[src := Sender(0, [], None, 0)], [], false, Receiver(Idle(), map[]), {}, {}, map[], [])
  }

  lemma Begun(src: Source, s: Sys)
    requires From(Origin(src), s)
    ensures Reachable(s)
  {
    FromInitial(Origin(src), s);
  }

  /** The transmitter has just taken the first packet of `src`. */
  lemma TakenUp(src: Source, data: seq<byte>, nonblocking: bool) returns (s: Sys)
    requires data != []
    ensures From(Origin(src), s) && !s.tainted && s.orphans == [] && s.rcv == Receiver(Idle(), map[])
    ensures src in s.senders && s.senders[src] == Sender(1, [], Some(Initial(src, 1, data, nonblocking)), 1)
    ensures s.frames == {} && s.acks == {} && s.sent == map[Key(src, 1) := data] && s.delivered == []
  {
    s := Origin(src);
    FromSelf(s);
    FromStep(Origin(src), s, Submit(src, data, nonblocking));
    s := Next(s, Submit(src, data, nonblocking));
    FromStep(Origin(src), s, Take(src));
    s := Next(s, Take(src));
  }

  /** The first window of the first packet of `src` is out, its transmitter asleep, nothing has arrived. */
  lemma FirstWindow(src: Source, data: seq<byte>, nonblocking: bool, w: Tx) returns (s: Sys)
    requires data != [] && w == FillWindow(OpenWindow(Initial(src, 1, data, nonblocking)))
    ensures From(Origin(src), s) && !s.tainted && s.orphans == [] && s.rcv == Receiver(Idle(), map[])
    ensures src in s.senders && s.senders[src] == Sender(1, [], Some(Sealed(w)), 1)
    ensures s.frames == SetOf(w.frames) && s.acks == {} && s.sent == map[Key(src, 1) := data] && s.delivered == []
  {
    s := TakenUp(src, data, nonblocking);
    TransmitsWindow(Origin(src), s, src, w);
    s := With(s, src, Sealed(w), s.frames + SetOf(w.frames));
  }

  /** More than a full window of data fills the window with the packet's first eight frames. */
  lemma FullWindow(src: Source, data: seq<byte>, nonblocking: bool, w: Tx)
    requires |data| > WINDOW * FRSIZE && w == FillWindow(OpenWindow(Initial(src, 1, data, nonblocking)))
    ensures |w.frames| == WINDOW && w.curPos == WINDOW * FRSIZE
    ensures w == Initial(src, 1, data, nonblocking).(frames := w.frames, curPos := w.curPos, phase := Building)
    ensures forall j :: 0 <= j < WINDOW ==> Piece(src, 1, data, j * FRSIZE, j) == w.frames[j]
  {
    var u := OpenWindow(Initial(src, 1, data, nonblocking));
    FilledCount(u);
    FilledWindow(u);
    FilledRest(u);
    forall j | 0 <= j < WINDOW ensures Piece(src, 1, data, j * FRSIZE, j) == w.frames[j] {
      FilledFrame(u, w, j, j * FRSIZE);
    }
  }

  /** The second frame of a packet longer than a window overtakes the first, so that a request to restart
      from the beginning is sent; then the whole window arrives in order. */
  lemma OvertakenWindow(src: Source, data: seq<byte>, nonblocking: bool, w: Tx) returns (s: Sys)
    requires |data| > WINDOW * FRSIZE && w == FillWindow(OpenWindow(Initial(src, 1, data, nonblocking)))
    ensures From(Origin(src), s) && !s.tainted && s.orphans == []
    ensures src in s.senders && s.senders[src] == Sender(1, [], Some(Sealed(w)), 1)
    ensures s.rcv == Receiver(Idle()[0 := Some(Held(src, 1, data, WINDOW))], map[])
    ensures s.frames == SetOf(w.frames) && s.sent == map[Key(src, 1) := data] && s.delivered == []
    ensures Ack(src, 1, 0, 0) in s.acks && Ack(src, 1, WINDOW * FRSIZE, 0) in s.acks
  {
    s := FirstWindow(src, data, nonblocking, w);
    FullWindow(src, data, nonblocking, w);
    var f := Piece(src, 1, data, FRSIZE, 1);
    assert f == w.frames[1];
    FirstArrival(s.rcv, f, 0);
    var o := Receive(s.rcv, f, PLENTY);
    Arrives(Origin(src), s, f, o);
    assert Fresh(f) == Held(src, 1, data, 0);
    s := Arrived(s, o);
    forall j | 0 <= j < WINDOW ensures Nth(src, 1, data, 0, j) in s.frames {
      assert Nth(src, 1, data, 0, j) == w.frames[j];
    }
    s := ArriveInOrder(Origin(src), s, src, 1, data, 0, 0, 0, WINDOW);
  }

  // ---- A restart that arrives while a window is being filled ----

  /** The ninth frame is in the buffers, the tenth step is the restart: the window that is then filled
      holds the ninth frame in front of the first seven. */
  lemma MisalignedWindow(src: Source, data: seq<byte>, t: Tx, w: Tx)
    requires |data| == WINDOW * FRSIZE + 1 && t.src == src && t.id == 1 && t.data == data
    requires t.phase == Building && |t.frames| == 1 && t.curPos == 0 && t.winPos == 0 && w == FillWindow(t)
    ensures |w.frames| == WINDOW && w.curPos == 7 * FRSIZE && w.frames[1].offset == 0
    ensures w.winPos == 0 && w.id == 1 && w.ackData == t.ackData && w.data == data
  {
    FilledCount(t);
    FilledWindow(t);
    FilledRest(t);
    FilledFrame(t, w, 1, 0);
  }

  /** The delayed request to restart finds the ninth frame in the buffers. */
  lemma RestartMidWindow(src: Source, data: seq<byte>) returns (s: Sys, t: Tx)
    requires |data| == WINDOW * FRSIZE + 1
    ensures From(Origin(src), s) && !s.tainted && src in s.senders && s.senders[src].tx == Some(t)
    ensures t.src == src && t.id == 1 && t.data == data && t.phase == Building && |t.frames| == 1
    ensures t.curPos == 0 && t.winPos == 0 && t.ackData == 0
    ensures s.rcv == Receiver(Idle()[0 := Some(Held(src, 1, data, WINDOW))], map[])
    ensures Piece(src, 1, data, 0, 0) in s.frames && Piece(src, 1, data, 2 * FRSIZE, 2) in s.frames
  {
    var w := FillWindow(OpenWindow(Initial(src, 1, data, true)));
    s := OvertakenWindow(src, data, true, w);
    FullWindow(src, data, true, w);
    assert Piece(src, 1, data, 0 * FRSIZE, 0) == w.frames[0] && Piece(src, 1, data, 2 * FRSIZE, 2) == w.frames[2];
    var a8 := Ack(src, 1, WINDOW * FRSIZE, 0);
    FromStep(Origin(src), s, AckArrives(a8));
    s := Next(s, AckArrives(a8));
    FromStep(Origin(src), s, Wake(src, false));
    s := Next(s, Wake(src, false));
    t := s.senders[src].tx.value;
    var u := OpenWindow(t);
    RoundLeads(u);
    OpenLeads(t, BuildFrame(u), {Cut(u, FrameSize(u))});
    Transmits(Origin(src), s, src, BuildFrame(u), {Cut(u, FrameSize(u))});
    s := With(s, src, BuildFrame(u), s.frames + {Cut(u, FrameSize(u))});
    var a0 := Ack(src, 1, 0, 0);
    FromStep(Origin(src), s, AckArrives(a0));
    s := Next(s, AckArrives(a0));
    t := s.senders[src].tx.value;
  }

  /** The acknowledgement can arrive, is a partial one, and names a frame that is not where it says. */
  ghost predicate Misnamed(s: Sys, src: Source, a: Ack) {
    && a.dest == src && Enabled(s, AckArrives(a))
    && var t := s.senders[src].tx.value;
    !Aligned(t) && Partial(t, a) && !NamesItsFrame(t, a)
  }

  lemma MisalignedMisnames(src: Source, t: Tx)
    requires t.id == 1 && t.ackData == 0 && t.winPos == 0 && t.curPos == 7 * FRSIZE && |t.frames| == WINDOW
    requires t.frames[1].offset == 0 && t.phase.Asleep? && |t.data| > t.curPos
    ensures var a := Ack(src, 1, FRSIZE, 1); !Aligned(t) && Partial(t, a) && !NamesItsFrame(t, a)
  {
  }

  /** The misaligned window is out. */
  lemma MisalignedOut(src: Source, data: seq<byte>) returns (s: Sys, w: Tx)
    requires |data| == WINDOW * FRSIZE + 1
    ensures From(Origin(src), s) && !s.tainted && src in s.senders && s.senders[src].tx == Some(Sealed(w))
    ensures |w.frames| == WINDOW && w.curPos == 7 * FRSIZE && w.frames[1].offset == 0
    ensures w.winPos == 0 && w.id == 1 && w.ackData == 0 && w.data == data
    ensures s.rcv == Receiver(Idle()[0 := Some(Held(src, 1, data, WINDOW))], map[])
    ensures Piece(src, 1, data, 0, 0) in s.frames && Piece(src, 1, data, 2 * FRSIZE, 2) in s.frames
  {
    var t;
    s, t := RestartMidWindow(src, data);
    w := FillWindow(t);
    MisalignedWindow(src, data, t, w);
    WindowLeads(t, w);
    var out := SetOf(w.frames[|t.frames|..]);
    Transmits(Origin(src), s, src, Sealed(w), out);
    s := With(s, src, Sealed(w), s.frames + out);
  }

  /** The window being filled when a restart arrives is no longer aligned, and an acknowledgement that
      asks for the second frame makes the transmitter go on from the first. */
  lemma MisalignedWindowHappens(src: Source, data: seq<byte>)
    requires |data| == WINDOW * FRSIZE + 1
    ensures exists s, a :: Reachable(s) && !s.tainted && Misnamed(s, src, a)
  {
    var s, w := MisalignedOut(src, data);
    s := AskForSecond(s, src, data);
    MisalignedMisnames(src, Sealed(w));
    assert Misnamed(s, src, Ack(src, 1, FRSIZE, 1));
    Begun(src, s);
  }

  /** The receiver drops the packet it was assembling and gets its first frame again. */
  lemma StartOver(s: Sys, src: Source, data: seq<byte>) returns (s': Sys)
    requires From(Origin(src), s) && |data| == WINDOW * FRSIZE + 1
    requires s.rcv == Receiver(Idle()[0 := Some(Held(src, 1, data, WINDOW))], map[])
    requires Piece(src, 1, data, 0, 0) in s.frames
    ensures From(Origin(src), s') && s' == s.(rcv := s'.rcv)
    ensures s'.rcv == Receiver(Idle()[0 := Some(Held(src, 1, data, 1))], map[])
  {
    FromStep(Origin(src), s, Expire(0));
    s' := Next(s, Expire(0));
    assert s'.rcv.slots == Idle();
    var f0 := Piece(src, 1, data, 0, 0);
    FirstArrival(s'.rcv, f0, 0);
    var o := Receive(s'.rcv, f0, PLENTY);
    Arrives(Origin(src), s', f0, o);
    s' := Arrived(s', o);
    assert Fresh(f0) == Held(src, 1, data, 0);
    HeldExtends(src, 1, data, 0, 0);
    assert s'.acks == s.acks;
  }

  /** Then its third frame arrives, and the second is asked for. */
  lemma AskForSecond(s: Sys, src: Source, data: seq<byte>) returns (s': Sys)
    requires From(Origin(src), s) && |data| == WINDOW * FRSIZE + 1
    requires s.rcv == Receiver(Idle()[0 := Some(Held(src, 1, data, WINDOW))], map[])
    requires Piece(src, 1, data, 0, 0) in s.frames && Piece(src, 1, data, 2 * FRSIZE, 2) in s.frames
    ensures From(Origin(src), s') && s'.tainted == s.tainted && s'.senders == s.senders && Ack(src, 1, FRSIZE, 1) in s'.acks
  {
    s' := StartOver(s, src, data);
    var f2 := Piece(src, 1, data, 2 * FRSIZE, 2);
    StrayArrival(s'.rcv, 0, f2);
    var o := Receive(s'.rcv, f2, PLENTY);
    Arrives(Origin(src), s', f2, o);
    s' := Arrived(s', o);
  }

  // ---- A restart that arrives with the size of the last frame in hand ----

  /** One byte more than a full frame fills the window with the packet's two frames. */
  lemma ShortWindow(src: Source, id: nat, data: seq<byte>, nonblocking: bool, w: Tx)
    requires |data| == FRSIZE + 1 && w == FillWindow(OpenWindow(Initial(src, id, data, nonblocking)))
    ensures w == Initial(src, id, data, nonblocking).(frames := w.frames, curPos := FRSIZE + 1, phase := Building)
    ensures w.frames == [Piece(src, id, data, 0, 0), Piece(src, id, data, FRSIZE, 1)]
  {
    var u := OpenWindow(Initial(src, id, data, nonblocking));
    FilledCount(u);
    FilledWindow(u);
    FilledRest(u);
    FilledFrame(u, w, 0, 0);
    FilledFrame(u, w, 1, FRSIZE);
  }

  /** The second frame overtakes the first; the request to restart reaches the sleeping transmitter, which
      starts over and stands with the last frame's size in hand. */
  lemma SizeInHand(src: Source, data: seq<byte>) returns (s: Sys, p: Tx)
    requires |data| == FRSIZE + 1
    ensures From(Origin(src), s) && !s.tainted && src in s.senders && s.senders[src].tx == Some(p)
    ensures p.src == src && p.id == 1 && p.data == data && p.phase == Placing(1) && p.retries == 2
    ensures |p.frames| == 1 && p.curPos == FRSIZE
    ensures s.rcv == Receiver(Idle()[0 := Some(Held(src, 1, data, 0))], map[]) && s.delivered == []
    ensures Ack(src, 1, 0, 0) in s.acks
  {
    var t;
    s, t := OvertakenShort(src, data);
    FromStep(Origin(src), s, Wake(src, false));
    s := Next(s, Wake(src, false));
    t := t.(phase := WindowDone);
    var u := OpenWindow(t);
    var v := BuildFrame(u);
    p := v.(phase := Placing(1));
    LeadsNowhere(p);
    LeadsQuietly(v.(phase := Shortening), p, p, {});
    LeadsQuietly(v.(phase := Measuring), v.(phase := Shortening), p, {});
    LeadsQuietly(v, v.(phase := Measuring), p, {});
    RoundLeads(u);
    LeadsTrans(u, v, p, {Cut(u, FrameSize(u))}, {});
    OpenLeads(t, p, {Cut(u, FrameSize(u))} + {});
    Transmits(Origin(src), s, src, p, {Cut(u, FrameSize(u))} + {});
    s := With(s, src, p, s.frames + ({Cut(u, FrameSize(u))} + {}));
  }

  lemma OvertakenShort(src: Source, data: seq<byte>) returns (s: Sys, t: Tx)
    requires |data| == FRSIZE + 1
    ensures From(Origin(src), s) && !s.tainted && src in s.senders && s.senders[src].tx == Some(t)
    ensures t == Initial(src, 1, data, true).(frames := t.frames, retries := 2, status := NextWindow, phase := Asleep(0))
    ensures s.rcv == Receiver(Idle()[0 := Some(Held(src, 1, data, 0))], map[]) && s.delivered == []
    ensures Ack(src, 1, 0, 0) in s.acks
  {
    var w := FillWindow(OpenWindow(Initial(src, 1, data, true)));
    s := FirstWindow(src, data, true, w);
    ShortWindow(src, 1, data, true, w);
    var f := w.frames[1];
    FirstArrival(s.rcv, f, 0);
    var o := Receive(s.rcv, f, PLENTY);
    Arrives(Origin(src), s, f, o);
    s := Arrived(s, o);
    assert Fresh(f) == Held(src, 1, data, 0);
    var a0 := Ack(src, 1, 0, 0);
    FromStep(Origin(src), s, AckArrives(a0));
    s := Next(s, AckArrives(a0));
    t := s.senders[src].tx.value;
  }

  function TornFirst(src: Source, data: seq<byte>): Frame
    requires |data| == FRSIZE + 1
  {
    Frame(src, 1, FRSIZE + 1, 0, 1, data[..1])
  }

  function TornRest(src: Source, data: seq<byte>): Frame
    requires |data| == FRSIZE + 1
  {
    Frame(src, 1, FRSIZE + 1, 1, 2, data[1..])
  }

  lemma TornLeads(src: Source, data: seq<byte>, q: Tx)
    requires |data| == FRSIZE + 1 && q.src == src && q.id == 1 && q.data == data
    requires q.phase == Placing(1) && q.curPos == 0 && |q.frames| == 1
    ensures exists y :: Leads(q, y, {TornFirst(src, data)} + {TornRest(src, data)})
  {
    var advancing := Work(q);
    var x := Work(advancing);
    assert Cut(q, 1) == TornFirst(src, data) && Cut(x, FrameSize(x)) == TornRest(src, data);
    RoundLeads(x);
    LeadsQuietly(advancing, x, BuildFrame(x), {TornRest(src, data)});
    LeadsStep(q, advancing, BuildFrame(x), {TornRest(src, data)});
  }

  /** The same request arrives once more: the first frame is cut with the last one's size, and the second
      takes up the rest. */
  lemma TornFrames(s: Sys, src: Source, data: seq<byte>, p: Tx) returns (s': Sys)
    requires |data| == FRSIZE + 1 && From(Origin(src), s) && !s.tainted && src in s.senders && s.senders[src].tx == Some(p)
    requires p.src == src && p.id == 1 && p.data == data && p.phase == Placing(1) && p.retries == 2 && |p.frames| == 1
    requires Ack(src, 1, 0, 0) in s.acks
    ensures From(Origin(src), s') && !s'.tainted && s'.rcv == s.rcv && s'.delivered == s.delivered
    ensures TornFirst(src, data) in s'.frames && TornRest(src, data) in s'.frames
  {
    var a0 := Ack(src, 1, 0, 0);
    FromStep(Origin(src), s, AckArrives(a0));
    s' := Next(s, AckArrives(a0));
    TornLeads(src, data, ProcessAck(p, a0));
    var out := {TornFirst(src, data)} + {TornRest(src, data)};
    var y :| Leads(ProcessAck(p, a0), y, out);
    Transmits(Origin(src), s', src, y, out);
    s' := With(s', src, y, s'.frames + out);
  }

  /** A packet can be delivered whose bytes are those sent, but in frames of the wrong sizes. */
  lemma TornPacketHappens(src: Source, data: seq<byte>)
    requires |data| == FRSIZE + 1
    ensures exists s, a :: Reachable(s) && !s.tainted && s.delivered == [a] && a.length == FRSIZE + 1 && a.frames == [data[..1], data[1..]]
  {
    var s, p := SizeInHand(src, data);
    s := TornFrames(s, src, data, p);
    var g0, g1 := TornFirst(src, data), TornRest(src, data);
    NextArrival(s.rcv, 0, g0);
    var o := Receive(s.rcv, g0, PLENTY);
    Arrives(Origin(src), s, g0, o);
    s := Arrived(s, o);
    LastArrival(s.rcv, 0, g1);
    o := Receive(s.rcv, g1, PLENTY);
    Arrives(Origin(src), s, g1, o);
    s := Arrived(s, o);
    assert s.delivered == [o.delivered.value];
    Begun(src, s);
  }

  // ---- A packet given up before its last window ----

  /** The first window arrives, every acknowledgement is lost, the packet is given up and its memory
      released; the loop is about to open the second window. */
  lemma GivenUpEarly(src: Source, data: seq<byte>, nonblocking: bool) returns (s: Sys, t: Tx)
    requires |data| == WINDOW * FRSIZE + 1
    ensures From(Origin(src), s) && !s.tainted && s.orphans == [Orphan(t, 0, true)]
    ensures t.src == src && t.id == 1 && t.data == data && t.curPos == WINDOW * FRSIZE && t.phase == Opening && t.frames == []
    ensures s.rcv == Receiver(Idle()[0 := Some(Held(src, 1, data, WINDOW))], map[])
    ensures s.sent == map[Key(src, 1) := data] && s.delivered == []
  {
    var w := FillWindow(OpenWindow(Initial(src, 1, data, nonblocking)));
    s := OvertakenWindow(src, data, nonblocking, w);
    FullWindow(src, data, nonblocking, w);
    s := TimesOut(Origin(src), s, src, Sealed(w));
    FromStep(Origin(src), s, Finish(src));
    s := Next(s, Finish(src));
    t := s.orphans[0].tx;
    if !nonblocking {
      FromStep(Origin(src), s, SenderFrees(0));
      s := Next(s, SenderFrees(0));
    }
  }

  function WithOrphan(s: Sys, o: Orphan, frames: set<Frame>): Sys {
    s.(orphans := [o], frames := frames)
  }

  lemma OrphanRunsOnce(src: Source, s: Sys, o: Orphan)
    requires From(Origin(src), s) && s.orphans == [o] && !o.tx.phase.Asleep? && !o.tx.phase.Leaving?
    ensures From(Origin(src), WithOrphan(s, o.(tx := Work(o.tx)), s.frames + Emitted(o.tx)))
  {
    FromStep(Origin(src), s, OrphanRuns(0));
    assert [o][0 := o.(tx := Work(o.tx))] == [o.(tx := Work(o.tx))];
  }

  lemma {:induction false} OrphanRunsOn(src: Source, s: Sys, o: Orphan, n: nat)
    requires From(Origin(src), s) && s.orphans == [o] && RunsFor(o.tx, n)
    ensures From(Origin(src), WithOrphan(s, o.(tx := WorkFor(o.tx, n)), s.frames + EmittedIn(o.tx, n)))
    decreases n
  {
    if n == 0 {
      assert WithOrphan(s, o, s.frames + {}) == s;
    } else {
      OrphanRunsOnce(src, s, o);
      var o1 := o.(tx := Work(o.tx));
      var frames := s.frames + Emitted(o.tx);
      OrphanRunsOn(src, WithOrphan(s, o1, frames), o1, n - 1);
      assert frames + EmittedIn(o1.tx, n - 1) == s.frames + EmittedIn(o.tx, n);
    }
  }

  /** Opening a window over the last byte and cutting it. */
  lemma LastByteLeads(t: Tx)
    requires t.phase == Opening && t.frames == [] && |t.data| == t.curPos + 1
    ensures exists u :: Leads(t, u, {Frame(t.src, t.id, |t.data|, t.curPos, 0, t.data[t.curPos..])})
  {
    var read := t.(phase := Opened(t.curPos));
    var u := OpenWindow(t);
    RoundLeads(u);
    var f := Cut(u, FrameSize(u));
    LeadsQuietly(read, u, BuildFrame(u), {f});
    LeadsQuietly(t, read, BuildFrame(u), {f});
    assert f == Frame(t.src, t.id, |t.data|, t.curPos, 0, t.data[t.curPos..]);
  }

  /** Somebody else is given the released memory: the frame the loop cuts next carries the new owner's
      byte under the old packet's number. */
  lemma ForeignByteSent(src: Source, data: seq<byte>, foreign: seq<byte>, nonblocking: bool) returns (s: Sys, f: Frame)
    requires |data| == |foreign| == WINDOW * FRSIZE + 1
    ensures From(Origin(src), s) && f in s.frames && f == Frame(src, 1, |data|, WINDOW * FRSIZE, 0, foreign[WINDOW * FRSIZE..])
    ensures s.rcv == Receiver(Idle()[0 := Some(Held(src, 1, data, WINDOW))], map[])
    ensures s.sent == map[Key(src, 1) := data] && s.delivered == []
  {
    var t;
    s, t := GivenUpEarly(src, data, nonblocking);
    FromStep(Origin(src), s, Reuse(0, foreign));
    s := Next(s, Reuse(0, foreign));
    var t' := t.(data := foreign);
    LastByteLeads(t');
    f := Frame(src, 1, |data|, WINDOW * FRSIZE, 0, foreign[WINDOW * FRSIZE..]);
    var u :| Leads(t', u, {f});
    var n: nat :| RunsFor(t', n) && WorkFor(t', n) == u && EmittedIn(t', n) == {f};
    OrphanRunsOn(src, s, Orphan(t', 0, true), n);
    s := WithOrphan(s, Orphan(u, 0, true), s.frames + {f});
  }

  /** Giving a packet up early, blocking or not, can make the receiver deliver under its number bytes that
      were never sent: everything but the last byte is the packet's, the last is somebody else's. */
  lemma GivingUpEarlyBreaksExactness(src: Source, data: seq<byte>, foreign: seq<byte>, nonblocking: bool)
    requires |data| == |foreign| == WINDOW * FRSIZE + 1 && data[WINDOW * FRSIZE] != foreign[WINDOW * FRSIZE]
    ensures exists s, a :: Reachable(s) && s.sent == map[Key(src, 1) := data] && s.delivered == [a]
                           && a.src == src && a.id == 1 && Concat(a.frames) == data[..WINDOW * FRSIZE] + [foreign[WINDOW * FRSIZE]] != data
  {
    var s, f := ForeignByteSent(src, data, foreign, nonblocking);
    var held := Held(src, 1, data, WINDOW);
    LastArrival(s.rcv, 0, f);
    var o := Receive(s.rcv, f, PLENTY);
    Arrives(Origin(src), s, f, o);
    s := Arrived(s, o);
    var a := o.delivered.value;
    HeldBytes(src, 1, data, WINDOW);
    ConcatSnoc(held.frames, f.payload);
    assert f.payload == [foreign[WINDOW * FRSIZE]];
    assert Concat(a.frames)[WINDOW * FRSIZE] != data[WINDOW * FRSIZE];
    assert s.delivered == [a];
    Begun(src, s);
  }

  // ---- Completion out of order ----

  /** Both frames of a packet one byte longer than a frame are on the wire. */
  predicate IsOut(s: Sys, src: Source, id: nat, data: seq<byte>)
    requires |data| == FRSIZE + 1
  {
    Piece(src, id, data, 0, 0) in s.frames && Piece(src, id, data, FRSIZE, 1) in s.frames
  }

  /** Two packets are submitted; the first is sent in full, never acknowledged and given up. */
  lemma FirstGivenUp(src: Source, data: seq<byte>) returns (s: Sys)
    requires |data| == FRSIZE + 1
    ensures From(Origin(src), s) && !s.tainted && s.rcv == Receiver(Idle(), map[]) && s.delivered == []
    ensures s.sent == map[Key(src, 1) := data, Key(src, 2) := data]
    ensures src in s.senders && s.senders[src] == Sender(2, [Queued(2, data, true)], None, 1)
    ensures IsOut(s, src, 1, data)
  {
    var w := FillWindow(OpenWindow(Initial(src, 1, data, true)));
    s := FirstWindow(src, data, true, w);
    ShortWindow(src, 1, data, true, w);
    assert w.frames[0] in s.frames && w.frames[1] in s.frames;
    FromStep(Origin(src), s, Submit(src, data, true));
    s := Next(s, Submit(src, data, true));
    s := TimesOut(Origin(src), s, src, Sealed(w));
    FromStep(Origin(src), s, Finish(src));
    s := Next(s, Finish(src));
  }

  /** Then the second is taken up and sent; nothing has arrived yet. */
  lemma TwoPacketsOut(src: Source, data: seq<byte>) returns (s: Sys)
    requires |data| == FRSIZE + 1
    ensures From(Origin(src), s) && !s.tainted && s.rcv == Receiver(Idle(), map[]) && s.delivered == []
    ensures s.sent == map[Key(src, 1) := data, Key(src, 2) := data]
    ensures IsOut(s, src, 1, data) && IsOut(s, src, 2, data)
  {
    s := FirstGivenUp(src, data);
    FromStep(Origin(src), s, Take(src));
    s := SecondOut(Next(s, Take(src)), src, data);
  }

  lemma SecondOut(s: Sys, src: Source, data: seq<byte>) returns (s': Sys)
    requires |data| == FRSIZE + 1 && From(Origin(src), s)
    requires src in s.senders && s.senders[src].tx == Some(Initial(src, 2, data, true))
    ensures From(Origin(src), s') && s' == s.(senders := s'.senders, frames := s'.frames) && s.frames <= s'.frames
    ensures IsOut(s', src, 2, data)
  {
    var w := FillWindow(OpenWindow(Initial(src, 2, data, true)));
    TransmitsWindow(Origin(src), s, src, w);
    ShortWindow(src, 2, data, true, w);
    assert w.frames[0] in SetOf(w.frames) && w.frames[1] in SetOf(w.frames);
    s' := With(s, src, Sealed(w), s.frames + SetOf(w.frames));
  }

  /** The first packet's first frame arrives, then all of the second packet, which completes. */
  lemma NewerCompletesFirst(src: Source, data: seq<byte>) returns (s: Sys)
    requires |data| == FRSIZE + 1
    ensures From(Origin(src), s) && !s.tainted
    ensures s.rcv == Receiver(Idle()[0 := Some(Held(src, 1, data, 1))], map[src := 2])
    ensures |s.delivered| == 1 && s.delivered[0] == Whole(src, 2, data)
    ensures s.sent == map[Key(src, 1) := data, Key(src, 2) := data]
    ensures IsOut(s, src, 1, data) && IsOut(s, src, 2, data)
  {
    s := TwoPacketsOut(src, data);
    s := HalfArrives(s, src, 1, data, 0);
    s := HalfArrives(s, src, 2, data, 1);
    s := RestArrives(s, src, 2, data, 1);
    assert s.rcv.slots == Idle()[0 := Some(Held(src, 1, data, 1))];
    assert s.rcv.history == map[src := 2];
  }

  /** A packet of two frames, assembled. */
  function Whole(src: Source, id: nat, data: seq<byte>): Assembly
    requires |data| == FRSIZE + 1
  {
    Extend(Held(src, id, data, 1), Piece(src, id, data, FRSIZE, 1))
  }

  lemma HalfArrives(s: Sys, src: Source, id: nat, data: seq<byte>, free: nat) returns (s': Sys)
    requires From(Origin(src), s) && |data| == FRSIZE + 1 && Piece(src, id, data, 0, 0) in s.frames
    requires LastId(s.rcv.history, src) < id && free < |s.rcv.slots| && s.rcv.slots[free].None?
    requires forall i :: 0 <= i < free ==> s.rcv.slots[i].Some?
    requires forall i :: 0 <= i < |s.rcv.slots| ==> !Matches(s.rcv.slots[i], Piece(src, id, data, 0, 0))
    ensures From(Origin(src), s') && s' == s.(rcv := s.rcv.(slots := s.rcv.slots[free := Some(Held(src, id, data, 1))]))
  {
    var f := Piece(src, id, data, 0, 0);
    FirstArrival(s.rcv, f, free);
    assert Fresh(f) == Held(src, id, data, 0);
    HeldExtends(src, id, data, 0, 0);
    Arrives(Origin(src), s, f, Receive(s.rcv, f, PLENTY));
    s' := Arrived(s, Receive(s.rcv, f, PLENTY));
    assert s'.acks == s.acks;
  }

  lemma RestArrives(s: Sys, src: Source, id: nat, data: seq<byte>, i: nat) returns (s': Sys)
    requires From(Origin(src), s) && |data| == FRSIZE + 1 && Piece(src, id, data, FRSIZE, 1) in s.frames
    requires i < |s.rcv.slots| && s.rcv.slots[i] == Some(Held(src, id, data, 1))
    requires forall j :: 0 <= j < i ==> !Matches(s.rcv.slots[j], Piece(src, id, data, FRSIZE, 1))
    ensures From(Origin(src), s')
    ensures s' == s.(rcv := Receiver(s.rcv.slots[i := None], s.rcv.history[src := id]), acks := s'.acks,
                     delivered := s.delivered + [Whole(src, id, data)])
  {
    var f := Piece(src, id, data, FRSIZE, 1);
    LastArrival(s.rcv, i, f);
    Arrives(Origin(src), s, f, Receive(s.rcv, f, PLENTY));
    s' := Arrived(s, Receive(s.rcv, f, PLENTY));
  }

  /** Two packets of one source under assembly at once: the newer completes first, the older after it,
      and late duplicates of the newer one's frames deliver it a second time. */
  lemma OutOfOrderCompletionRepeatsAPacket(src: Source, data: seq<byte>)
    requires |data| == FRSIZE + 1
    ensures exists s :: Reachable(s) && !s.tainted && s.sent == map[Key(src, 1) := data, Key(src, 2) := data]
                        && s.delivered == [Whole(src, 2, data), Whole(src, 1, data), Whole(src, 2, data)]
  {
    var s := NewerCompletesFirst(src, data);
    s := RestArrives(s, src, 1, data, 0);
    assert s.rcv.slots == Idle();
    s := HalfArrives(s, src, 2, data, 0);
    s := RestArrives(s, src, 2, data, 0);
    assert s.delivered == [Whole(src, 2, data), Whole(src, 1, data), Whole(src, 2, data)];
    Begun(src, s);
  }

  /** A completion for which there is no memory in the table of last packets is forgotten: duplicates of
      the same frames deliver the packet again. */
  lemma ForgottenCompletionRepeatsAPacket(r: Receiver, f: Frame)
    requires f.offset == 0 && f.length == |f.payload| && 0 < f.id && f.src !in r.history
    requires (forall i :: 0 <= i < |r.slots| ==> !Matches(r.slots[i], f)) && exists i :: 0 <= i < |r.slots| && IsFree(r.slots[i])
    ensures var o := Receive(r, f, Memory(true, false)); o.rcv == r && o.delivered == Some(Extend(Fresh(f), f))
  {
    var i :| 0 <= i < |r.slots| && IsFree(r.slots[i]);
    var free := FirstFrom(r.slots, IsFree, 0);
    assert free < |r.slots|;
    assert r.slots[free := Some(Fresh(f))][free := None] == r.slots;
  }

  /** Such a run: a packet of one frame is sent once, and delivered twice. */
  lemma ForgottenPacketIsRepeated(src: Source, data: seq<byte>)
    requires 0 < |data| <= FRSIZE
    ensures exists s, a :: Reachable(s) && !s.tainted && s.sent == map[Key(src, 1) := data] && s.delivered == [a, a]
                           && a.src == src && a.id == 1 && a.frames == [data]
  {
    var f := Piece(src, 1, data, 0, 0);
    assert f.payload == data;
    var s := OneFrameOut(src, data);
    s := Forgotten(src, s, f);
    s := Forgotten(src, s, f);
    var a := Extend(Fresh(f), f);
    assert a.frames == [data] && s.delivered == [a, a];
    Begun(src, s);
  }

  lemma Forgotten(src: Source, s: Sys, f: Frame) returns (s': Sys)
    requires From(Origin(src), s) && f in s.frames && s.rcv == Receiver(Idle(), map[]) && f.offset == 0 && f.length == |f.payload| && 0 < f.id
    ensures From(Origin(src), s') && s' == s.(acks := s'.acks, delivered := s.delivered + [Extend(Fresh(f), f)])
  {
    assert IsFree(s.rcv.slots[0]);
    ForgottenCompletionRepeatsAPacket(s.rcv, f);
    FromStep(Origin(src), s, FrameArrives(f, Memory(true, false)));
    s' := Next(s, FrameArrives(f, Memory(true, false)));
  }

  lemma OneFrameOut(src: Source, data: seq<byte>) returns (s: Sys)
    requires 0 < |data| <= FRSIZE
    ensures From(Origin(src), s) && !s.tainted && s.rcv == Receiver(Idle(), map[]) && s.sent == map[Key(src, 1) := data] && s.delivered == []
    ensures Piece(src, 1, data, 0, 0) in s.frames
  {
    var u := OpenWindow(Initial(src, 1, data, true));
    var w := FillWindow(u);
    FilledCount(u);
    FilledWindow(u);
    FilledFrame(u, w, 0, 0);
    s := FirstWindow(src, data, true, w);
    assert w.frames[0] in SetOf(w.frames);
  }
}
