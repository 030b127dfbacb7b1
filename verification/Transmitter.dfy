/** The sending end of the packet transport: cutting the packet at the head of a socket's
    send queue into windows of frames, and reacting to acknowledgements. */
module Transmitter {
  import opened Basics
  import opened Packets

  datatype Status = Ready | RestartTx | NextWindow | TxComplete

  /** Where the transmitter stands in the window loop. The packet is not locked while a window is filled,
      so every read of its current position is a place of its own:
      past the retry loop; buffers emptied, the window position still to be set; the current position
      read for it; at the head of the filling loop; inside it, about to compare what is left with a full
      frame; less than that is left, about to take it as the size; size known, about to read the offset
      and fill the buffer; buffer filled, about to advance; about to queue the frames for the given try;
      asleep waiting for an acknowledgement; about to take the packet off its socket. */
  datatype Phase =
    | WindowDone
    | Opening
    | Opened(pos: nat)
    | Building
    | Measuring
    | Shortening
    | Placing(size: nat)
    | Advancing(size: nat)
    | Launching(tries: nat)
    | Asleep(tries: nat)
    | Leaving

  /** A packet in transmission. `frames` are the frame buffers filled for the current window. */
  datatype Tx = Tx(src: Source, id: nat, data: seq<byte>, nonblocking: bool, curPos: nat, winPos: nat, startFrame: nat,
                   ackData: nat, retries: nat, status: Status, timedOut: bool, frames: seq<Frame>, phase: Phase)

  /** State of a packet when the transmitter takes it from the send queue. */
  function Initial(src: Source, id: nat, data: seq<byte>, nonblocking: bool): Tx {
    Tx(src, id, data, nonblocking, 0, 0, 0, 0, 1, Ready, false, [], WindowDone)
  }

  predicate Fillable(t: Tx) {
    t.curPos < |t.data| && |t.frames| < WINDOW
  }

  predicate Over(t: Tx) {
    t.curPos == |t.data| || t.status == TxComplete
  }

  function Left(t: Tx): nat {
    if t.curPos <= |t.data| then |t.data| - t.curPos else 0
  }

  /** The frame of the given size cut at the current position. */
  function Cut(t: Tx, size: nat): Frame {
    var payload := if t.curPos + size <= |t.data| then t.data[t.curPos..t.curPos + size] else [];
    Frame(t.src, t.id, |t.data|, t.curPos, |t.frames|, payload)
  }

  /** The transmitter's next step on its own: everything but falling asleep, waking up and leaving. */
  function Work(t: Tx): Tx {
    match t.phase
    case WindowDone => if Over(t) then t.(phase := Leaving) else t.(frames := [], phase := Opening)
    case Opening => t.(phase := Opened(t.curPos))
    case Opened(p) => t.(winPos := p, phase := Building)
    case Building => if Fillable(t) then t.(phase := Measuring) else t.(startFrame := 0, phase := Launching(0))
    case Measuring => t.(phase := if Left(t) > FRSIZE then Placing(FRSIZE) else Shortening)
    case Shortening => t.(phase := Placing(Left(t)))
    case Placing(size) => t.(frames := t.frames + [Cut(t, size)], phase := Advancing(size))
    case Advancing(size) => t.(curPos := t.curPos + size, phase := Building)
    case Launching(tries) =>
      if tries >= 2 then t.(status := TxComplete, timedOut := true, phase := WindowDone)
      else if Launched(t) == [] then AfterSleep(t, tries, false)
      else t.(phase := Asleep(tries))
    case Asleep(_) => t
    case Leaving => t
  }

  /** After a sleep (or none): another try on a timeout or when a restart was asked for. */
  function AfterSleep(t: Tx, tries: nat, timeout: bool): Tx {
    if timeout || t.status == RestartTx then t.(phase := Launching(tries + 1)) else t.(phase := WindowDone)
  }

  // ---- A window filled without interference ----

  function OpenWindow(t: Tx): Tx {
    t.(frames := [], winPos := t.curPos, phase := Building)
  }

  function FrameSize(t: Tx): nat {
    Min(Left(t), FRSIZE)
  }

  function BuildFrame(t: Tx): Tx
    requires Fillable(t)
  {
    t.(frames := t.frames + [Cut(t, FrameSize(t))], curPos := t.curPos + FrameSize(t))
  }

  function FillWindow(t: Tx): Tx
    decreases WINDOW - |t.frames|
  {
    if Fillable(t) then FillWindow(BuildFrame(t)) else t
  }

  /** Undisturbed, a round of the filling loop takes four steps, or five when no more than a full frame is
      left, and cuts the next full frame or the rest of the packet. */
  lemma RoundBuildsFrame(t: Tx)
    requires t.phase == Building && Fillable(t)
    ensures Left(t) > FRSIZE ==> Work(Work(Work(Work(t)))) == BuildFrame(t)
    ensures Left(t) <= FRSIZE ==> Work(Work(Work(Work(Work(t))))) == BuildFrame(t)
  {
  }

  /** The frame buffers queued on a try. */
  function Launched(t: Tx): seq<Frame> {
    if t.startFrame < |t.frames| then t.frames[t.startFrame..] else []
  }

  /** Reaction of the packet in transmission to an acknowledgement frame. */
  function ProcessAck(t: Tx, a: Ack): Tx {
    if t.id != a.id || (t.ackData > a.offset && a.offset != 0) then t
    else if a.offset == 0 then
      if t.retries + 1 > 3 then t.(retries := t.retries + 1, status := TxComplete, timedOut := true)
      else t.(retries := t.retries + 1, winPos := 0, ackData := 0, curPos := 0, status := NextWindow)
    else
      var t1 := t.(ackData := a.offset);
      if t.winPos < a.offset < t.curPos then t1.(status := RestartTx, startFrame := a.seqno)
      else if a.offset == t.curPos then t1.(status := if a.offset == |t.data| then TxComplete else NextWindow)
      else t1
  }

  function Payloads(fs: seq<Frame>): seq<seq<byte>> {
    seq(|fs|, i requires 0 <= i < |fs| => fs[i].payload)
  }

  // ---- The transmitter's fields ----

  class SendPacket {
    const src: Source
    const id: nat
    const data: seq<byte>
    const nonblocking: bool
    var curPos: nat
    var winPos: nat
    var winSize: nat
    var curFrame: nat
    var startFrame: nat
    var ackData: nat
    var retries: nat
    var status: Status
    var timedOut: bool
    var window: array<Frame>
    ghost var phase: Phase

    ghost predicate Valid()
      reads this, window
    {
      window.Length == WINDOW && winSize <= WINDOW
    }

    ghost function View(): Tx
      requires Valid()
      reads this, window
    {
      Tx(src, id, data, nonblocking, curPos, winPos, startFrame, ackData, retries, status, timedOut, window[..winSize], phase)
    }

    constructor (src: Source, id: nat, data: seq<byte>, nonblocking: bool, filler: Frame)
      ensures Valid() && fresh(window) && View() == Initial(src, id, data, nonblocking)
    {
      this.src, this.id, this.data, this.nonblocking := src, id, data, nonblocking;
      curPos, winPos, winSize, curFrame, startFrame, ackData, retries := 0, 0, 0, 0, 0, 0, 1;
      status, timedOut, phase := Ready, false, WindowDone;
      window := new Frame[WINDOW](_ => filler);
    }

    /** One round of the window loop: fills one frame buffer. */
    method BuildOne()
      requires Valid() && curPos < |data| && winSize < WINDOW && curFrame == winSize
      modifies this, window
      ensures Valid() && window == old(window)
      ensures View() == BuildFrame(old(View()))
      ensures winSize == old(winSize) + 1 && curFrame == winSize % WINDOW
    {
      ghost var before := View();
      var frsize := if |data| - curPos > FRSIZE then FRSIZE else |data| - curPos;
      var j := curFrame;
      window[j] := Frame(src, id, |data|, curPos, winSize, data[curPos..curPos + frsize]);
      winSize := winSize + 1;
      curPos := curPos + frsize;
      curFrame := (j + 1) % WINDOW;
      assert window[..winSize] == before.frames + [Cut(before, FrameSize(before))];
    }

    /** Fills the frame buffers of the next window. */
    method BuildWindow()
      requires Valid()
      modifies this, window
      ensures Valid() && window == old(window)
      ensures View() == FillWindow(OpenWindow(old(View())))
    {
      winSize := 0;
      curFrame := 0;
      winPos := curPos;
      phase := Building;
      assert View() == OpenWindow(old(View()));
      while curPos < |data| && winSize < WINDOW
        invariant Valid() && window == old(window)
        invariant curFrame == winSize % WINDOW
        invariant FillWindow(View()) == FillWindow(OpenWindow(old(View())))
        decreases WINDOW - winSize
      {
        ghost var before := View();
        BuildOne();
        assert FillWindow(before) == FillWindow(View());
      }
    }

    /** Queues the frames of one try, in order. */
    method Launch() returns (queued: seq<Frame>)
      requires Valid()
      ensures queued == Launched(View())
    {
      queued := [];
      var i := startFrame;
      while i < winSize
        invariant startFrame <= i
        invariant i <= winSize || i == startFrame
        invariant queued == if i <= winSize then window[startFrame..i] else []
      {
        queued := queued + [window[i]];
        i := i + 1;
      }
    }

    method ProcessAckFrame(a: Ack)
      requires Valid()
      modifies this
      ensures Valid() && window == old(window)
      ensures View() == ProcessAck(old(View()), a)
    {
      if id == a.id {
        if ackData > a.offset && a.offset != 0 {
          return;
        }
        if a.offset == 0 {
          retries := retries + 1;
          if retries > 3 {
            status := TxComplete;
            timedOut := true;
          } else {
            winPos := 0;
            ackData := 0;
            curPos := 0;
            status := NextWindow;
          }
        } else {
          ackData := a.offset;
          if a.offset > winPos && a.offset < curPos {
            status := RestartTx;
            startFrame := a.seqno;
          } else if a.offset == curPos {
            if a.offset == |data| {
              status := TxComplete;
            } else {
              status := NextWindow;
            }
          }
        }
      }
    }
  }

  // ---- What a window holds ----

  lemma {:induction false} FilledWindow(t: Tx)
    requires t.curPos <= |t.data| && |t.frames| <= WINDOW
    ensures var w := FillWindow(t);
            && w.curPos == Min(t.curPos + (WINDOW - |t.frames|) * FRSIZE, |t.data|)
            && t.frames <= w.frames
            && Concat(Payloads(w.frames[|t.frames|..])) == t.data[t.curPos..w.curPos]
            && !Fillable(w)
    decreases WINDOW - |t.frames|
  {
    if Fillable(t) {
      FilledWindow(BuildFrame(t));
      FrameBefore(t, FillWindow(t).frames, FillWindow(t).curPos);
    }
  }

  /** A frame cut in front of frames that hold the packet from there on. */
  lemma FrameBefore(t: Tx, frames: seq<Frame>, end: nat)
    requires Fillable(t) && BuildFrame(t).curPos <= end <= |t.data| && BuildFrame(t).frames <= frames
    requires Concat(Payloads(frames[|t.frames| + 1..])) == t.data[BuildFrame(t).curPos..end]
    ensures Concat(Payloads(frames[|t.frames|..])) == t.data[t.curPos..end]
  {
    var f := Cut(t, FrameSize(t));
    var rest := Payloads(frames[|t.frames| + 1..]);
    assert frames[|t.frames|] == f;
    assert Payloads(frames[|t.frames|..]) == [f.payload] + rest;
    ConcatCons(f.payload, rest);
  }
}
