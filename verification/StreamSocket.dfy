/** Reading a stream out of the packets queued at a socket. */
module StreamSocket {
  import opened Basics
  import opened Packets
  import opened Assembler
  import opened Protocol
  import opened TransportSafety
  import opened TransportWindows

  /** A queued packet, read up to `off`. A packet sent from this host is contiguous; one that came over
      the network is the list of its frames that are not entirely read. */
  datatype RcvPacket =
    | Contiguous(data: seq<byte>, off: nat)
    | Framed(length: nat, frames: seq<seq<byte>>, off: nat)

  function Length(p: RcvPacket): nat {
    if p.Contiguous? then |p.data| else p.length
  }

  /** The frames left are those from the frame that holds the next byte on. */
  predicate WellFormed(p: RcvPacket) {
    var ok :=
      && p.off <= Length(p)
      && (p.Framed? ==>
            && Sized(p.frames, p.length - (p.off - p.off % FRSIZE))
            && |p.frames| == if p.off < p.length then FrameCount(p.length - (p.off - p.off % FRSIZE)) else 0);
    ok
  }

  function Remaining(p: RcvPacket): seq<byte> {
    if p.Contiguous? then p.data[Min(p.off, |p.data|)..]
    else if p.frames == [] || |p.frames[0]| < p.off % FRSIZE then []
    else p.frames[0][p.off % FRSIZE..] + Concat(p.frames[1..])
  }

  lemma {:induction false} SizedConcat(fs: seq<seq<byte>>, length: nat)
    requires Sized(fs, length) && |fs| == FrameCount(length)
    ensures |Concat(fs)| == length
    decreases |fs|
  {
    if fs != [] {
      SizedPrefix(fs, length, |fs| - 1);
    }
  }

  lemma {:induction false} SizedPrefix(fs: seq<seq<byte>>, length: nat, n: nat)
    requires Sized(fs, length) && |fs| == FrameCount(length) && n < |fs|
    ensures |Concat(fs[..n])| == n * FRSIZE
    decreases n
  {
    if n > 0 {
      SizedPrefix(fs, length, n - 1);
      assert fs[..n][..n - 1] == fs[..n - 1];
    }
  }

  lemma RemainingLength(p: RcvPacket)
    requires WellFormed(p)
    ensures |Remaining(p)| == Length(p) - p.off
  {
    if p.Framed? && p.frames != [] {
      var left := p.length - (p.off - p.off % FRSIZE);
      SizedConcat(p.frames, left);
      ConcatCons(p.frames[0], p.frames[1..]);
      assert p.frames == [p.frames[0]] + p.frames[1..];
    }
  }

  predicate QueueOk(q: seq<RcvPacket>) {
    forall i :: 0 <= i < |q| ==> WellFormed(q[i])
  }

  function Pending(q: seq<RcvPacket>): seq<byte> {
    if q == [] then [] else Remaining(q[0]) + Pending(q[1..])
  }

  lemma {:induction false} PendingSnoc(q: seq<RcvPacket>, p: RcvPacket)
    ensures Pending(q + [p]) == Pending(q) + Remaining(p)
    decreases |q|
  {
    if q == [] {
      assert q + [p] == [p] && [p][1..] == [];
    } else {
      assert (q + [p])[1..] == q[1..] + [p];
      PendingSnoc(q[1..], p);
    }
  }

  /** One round of the copy loop over frames: `n` bytes of the first frame are read. */
  function ReadFrame(p: RcvPacket, n: nat): RcvPacket
    requires p.Framed? && p.frames != []
  {
    p.(off := p.off + n, frames := if p.off % FRSIZE + n == |p.frames[0]| then p.frames[1..] else p.frames)
  }

  lemma ReadFrameOk(p: RcvPacket, n: nat)
    requires WellFormed(p) && p.Framed? && p.frames != []
    requires 0 < n <= |p.frames[0]| - p.off % FRSIZE
    ensures WellFormed(ReadFrame(p, n))
    ensures n <= |Remaining(p)| && Remaining(p)[..n] == p.frames[0][p.off % FRSIZE..][..n]
    ensures Remaining(ReadFrame(p, n)) == Remaining(p)[n..]
  {
    if p.off % FRSIZE + n < |p.frames[0]| {
      FramePartlyRead(p, n);
    } else if |p.frames| > 1 {
      FrameRead(p, n);
    } else {
      LastFrameRead(p, n);
    }
  }

  lemma SameFrame(off: nat, n: nat)
    requires off % FRSIZE + n < FRSIZE
    ensures (off + n) % FRSIZE == off % FRSIZE + n
  {
  }

  lemma NextFrameStarts(off: nat, n: nat)
    requires off % FRSIZE + n == FRSIZE
    ensures (off + n) % FRSIZE == 0
  {
  }

  lemma DropFront(a: seq<byte>, c: seq<byte>, k: nat, n: nat)
    requires k + n <= |a|
    ensures (a[k..] + c)[n..] == a[k + n..] + c
  {
  }

  lemma FramePartlyRead(p: RcvPacket, n: nat)
    requires WellFormed(p) && p.Framed? && p.frames != [] && 0 < n < |p.frames[0]| - p.off % FRSIZE
    ensures WellFormed(ReadFrame(p, n)) && Remaining(ReadFrame(p, n)) == Remaining(p)[n..]
  {
    var base, k := p.off - p.off % FRSIZE, p.off % FRSIZE;
    SizedFirst(p.frames, p.length - base);
    SameFrame(p.off, n);
    var p' := Framed(p.length, p.frames, p.off + n);
    assert p' == ReadFrame(p, n) && p'.off - p'.off % FRSIZE == base && p'.off % FRSIZE == k + n;
    DropFront(p.frames[0], Concat(p.frames[1..]), k, n);
  }

  lemma SizedFirst(fs: seq<seq<byte>>, length: nat)
    requires Sized(fs, length) && fs != []
    ensures |fs[0]| == Min(FRSIZE, length)
  {
    assert |fs[0]| == Min(FRSIZE, length - 0 * FRSIZE);
  }

  lemma ConcatRest(fs: seq<seq<byte>>)
    requires fs != []
    ensures Concat(fs) == fs[0] + Concat(fs[1..])
  {
    ConcatCons(fs[0], fs[1..]);
    assert fs == [fs[0]] + fs[1..];
  }

  lemma SizedRest(fs: seq<seq<byte>>, length: nat)
    requires Sized(fs, length) && |fs| == FrameCount(length) && |fs| > 1
    ensures |fs[0]| == FRSIZE < length && Sized(fs[1..], length - FRSIZE) && |fs[1..]| == FrameCount(length - FRSIZE)
  {
    var rest := fs[1..];
    assert forall i :: 0 <= i < |rest| ==> rest[i] == fs[i + 1];
  }

  lemma FrameRead(p: RcvPacket, n: nat)
    requires WellFormed(p) && p.Framed? && |p.frames| > 1 && 0 < n == |p.frames[0]| - p.off % FRSIZE
    ensures WellFormed(ReadFrame(p, n)) && Remaining(ReadFrame(p, n)) == Remaining(p)[n..]
  {
    SizedRest(p.frames, p.length - (p.off - p.off % FRSIZE));
    NextFrameStarts(p.off, n);
    ConcatRest(p.frames[1..]);
    DropFront(p.frames[0], Concat(p.frames[1..]), p.off % FRSIZE, n);
  }

  lemma LastFrameRead(p: RcvPacket, n: nat)
    requires WellFormed(p) && p.Framed? && |p.frames| == 1 && 0 < n == |p.frames[0]| - p.off % FRSIZE
    ensures WellFormed(ReadFrame(p, n)) && Remaining(ReadFrame(p, n)) == Remaining(p)[n..]
  {
    assert p.frames[1..] == [];
  }

  datatype ReadResult = Closed | WouldBlock | Bytes(data: seq<byte>)

  class Socket {
    var peerClosed: bool
    var rcvq: seq<RcvPacket>
    /** Every byte ever queued at this socket, and every byte ever handed to a reader. */
    ghost var arrived: seq<byte>
    ghost var consumed: seq<byte>

    ghost predicate Valid()
      reads this
    {
      var ok := QueueOk(rcvq) && consumed + Pending(rcvq) == arrived;
      ok
    }

    constructor ()
      ensures Valid() && rcvq == [] && arrived == [] && consumed == [] && !peerClosed
    {
      peerClosed, rcvq, arrived, consumed := false, [], [], [];
    }

    /** Queues a complete packet behind the ones already there. */
    method Deliver(p: RcvPacket)
      requires Valid() && WellFormed(p)
      modifies this
      ensures Valid() && rcvq == old(rcvq) + [p] && arrived == old(arrived) + Remaining(p)
      ensures consumed == old(consumed) && peerClosed == old(peerClosed)
    {
      QueuedBehind(consumed, rcvq, p, arrived);
      rcvq := rcvq + [p];
      arrived := arrived + Remaining(p);
    }

    /** One round of the copy loop: as much as possible out of the first frame left. */
    static method CopyFrame(p: RcvPacket, left: nat) returns (bytes: seq<byte>, p': RcvPacket)
      requires WellFormed(p) && p.Framed? && 0 < left <= p.length - p.off
      ensures p'.Framed? && WellFormed(p') && p'.length == p.length && p'.off == p.off + |bytes|
      ensures 0 < |bytes| <= left && |bytes| <= |Remaining(p)|
      ensures bytes == Remaining(p)[..|bytes|] && Remaining(p') == Remaining(p)[|bytes|..]
    {
      var froffset := p.off % FRSIZE;
      var frame := p.frames[0];
      var len2 := if |frame| - froffset < left then |frame| - froffset else left;
      ReadFrameOk(p, len2);
      bytes := frame[froffset..froffset + len2];
      p' := p.(frames := if froffset + len2 == |frame| then p.frames[1..] else p.frames, off := p.off + len2);
    }

    /** Copies `len` bytes out of the packet at the head of the queue. */
    static method CopyOut(p: RcvPacket, len: nat) returns (out: seq<byte>, p': RcvPacket)
      requires WellFormed(p) && len <= Length(p) - p.off
      ensures WellFormed(p') && p'.off == p.off + len && Length(p') == Length(p)
      ensures len <= |Remaining(p)| && out == Remaining(p)[..len] && Remaining(p') == Remaining(p)[len..]
    {
      RemainingLength(p);
      if p.Contiguous? {
        return p.data[p.off..p.off + len], Contiguous(p.data, p.off + len);
      }
      out, p' := CopyFrames(p, len);
    }

    /** Copies `len` bytes out of a packet that is a list of frames. */
    static method CopyFrames(p: RcvPacket, len: nat) returns (out: seq<byte>, p': RcvPacket)
      requires WellFormed(p) && p.Framed? && len <= p.length - p.off && |Remaining(p)| == p.length - p.off
      ensures p'.Framed? && WellFormed(p') && p'.off == p.off + len && p'.length == p.length
      ensures out == Remaining(p)[..len] && Remaining(p') == Remaining(p)[len..]
    {
      ghost var all := Remaining(p);
      out, p' := [], p;
      var left := len;
      while left > 0
        invariant 0 <= left <= len && p'.Framed? && WellFormed(p') && p'.length == p.length
        invariant p'.off == p.off + (len - left)
        invariant out == all[..len - left] && Remaining(p') == all[len - left..]
      {
        ghost var k := len - left;
        var bytes;
        bytes, p' := CopyFrame(p', left);
        SliceStep(all, k, |bytes|);
        out := out + bytes;
        left := left - |bytes|;
      }
    }

    /** Reads up to `room` bytes off the first packet, dropping it when that empties it. */
    method DrainHead(room: nat) returns (bytes: seq<byte>)
      requires QueueOk(rcvq) && rcvq != []
      modifies this`rcvq
      ensures QueueOk(rcvq) && bytes + Pending(rcvq) == old(Pending(rcvq)) && |bytes| <= room
      ensures |rcvq| < |old(rcvq)| || (|rcvq| == |old(rcvq)| && |bytes| == room)
    {
      var p := rcvq[0];
      var actlen := Length(p) - p.off;
      var len := if actlen < room then actlen else room;
      RemainingLength(p);
      var p';
      bytes, p' := CopyOut(p, len);
      RemainingLength(p');
      HeadRead(rcvq, len, p');
      rcvq := if p'.off == Length(p') then rcvq[1..] else [p'] + rcvq[1..];
    }

    /** Copies out of the packets at the head of the queue until the reader has enough. */
    method Drain(maxlen: nat) returns (out: seq<byte>)
      requires QueueOk(rcvq)
      modifies this`rcvq
      ensures QueueOk(rcvq) && out + Pending(rcvq) == old(Pending(rcvq))
      ensures |out| == Min(maxlen, |old(Pending(rcvq))|)
    {
      out := [];
      while rcvq != [] && |out| < maxlen
        invariant QueueOk(rcvq) && |out| <= maxlen && out + Pending(rcvq) == old(Pending(rcvq))
        decreases |rcvq|, maxlen - |out|
      {
        var bytes := DrainHead(maxlen - |out|);
        Regroup(out, bytes, Pending(rcvq));
        out := out + bytes;
      }
    }

    /** Reads at most `maxlen` bytes. */
    method RecvStream(maxlen: nat) returns (r: ReadResult)
      requires Valid()
      modifies this
      ensures Valid() && arrived == old(arrived) && peerClosed == old(peerClosed)
      ensures r == Closed <==> peerClosed
      ensures r == WouldBlock <==> !peerClosed && old(rcvq) == []
      ensures r.Bytes? ==> consumed == old(consumed) + r.data && |r.data| == Min(maxlen, |old(Pending(rcvq))|)
      ensures !r.Bytes? ==> consumed == old(consumed) && rcvq == old(rcvq)
    {
      if !peerClosed && rcvq == [] {
        return WouldBlock;
      }
      if peerClosed {
        return Closed;
      }
      var out := Drain(maxlen);
      Regroup(consumed, out, Pending(rcvq));
      consumed := consumed + out;
      return Bytes(out);
    }
  }

  lemma SliceStep(s: seq<byte>, k: nat, n: nat)
    requires k + n <= |s|
    ensures s[..k] + s[k..][..n] == s[..k + n] && s[k..][n..] == s[k + n..]
  {
  }

  lemma Regroup(a: seq<byte>, b: seq<byte>, c: seq<byte>)
    ensures (a + b) + c == a + (b + c)
  {
  }

  lemma QueuedBehind(consumed: seq<byte>, q: seq<RcvPacket>, p: RcvPacket, arrived: seq<byte>)
    requires consumed + Pending(q) == arrived
    ensures consumed + Pending(q + [p]) == arrived + Remaining(p)
  {
    PendingSnoc(q, p);
    Regroup(consumed, Pending(q), Remaining(p));
  }

  lemma PendingCons(p: RcvPacket, t: seq<RcvPacket>)
    ensures Pending([p] + t) == Remaining(p) + Pending(t)
  {
    assert ([p] + t)[1..] == t;
  }

  lemma SplitAt(s: seq<byte>, k: nat, t: seq<byte>)
    requires k <= |s|
    ensures s[..k] + (s[k..] + t) == s + t
    ensures s[k..] == [] ==> s[..k] + t == s + t
  {
    assert s[..k] + s[k..] == s;
  }

  /** Reading `len` bytes off the first packet of a queue. */
  lemma HeadRead(q: seq<RcvPacket>, len: nat, p': RcvPacket)
    requires q != [] && len <= |Remaining(q[0])| && Remaining(p') == Remaining(q[0])[len..]
    ensures Remaining(q[0])[..len] + Pending([p'] + q[1..]) == Pending(q)
    ensures Remaining(p') == [] ==> Remaining(q[0])[..len] + Pending(q[1..]) == Pending(q)
  {
    PendingCons(p', q[1..]);
    SplitAt(Remaining(q[0]), len, Pending(q[1..]));
  }

  // ---- From the sender's packet to the reader's bytes ----

  /** In every run without a tearing restart, every packet the transport hands over is a well-formed queue
      entry whose unread bytes are the packet its source submitted. */
  lemma DeliveredPacketReadsAsSent(states: seq<Sys>, steps: seq<Step>, i: nat)
    requires IsRun(states, steps) && !states[|steps|].tainted && i < |states[|steps|].delivered|
    requires forall k :: 0 <= k < |steps| ==> !Tears(states[k], steps[k])
    ensures var s := states[|steps|];
            var a := s.delivered[i];
            WellFormed(Entry(a)) && Key(a.src, a.id) in s.sent && Remaining(Entry(a)) == s.sent[Key(a.src, a.id)]
  {
    RunKeepsInv(states, steps);
    RunKeepsRegular(states, steps);
    var s := states[|steps|];
    assert AssemblyOk(s.sent, s.delivered[i]) && RegularAssembly(s.delivered[i]);
    RegularReadsAsSent(s.sent, s.delivered[i]);
  }

  /** A delivered packet as it is queued at its socket. */
  function Entry(a: Assembly): RcvPacket {
    Framed(a.length, a.frames, 0)
  }

  lemma RegularReadsAsSent(sent: map<Key, seq<byte>>, a: Assembly)
    requires AssemblyOk(sent, a) && a.rcvd == a.length && RegularAssembly(a)
    ensures WellFormed(Entry(a)) && Remaining(Entry(a)) == sent[Key(a.src, a.id)]
  {
    if a.frames != [] {
      ConcatRest(a.frames);
    }
  }

  /** A packet torn into one byte and the rest: once the byte is read, the loop takes the next one out of
      the middle of the second frame and the byte in between is never read. */
  lemma TornPacketSkipsAByte(data: seq<byte>)
    requires |data| == FRSIZE + 1
    ensures var p := Framed(FRSIZE + 1, [data[..1], data[1..]], 0);
            !WellFormed(p) && Remaining(ReadFrame(p, 1)) == data[2..]
  {
    var p := Framed(FRSIZE + 1, [data[..1], data[1..]], 0);
    assert |p.frames[0]| == 1;
    assert ReadFrame(p, 1).frames == [data[1..]] && [data[1..]][1..] == [];
  }

  // ---- From end to end ----

  /** The bytes queued at the socket that gets the packets of `src`. */
  function QueuedBytes(d: seq<Assembly>, src: Source): seq<byte> {
    if d == [] then [] else
      var last := d[|d| - 1];
      QueuedBytes(d[..|d| - 1], src) + if last.src == src then Remaining(Entry(last)) else []
  }

  /** The packet numbers of `src` delivered, in order of delivery. */
  function Numbers(d: seq<Assembly>, src: Source): seq<nat> {
    if d == [] then [] else
      var last := d[|d| - 1];
      Numbers(d[..|d| - 1], src) + if last.src == src then [last.id] else []
  }

  /** What `src` submitted under these numbers, one packet after the other. */
  function SentUnder(sent: map<Key, seq<byte>>, src: Source, ids: seq<nat>): seq<byte> {
    if ids == [] then [] else
      var k := Key(src, ids[|ids| - 1]);
      SentUnder(sent, src, ids[..|ids| - 1]) + if k in sent then sent[k] else []
  }

  predicate Increasing(ids: seq<nat>) {
    forall i, j :: 0 <= i < j < |ids| ==> ids[i] < ids[j]
  }

  lemma {:induction false} QueuedIsSent(sent: map<Key, seq<byte>>, d: seq<Assembly>, src: Source)
    requires forall i :: 0 <= i < |d| ==> Key(d[i].src, d[i].id) in sent && Remaining(Entry(d[i])) == sent[Key(d[i].src, d[i].id)]
    ensures QueuedBytes(d, src) == SentUnder(sent, src, Numbers(d, src))
    decreases |d|
  {
    if d != [] {
      var rest, last := d[..|d| - 1], d[|d| - 1];
      QueuedIsSent(sent, rest, src);
      var ids := Numbers(rest, src);
      if last.src == src {
        assert (ids + [last.id])[..|ids|] == ids;
      } else {
        assert Numbers(d, src) == ids;
      }
    }
  }

  lemma {:induction false} NumbersIncrease(d: seq<Assembly>, src: Source)
    requires IdsIncrease(d)
    ensures Increasing(Numbers(d, src))
    ensures forall id :: id in Numbers(d, src) ==> exists i :: 0 <= i < |d| && d[i].src == src && d[i].id == id
    decreases |d|
  {
    if d != [] {
      var rest := d[..|d| - 1];
      NumbersIncrease(rest, src);
      var ids := Numbers(rest, src);
      forall i, j | 0 <= i < j < |Numbers(d, src)| ensures Numbers(d, src)[i] < Numbers(d, src)[j] {
        if j == |ids| {
          assert ids[i] in ids;
        }
      }
      forall id | id in Numbers(d, src) ensures exists i :: 0 <= i < |d| && d[i].src == src && d[i].id == id {
        if id in Numbers(rest, src) {
          var i :| 0 <= i < |rest| && rest[i].src == src && rest[i].id == id;
          assert d[i].id == id;
        } else {
          assert d[|d| - 1].id == id;
        }
      }
    }
  }

  /** From end to end: over every run without reuse, tearing restart or completion out of order, whatever
      has been read from a socket that gets the packets of `src` is a beginning of what `src` submitted
      under the delivered numbers, and these increase: no byte is lost within a packet, altered, repeated
      or moved. */
  lemma StreamReadsAsSent(states: seq<Sys>, steps: seq<Step>, src: Source, sock: Socket)
    requires IsRun(states, steps) && !states[|steps|].tainted
    requires forall k :: 0 <= k < |steps| ==> !Tears(states[k], steps[k]) && CompletesInOrder(states[k], steps[k])
    requires sock.Valid() && sock.arrived == QueuedBytes(states[|steps|].delivered, src)
    ensures var s := states[|steps|];
            var ids := Numbers(s.delivered, src);
            Increasing(ids) && sock.consumed <= SentUnder(s.sent, src, ids)
  {
    var s := states[|steps|];
    DeliveredIdsIncrease(states, steps);
    NumbersIncrease(s.delivered, src);
    forall i | 0 <= i < |s.delivered|
      ensures Key(s.delivered[i].src, s.delivered[i].id) in s.sent
      ensures Remaining(Entry(s.delivered[i])) == s.sent[Key(s.delivered[i].src, s.delivered[i].id)]
    {
      DeliveredPacketReadsAsSent(states, steps, i);
    }
    QueuedIsSent(s.sent, s.delivered, src);
    assert sock.consumed <= sock.consumed + Pending(sock.rcvq);
  }

  /** What happens at a socket: the next packet is handed over by the transport, or a reader asks for bytes. */
  datatype Event = Arrives | Reads(maxlen: nat)

  function Arrivals(events: seq<Event>): nat {
    if events == [] then 0 else Arrivals(events[..|events| - 1]) + if events[|events| - 1] == Arrives then 1 else 0
  }

  lemma {:induction false} ArrivalsNext(events: seq<Event>, i: nat)
    requires i < |events|
    ensures Arrivals(events[..i + 1]) == Arrivals(events[..i]) + if events[i] == Arrives then 1 else 0
    ensures Arrivals(events[..i + 1]) <= Arrivals(events)
    decreases |events| - i
  {
    assert events[..i + 1][..i] == events[..i];
    if i + 1 < |events| {
      ArrivalsNext(events, i + 1);
    } else {
      assert events[..i + 1] == events;
    }
  }

  /** The socket for the packets of `src` over any such history: what has been queued there is what was handed over. */
  method Serve(sock: Socket, d: seq<Assembly>, src: Source, events: seq<Event>)
    requires sock.Valid() && sock.arrived == [] && Arrivals(events) <= |d|
    requires forall i :: 0 <= i < |d| && d[i].src == src ==> WellFormed(Entry(d[i]))
    modifies sock
    ensures sock.Valid() && sock.arrived == QueuedBytes(d[..Arrivals(events)], src)
  {
    var n := 0;
    assert d[..0] == [] && events[..0] == [];
    for i := 0 to |events|
      invariant sock.Valid() && n == Arrivals(events[..i]) <= |d| && sock.arrived == QueuedBytes(d[..n], src)
    {
      ArrivalsNext(events, i);
      if events[i] == Arrives {
        assert d[..n + 1][..n] == d[..n];
        if d[n].src == src {
          sock.Deliver(Entry(d[n]));
        }
        n := n + 1;
      } else {
        var r := sock.RecvStream(events[i].maxlen);
      }
    }
    assert events[..|events|] == events;
  }

  /** From a run of the transport to the reader: however readers and packets come together at the socket. */
  method ServeRun(ghost states: seq<Sys>, ghost steps: seq<Step>, d: seq<Assembly>, src: Source, events: seq<Event>) returns (sock: Socket)
    requires IsRun(states, steps) && !states[|steps|].tainted && d == states[|steps|].delivered && Arrivals(events) == |d|
    requires forall k :: 0 <= k < |steps| ==> !Tears(states[k], steps[k]) && CompletesInOrder(states[k], steps[k])
    ensures sock.Valid() && Increasing(Numbers(d, src)) && sock.consumed <= SentUnder(states[|steps|].sent, src, Numbers(d, src))
  {
    sock := new Socket();
    forall i | 0 <= i < |d| ensures WellFormed(Entry(d[i])) {
      DeliveredPacketReadsAsSent(states, steps, i);
    }
    Serve(sock, d, src, events);
    assert d[..|d|] == d;
    StreamReadsAsSent(states, steps, src, sock);
  }
}
