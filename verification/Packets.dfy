/** The vocabulary shared by both ends of the packet transport: addresses, frames and
    acknowledgements as they travel on the wire, and the arithmetic of cutting a packet
    into frames. */
module Packets {
  import opened Basics

  /** Payload bytes carried by a full frame. */
  const FRSIZE: nat := 1438
  /** Frames in a full window. */
  const WINDOW: nat := 8
  /** Reassembly slots of the receiving host. */
  const MAXACTIVE: nat := 100
  /** Buckets of the table that remembers the last packet of each source. */
  const MAXINDEX: nat := 50

  datatype Source = Source(host: nat, port: nat, kind: int)

  datatype Frame = Frame(src: Source, id: nat, length: nat, offset: nat, seqno: nat, payload: seq<byte>)

  datatype Ack = Ack(dest: Source, id: nat, offset: nat, seqno: nat)

  /** Number of frames a packet of the given length is cut into. */
  function FrameCount(length: nat): nat {
    (length + FRSIZE - 1) / FRSIZE
  }

  /** Payload sizes of a packet's first frames: all full, but for the packet's last. */
  predicate Sized(fs: seq<seq<byte>>, length: nat) {
    forall i :: 0 <= i < |fs| ==> |fs[i]| == Min(FRSIZE, length - i * FRSIZE)
  }

  /** The bytes of a list of frame payloads, in order. */
  function Concat(fs: seq<seq<byte>>): seq<byte> {
    if fs == [] then [] else Concat(fs[..|fs| - 1]) + fs[|fs| - 1]
  }

  lemma ConcatSnoc(fs: seq<seq<byte>>, f: seq<byte>)
    ensures Concat(fs + [f]) == Concat(fs) + f
  {
    assert (fs + [f])[..|fs|] == fs;
  }

  lemma {:induction false} ConcatCons(f: seq<byte>, fs: seq<seq<byte>>)
    ensures Concat([f] + fs) == f + Concat(fs)
  {
    if fs == [] {
      assert [f] + fs == [f] && [f][..0] == [];
    } else {
      assert ([f] + fs)[..|fs|] == [f] + fs[..|fs| - 1];
      ConcatCons(f, fs[..|fs| - 1]);
    }
  }

  /** Smallest index from `i` on whose element satisfies `p`, or the length of `s`. */
  function FirstFrom<T>(s: seq<T>, p: T -> bool, i: nat): (k: nat)
    requires i <= |s|
    ensures i <= k <= |s|
    ensures forall j :: i <= j < k ==> !p(s[j])
    ensures k < |s| ==> p(s[k])
    decreases |s| - i
  {
    if i == |s| || p(s[i]) then i else FirstFrom(s, p, i + 1)
  }
}
