/** The receiving end of the packet transport: reassembly slots, the table of the last
    packet id completed by each source, and the handling of one received data frame. */
module Assembler {
  import opened Basics
  import opened Packets

  /** A packet under assembly. */
  datatype Assembly = Assembly(src: Source, id: nat, length: nat, frames: seq<seq<byte>>, rcvd: nat, expSeq: nat)

  /** What the receiving host knows: its slots, and per source the id last completed. */
  datatype Receiver = Receiver(slots: seq<Option<Assembly>>, history: map<Source, nat>)

  datatype Outcome = Outcome(rcv: Receiver, acks: seq<Ack>, delivered: Option<Assembly>)

  /** Whether memory can be had for a packet's slot and for an entry of the last-packet table. */
  datatype Memory = Memory(slot: bool, node: bool)

  predicate Matches(slot: Option<Assembly>, f: Frame) {
    slot.Some? && slot.value.id == f.id && slot.value.src == f.src
  }

  predicate IsFree(slot: Option<Assembly>) {
    slot.None?
  }

  function Fresh(f: Frame): Assembly {
    Assembly(f.src, f.id, f.length, [], 0, 0)
  }

  function LastId(history: map<Source, nat>, src: Source): nat {
    if src in history then history[src] else 0
  }

  function Extend(a: Assembly, f: Frame): Assembly {
    a.(frames := a.frames + [f.payload], rcvd := a.rcvd + |f.payload|, expSeq := (a.expSeq + 1) % WINDOW)
  }

  /** The table after `id` of `src` is completed: a source already in it is updated, another needs
      memory for a new entry and is forgotten without. */
  function Record(history: map<Source, nat>, src: Source, id: nat, mem: Memory): map<Source, nat> {
    if src in history || mem.node then history[src := id] else history
  }

  /** Handling of a frame whose packet occupies slot `i`. */
  function Accept(r: Receiver, i: nat, f: Frame, mem: Memory): Outcome
    requires i < |r.slots| && r.slots[i].Some?
  {
    var a := r.slots[i].value;
    if a.rcvd == f.offset then
      var a' := Extend(a, f);
      var complete := f.length == a'.rcvd;
      var acks := if complete || a'.expSeq == 0 then [Ack(f.src, f.id, a'.rcvd, a'.expSeq)] else [];
      if complete then
        Outcome(Receiver(r.slots[i := None], Record(r.history, f.src, f.id, mem)), acks, Some(a'))
      else
        Outcome(r.(slots := r.slots[i := Some(a')]), acks, None)
    else
      Outcome(r, [Ack(f.src, f.id, a.rcvd, a.expSeq)], None)
  }

  /** Handling of one received data frame. */
  function Receive(r: Receiver, f: Frame, mem: Memory): Outcome {
    var ind := FirstFrom(r.slots, s => Matches(s, f), 0);
    if ind < |r.slots| then
      Accept(r, ind, f, mem)
    else if LastId(r.history, f.src) >= f.id then
      Outcome(r, [Ack(f.src, f.id, f.length, FrameCount(f.length) % WINDOW)], None)
    else
      var free := FirstFrom(r.slots, IsFree, 0);
      if free == |r.slots| || !mem.slot then
        Outcome(r, [], None)
      else
        Accept(r.(slots := r.slots[free := Some(Fresh(f))]), free, f, mem)
  }

  // ---- The host's data structures ----

  /** Entry of the last-packet table. */
  datatype HashNode = HashNode(src: Source, nextSeqno: nat)

  function Bucket(src: Source): (i: nat)
    ensures i < MAXINDEX
  {
    (src.host * 100 + src.port) % MAXINDEX
  }

  ghost predicate InBucket(buckets: seq<seq<HashNode>>, src: Source, id: nat)
    requires |buckets| == MAXINDEX
  {
    HashNode(src, id) in buckets[Bucket(src)]
  }

  /** The buckets hold exactly one node per remembered source, in the bucket its address hashes to. */
  ghost predicate Represents(buckets: seq<seq<HashNode>>, history: map<Source, nat>) {
    && |buckets| == MAXINDEX
    && (forall b, k :: 0 <= b < MAXINDEX && 0 <= k < |buckets[b]| ==>
          Bucket(buckets[b][k].src) == b && buckets[b][k].src in history && history[buckets[b][k].src] == buckets[b][k].nextSeqno)
    && (forall b, j, k :: 0 <= b < MAXINDEX && 0 <= j < k < |buckets[b]| ==> buckets[b][j].src != buckets[b][k].src)
    && (forall src :: src in history ==> InBucket(buckets, src, history[src]))
  }

  class Host {
    var slots: array<Option<Assembly>>
    var table: array<seq<HashNode>>
    ghost var history: map<Source, nat>

    ghost predicate Valid()
      reads this, slots, table
    {
      slots.Length == MAXACTIVE && Represents(table[..], history)
    }

    ghost function View(): Receiver
      reads this, slots
    {
      Receiver(slots[..], history)
    }

    constructor ()
      ensures Valid() && fresh(slots) && fresh(table)
      ensures View() == Receiver(seq(MAXACTIVE, _ => None), map[])
    {
      slots := new Option<Assembly>[MAXACTIVE](_ => None);
      table := new seq<HashNode>[MAXINDEX](_ => []);
      history := map[];
    }

    method PktIndex(f: Frame) returns (ind: int)
      ensures ind == -1 || 0 <= ind < slots.Length
      ensures (if ind == -1 then slots.Length else ind) == FirstFrom(slots[..], s => Matches(s, f), 0)
    {
      ghost var p := s => Matches(s, f);
      var i := 0;
      while i < slots.Length
        invariant 0 <= i <= slots.Length
        invariant FirstFrom(slots[..], p, i) == FirstFrom(slots[..], p, 0)
      {
        if slots[i].Some? && slots[i].value.id == f.id && slots[i].value.src == f.src {
          return i;
        }
        i := i + 1;
      }
      return -1;
    }

    method AllocPktIndex(f: Frame, mem: Memory) returns (ind: int)
      requires Valid()
      modifies slots
      ensures Valid()
      ensures var k := FirstFrom(old(slots[..]), IsFree, 0);
              if k == slots.Length || !mem.slot then ind < 0 && slots[..] == old(slots[..])
              else ind == k && slots[..] == old(slots[..])[k := Some(Fresh(f))]
    {
      var i := 0;
      while i < slots.Length
        invariant 0 <= i <= slots.Length
        invariant slots[..] == old(slots[..])
        invariant FirstFrom(slots[..], IsFree, i) == FirstFrom(slots[..], IsFree, 0)
      {
        if slots[i].None? {
          if !mem.slot {
            return -1;
          }
          slots[i] := Some(Fresh(f));
          return i;
        }
        i := i + 1;
      }
      return -1;
    }

    /** Position of the node of `src` in its bucket, or -1. */
    method LocateHashNode(src: Source) returns (pos: int)
      requires Valid()
      ensures -1 <= pos < |table[Bucket(src)]|
      ensures pos == -1 <==> src !in history
      ensures pos >= 0 ==> table[Bucket(src)][pos] == HashNode(src, history[src])
    {
      var nodes := table[Bucket(src)];
      assert nodes == table[..][Bucket(src)];
      var i := 0;
      while i < |nodes|
        invariant 0 <= i <= |nodes|
        invariant forall j :: 0 <= j < i ==> nodes[j].src != src
      {
        if nodes[i].src == src {
          return i;
        }
        i := i + 1;
      }
      assert src in history ==> InBucket(table[..], src, history[src]);
      return -1;
    }

    method AddHashNode(src: Source, id: nat, mem: Memory)
      requires Valid() && src !in history
      modifies this`history, table
      ensures Valid() && history == if mem.node then old(history)[src := id] else old(history)
    {
      if !mem.node {
        return;
      }
      var b := Bucket(src);
      ghost var before := table[..];
      assert before[b] == table[b];
      table[b] := [HashNode(src, id)] + table[b];
      history := history[src := id];
      assert table[..] == before[b := [HashNode(src, id)] + before[b]];
      NodeAdded(before, old(history), src, id);
    }

    method UpdateHashNode(src: Source, pos: nat, id: nat)
      requires Valid() && src in history && pos < |table[Bucket(src)]|
      requires table[Bucket(src)][pos].src == src
      modifies this`history, table
      ensures Valid() && history == old(history)[src := id]
    {
      var b := Bucket(src);
      ghost var before := table[..];
      assert before[b] == table[b];
      table[b] := table[b][pos := HashNode(src, id)];
      history := history[src := id];
      assert table[..] == before[b := before[b][pos := HashNode(src, id)]];
      NodeUpdated(before, old(history), src, pos, id);
    }

    /** Remembers `id` as the last packet completed by `src`, memory permitting. */
    method RecordCompletion(src: Source, id: nat, mem: Memory)
      requires Valid()
      modifies this`history, table
      ensures Valid() && history == Record(old(history), src, id, mem)
    {
      var pos := LocateHashNode(src);
      if pos < 0 {
        AddHashNode(src, id, mem);
      } else {
        UpdateHashNode(src, pos, id);
      }
    }

    /** Integrates a frame into the packet of slot `ind`, or refuses it as out of order. */
    method Integrate(ind: nat, f: Frame, mem: Memory) returns (acks: seq<Ack>, delivered: Option<Assembly>)
      requires Valid() && ind < slots.Length && slots[ind].Some?
      modifies this`history, slots, table
      ensures Valid()
      ensures Accept(old(View()), ind, f, mem) == Outcome(View(), acks, delivered)
    {
      acks, delivered := [], None;
      var a := slots[ind].value;
      if a.rcvd != f.offset {
        acks := [Ack(f.src, f.id, a.rcvd, a.expSeq)];
        return;
      }
      a := Extend(a, f);
      slots[ind] := Some(a);
      if f.length == a.rcvd || a.expSeq == 0 {
        acks := [Ack(f.src, f.id, a.rcvd, a.expSeq)];
      }
      if f.length == a.rcvd {
        RecordCompletion(f.src, f.id, mem);
        delivered := Some(a);
        slots[ind] := None;
      }
    }

    /** Handles a received data frame; acknowledgements and the completed packet are handed back. */
    method PacketTypeData(f: Frame, mem: Memory) returns (acks: seq<Ack>, delivered: Option<Assembly>)
      requires Valid()
      modifies this`history, slots, table
      ensures Valid()
      ensures Receive(old(View()), f, mem) == Outcome(View(), acks, delivered)
    {
      var ind := PktIndex(f);
      if ind == -1 {
        var pos := LocateHashNode(f.src);
        var nextSeqno := 0;
        if pos >= 0 {
          nextSeqno := table[Bucket(f.src)][pos].nextSeqno;
        }
        if nextSeqno >= f.id {
          return [Ack(f.src, f.id, f.length, FrameCount(f.length) % WINDOW)], None;
        }
        ind := AllocPktIndex(f, mem);
        if ind < 0 {
          return [], None;
        }
      }
      acks, delivered := Integrate(ind, f, mem);
    }

    /** The five-second assembly timer of slot `i` fires: the partial packet is dropped. */
    method RemovePkt(i: nat)
      requires Valid() && i < slots.Length
      modifies slots
      ensures Valid() && View() == old(View()).(slots := old(slots[..])[i := None])
    {
      slots[i] := None;
    }
  }

  lemma NodeAdded(buckets: seq<seq<HashNode>>, history: map<Source, nat>, src: Source, id: nat)
    requires Represents(buckets, history) && src !in history
    ensures var b := Bucket(src);
            Represents(buckets[b := [HashNode(src, id)] + buckets[b]], history[src := id])
  {
    var b := Bucket(src);
    var after := buckets[b := [HashNode(src, id)] + buckets[b]];
    var history' := history[src := id];
    forall s | s in history'
      ensures InBucket(after, s, history'[s])
    {
      if s == src {
        assert after[b][0] == HashNode(src, id);
      } else {
        assert InBucket(buckets, s, history[s]);
      }
    }
  }

  lemma NodeUpdated(buckets: seq<seq<HashNode>>, history: map<Source, nat>, src: Source, pos: nat, id: nat)
    requires Represents(buckets, history)
    requires pos < |buckets[Bucket(src)]| && buckets[Bucket(src)][pos].src == src
    ensures var b := Bucket(src);
            Represents(buckets[b := buckets[b][pos := HashNode(src, id)]], history[src := id])
  {
    var b := Bucket(src);
    var after := buckets[b := buckets[b][pos := HashNode(src, id)]];
    var history' := history[src := id];
    forall s | s in history'
      ensures InBucket(after, s, history'[s])
    {
      if s == src {
        assert after[b][pos] == HashNode(src, id);
      } else {
        assert InBucket(buckets, s, history[s]);
        var k :| 0 <= k < |buckets[Bucket(s)]| && buckets[Bucket(s)][k] == HashNode(s, history[s]);
        assert after[Bucket(s)][k] == HashNode(s, history[s]);
      }
    }
  }
}
