/**
 * SerialPacketListener: cuts the bytes of one serial read into frames at
 * SLIP END bytes (0xC0, RFC 1055) and feeds each frame to the decoder and
 * to the topology registry.
 */
module SerialListener {
  import opened Wrappers
  import opened Hex
  import opened JString
  import opened IP6Address
  import opened PacketModel
  import PacketHandler
  import Topology

  /** PACKET_DELIMITER, the SLIP END byte. */
  const Delimiter: Byte := 0xC0

  /** Position `i` closes a frame: an END byte that is the last byte or is followed by another END byte. */
  predicate IsCut(b: seq<Byte>, i: int) {
    0 <= i < |b| && b[i] == Delimiter && (i == |b| - 1 || b[i + 1] == Delimiter)
  }

  /** The frames of `b[ptr..]` when scanning resumes at `i` and the current frame began at `ptr`. */
  function SplitFrom(b: seq<Byte>, ptr: nat, i: nat): seq<seq<Byte>>
    requires ptr <= i <= |b|
    decreases |b| - i
  {
    if i == |b| then []
    else if IsCut(b, i) then [b[ptr..i + 1]] + SplitFrom(b, i + 1, i + 1)
    else SplitFrom(b, ptr, i + 1)
  }

  /** The frames splitPackets returns for one serial read. */
  function Split(b: seq<Byte>): seq<seq<Byte>> {
    SplitFrom(b, 0, 0)
  }

  function Concat(ss: seq<seq<Byte>>): seq<Byte> {
    if ss == [] then [] else ss[0] + Concat(ss[1..])
  }

  /** Where frame `k` ends (exclusive), counted from the start of the first frame. */
  function SliceEnd(ss: seq<seq<Byte>>, k: nat): nat
    requires k < |ss|
  {
    |Concat(ss[..k + 1])|
  }

  /** Where frame `k` starts, counted from the start of the first frame. */
  function SliceStart(ss: seq<seq<Byte>>, k: nat): nat
    requires k < |ss|
  {
    |Concat(ss[..k])|
  }

  lemma ConcatCons(x: seq<Byte>, ss: seq<seq<Byte>>, k: nat)
    requires k <= |ss|
    ensures ([x] + ss)[..k + 1] == [x] + ss[..k]
    ensures Concat([x] + ss[..k]) == x + Concat(ss[..k])
  {
    assert ([x] + ss[..k])[1..] == ss[..k];
  }

  /** No frame boundary in `b[lo..hi]`. */
  predicate NoCut(b: seq<Byte>, lo: int, hi: int) {
    forall j :: lo <= j < hi ==> !IsCut(b, j)
  }

  lemma SliceBoundsCons(x: seq<Byte>, t: seq<seq<Byte>>, k: nat)
    requires k < |t|
    ensures SliceStart([x] + t, k + 1) == |x| + SliceStart(t, k)
    ensures SliceEnd([x] + t, k + 1) == |x| + SliceEnd(t, k)
  {
    ConcatCons(x, t, k);
    ConcatCons(x, t, k + 1);
  }

  /** The frames from `ptr` are consecutive pieces of `b` from `ptr`, and no cut follows the last one. */
  lemma {:induction false} SplitFromCovers(b: seq<Byte>, ptr: nat, i: nat)
    requires ptr <= i <= |b| && NoCut(b, ptr, i)
    ensures ptr + |Concat(SplitFrom(b, ptr, i))| <= |b|
    ensures Concat(SplitFrom(b, ptr, i)) == b[ptr..ptr + |Concat(SplitFrom(b, ptr, i))|]
    ensures NoCut(b, ptr + |Concat(SplitFrom(b, ptr, i))|, |b|)
    decreases |b| - i
  {
    if i < |b| {
      if IsCut(b, i) {
        var x := b[ptr..i + 1];
        var t' := SplitFrom(b, i + 1, i + 1);
        SplitFromCovers(b, i + 1, i + 1);
        assert SplitFrom(b, ptr, i) == [x] + t';
        assert ([x] + t')[1..] == t';
        assert Concat([x] + t') == x + Concat(t');
        assert b[ptr..i + 1 + |Concat(t')|] == x + b[i + 1..i + 1 + |Concat(t')|];
      } else {
        SplitFromCovers(b, ptr, i + 1);
      }
    }
  }

  /** Frame `k` of `t`, laid out from position `ptr` of `b`, is non-empty, ends at a cut and holds no other cut. */
  predicate FrameAt(b: seq<Byte>, ptr: nat, t: seq<seq<Byte>>, k: nat)
    requires k < |t|
  {
    && SliceStart(t, k) < SliceEnd(t, k)
    && IsCut(b, ptr + SliceEnd(t, k) - 1)
    && NoCut(b, ptr + SliceStart(t, k), ptr + SliceEnd(t, k) - 1)
  }

  /** Each frame from `ptr` ends at a cut and holds no cut before its last byte. */
  lemma {:induction false} SplitFromFrames(b: seq<Byte>, ptr: nat, i: nat)
    requires ptr <= i <= |b| && NoCut(b, ptr, i)
    ensures forall k :: 0 <= k < |SplitFrom(b, ptr, i)| ==> FrameAt(b, ptr, SplitFrom(b, ptr, i), k)
    decreases |b| - i
  {
    var t := SplitFrom(b, ptr, i);
    if i < |b| {
      if IsCut(b, i) {
        var x := b[ptr..i + 1];
        var t' := SplitFrom(b, i + 1, i + 1);
        SplitFromFrames(b, i + 1, i + 1);
        assert t == [x] + t';
        forall k | 0 <= k < |t|
          ensures FrameAt(b, ptr, t, k)
        {
          if k == 0 {
            assert t[..1] == [x] && t[..0] == [];
            assert Concat([x]) == x + Concat([]);
          } else {
            assert FrameAt(b, i + 1, t', k - 1);
            SliceBoundsCons(x, t', k - 1);
          }
        }
      } else {
        SplitFromFrames(b, ptr, i + 1);
      }
    }
  }

  /**
   * splitPackets cuts exactly at the frame boundaries: the frames are
   * consecutive pieces of the input from its first byte; each is non-empty
   * and ends with an END byte that is the last input byte or is followed by
   * another END byte; no frame holds such a cut before its last byte; and no
   * cut follows the last frame, so the bytes after it are dropped.
   */
  lemma SplitShape(b: seq<Byte>)
    ensures |Concat(Split(b))| <= |b|
    ensures Concat(Split(b)) == b[..|Concat(Split(b))|]
    ensures NoCut(b, |Concat(Split(b))|, |b|)
    ensures forall k :: 0 <= k < |Split(b)| ==> FrameAt(b, 0, Split(b), k)
  {
    SplitFromCovers(b, 0, 0);
    SplitFromFrames(b, 0, 0);
  }

  /** Each frame is non-empty and its last byte is the END byte. */
  lemma {:induction false} SplitFramesEndWithDelimiter(b: seq<Byte>, ptr: nat, i: nat)
    requires ptr <= i <= |b|
    ensures forall s :: s in SplitFrom(b, ptr, i) ==> |s| >= 1 && s[|s| - 1] == Delimiter
    decreases |b| - i
  {
    if i < |b| {
      if IsCut(b, i) {
        SplitFramesEndWithDelimiter(b, i + 1, i + 1);
      } else {
        SplitFramesEndWithDelimiter(b, ptr, i + 1);
      }
    }
  }

  /** An input without a cut, the empty input among them, gives no frame. */
  lemma {:induction false} SplitWithoutCut(b: seq<Byte>, ptr: nat, i: nat)
    requires ptr <= i <= |b| && NoCut(b, i, |b|)
    ensures SplitFrom(b, ptr, i) == []
    decreases |b| - i
  {
    if i < |b| {
      SplitWithoutCut(b, ptr, i + 1);
    }
  }

  /** SerialPacketListener.splitPackets (lines 76-87). */
  method SplitPackets(bytes: seq<Byte>) returns (r: seq<seq<Byte>>)
    ensures r == Split(bytes)
  {
    r := [];
    var ptr := 0;
    for i := 0 to |bytes|
      invariant ptr <= i
      invariant r + SplitFrom(bytes, ptr, i) == Split(bytes)
    {
      if bytes[i] == Delimiter && (i == |bytes| - 1 || bytes[i + 1] == Delimiter) {
        r := r + [bytes[ptr..i + 1]];
        ptr := i + 1;
      }
    }
  }

  // ------------------------------------------------------------ serialEvent

  /** What ph.parsePacket gives for one frame: a packet, null (a corrupted frame), or an exception. */
  type Decoded = Result<Option<Packet>, Exception>

  /** ph.parsePacket on each frame, in order. */
  function DecodeAll(frames: seq<seq<Byte>>): seq<Decoded> {
    seq(|frames|, k requires 0 <= k < |frames| => PacketHandler.Decode(frames[k]))
  }

  /** One registerPacket call on values. */
  function Step(reg: Topology.Registry, p: Packet, resolve: Resolver): Topology.Outcome {
    Topology.Register(reg, p, Src(p, resolve), Dst(p, resolve))
  }

  /**
   * Where serialEvent's loop stands: the packets appended to the packet
   * list so far, the registry their registrations left, and whether an
   * exception has ended the loop.
   */
  datatype Listening = Listening(added: seq<Packet>, registry: Topology.Registry, stopped: bool)

  /**
   * One pass of serialEvent's loop (lines 57-62) on the decoder's answer
   * for a frame: an exception ends the loop; null is skipped; a packet is
   * appended and registered, and an exception from registering ends the
   * loop after the registry changes made before it.
   */
  function Listen(l: Listening, o: Decoded, resolve: Resolver): Listening {
    if l.stopped then l
    else match o
      case Err(_) => l.(stopped := true)
      case Ok(None) => l
      case Ok(Some(p)) =>
        var s := Step(l.registry, p, resolve);
        Listening(l.added + [p], s.registry, s.thrown.Some?)
  }

  /** serialEvent's loop over the decoder's answers for the frames of one read, from the registry `start`. */
  function Listened(outs: seq<Decoded>, start: Topology.Registry, resolve: Resolver): Listening
    decreases |outs|
  {
    if outs == [] then Listening([], start, false)
    else Listen(Listened(outs[..|outs| - 1], start, resolve), outs[|outs| - 1], resolve)
  }

  /** The packets among the decoder's answers, in order: every non-null result, exceptions aside. */
  function Packets(outs: seq<Decoded>): seq<Packet>
    decreases |outs|
  {
    if outs == [] then []
    else
      var o := outs[|outs| - 1];
      Packets(outs[..|outs| - 1]) + (if o.Ok? && o.value.Some? then [o.value.value] else [])
  }

  /** The registry after registering `ps` in turn, each registration on the registry the one before left. */
  function Registered(ps: seq<Packet>, start: Topology.Registry, resolve: Resolver): Topology.Registry
    decreases |ps|
  {
    if ps == [] then start
    else Step(Registered(ps[..|ps| - 1], start, resolve), ps[|ps| - 1], resolve).registry
  }

  /** The loop registers exactly the packets it appends, in the order it appends them. */
  lemma {:induction false} ListenedRegisters(outs: seq<Decoded>, start: Topology.Registry, resolve: Resolver)
    ensures Listened(outs, start, resolve).registry == Registered(Listened(outs, start, resolve).added, start, resolve)
    decreases |outs|
  {
    if outs != [] {
      var l := Listened(outs[..|outs| - 1], start, resolve);
      ListenedRegisters(outs[..|outs| - 1], start, resolve);
      var o := outs[|outs| - 1];
      if !l.stopped && o.Ok? && o.value.Some? {
        assert (l.added + [o.value.value])[..|l.added|] == l.added;
      }
    }
  }

  /**
   * The packet list grows by the non-null answers in frame order: what
   * the loop appends is always a prefix of them, and all of them when no
   * exception ended the loop.
   */
  lemma {:induction false} ListenedAppends(outs: seq<Decoded>, start: Topology.Registry, resolve: Resolver)
    ensures Listened(outs, start, resolve).added <= Packets(outs)
    ensures !Listened(outs, start, resolve).stopped ==> Listened(outs, start, resolve).added == Packets(outs)
    decreases |outs|
  {
    if outs != [] {
      var n := |outs| - 1;
      ListenedAppends(outs[..n], start, resolve);
      var l := Listened(outs[..n], start, resolve);
      var o := outs[n];
      var extra := if o.Ok? && o.value.Some? then [o.value.value] else [];
      assert Packets(outs) == Packets(outs[..n]) + extra;
      assert Packets(outs[..n]) <= Packets(outs);
    }
  }

  /** The loop over one more answer is one more pass. */
  lemma ListenedSnoc(outs: seq<Decoded>, k: nat, start: Topology.Registry, resolve: Resolver)
    requires k < |outs|
    ensures Listened(outs[..k + 1], start, resolve) == Listen(Listened(outs[..k], start, resolve), outs[k], resolve)
  {
    assert outs[..k + 1][..k] == outs[..k];
  }

  /** Once the loop has stopped, the frames after are not looked at. */
  lemma {:induction false} ListenedStopped(outs: seq<Decoded>, k: nat, start: Topology.Registry, resolve: Resolver)
    requires k <= |outs| && Listened(outs[..k], start, resolve).stopped
    ensures Listened(outs, start, resolve) == Listened(outs[..k], start, resolve)
    decreases |outs|
  {
    if |outs| == k {
      assert outs[..k] == outs;
    } else {
      var n := |outs| - 1;
      assert outs[..n][..k] == outs[..k];
      ListenedStopped(outs[..n], k, start, resolve);
    }
  }

  /**
   * An exception from the decoder on frame `i` abandons the rest of the
   * read (lines 53-66): the loop ends there, having appended only packets
   * of the frames before `i`.
   */
  lemma ListenedAbandons(outs: seq<Decoded>, i: nat, start: Topology.Registry, resolve: Resolver)
    requires i < |outs| && outs[i].Err?
    ensures Listened(outs, start, resolve).stopped
    ensures Listened(outs, start, resolve) == Listened(outs[..i + 1], start, resolve)
    ensures Listened(outs, start, resolve).added <= Packets(outs[..i])
  {
    assert outs[..i + 1][..i] == outs[..i];
    ListenedStopped(outs, i + 1, start, resolve);
    ListenedAppends(outs[..i], start, resolve);
  }

  /** Registering in turn keeps a registry well-formed. */
  lemma {:induction false} ListenedKeepsWellFormed(outs: seq<Decoded>, start: Topology.Registry, resolve: Resolver)
    requires Topology.WellFormed(start)
    ensures Topology.WellFormed(Listened(outs, start, resolve).registry)
    decreases |outs|
  {
    if outs != [] {
      var l := Listened(outs[..|outs| - 1], start, resolve);
      ListenedKeepsWellFormed(outs[..|outs| - 1], start, resolve);
      var o := outs[|outs| - 1];
      if !l.stopped && o.Ok? && o.value.Some? {
        var p := o.value.value;
        Topology.RegisterKeepsWellFormed(l.registry, p, Src(p, resolve), Dst(p, resolve));
      }
    }
  }

  /** Registering in turn only adds vertices and edges. */
  lemma {:induction false} ListenedGrows(outs: seq<Decoded>, start: Topology.Registry, resolve: Resolver)
    ensures start.vertices <= Listened(outs, start, resolve).registry.vertices
    ensures start.edges <= Listened(outs, start, resolve).registry.edges
    decreases |outs|
  {
    if outs != [] {
      var l := Listened(outs[..|outs| - 1], start, resolve);
      ListenedGrows(outs[..|outs| - 1], start, resolve);
      var o := outs[|outs| - 1];
      if !l.stopped && o.Ok? && o.value.Some? {
        var p := o.value.value;
        Topology.RegisterGrows(l.registry, p, Src(p, resolve), Dst(p, resolve));
      }
    }
  }

  /** Every packet decoded from the frames holds one of the frames as its bytes and has a known type. */
  lemma {:induction false} DecodedPackets(frames: seq<seq<Byte>>)
    ensures forall q :: q in Packets(DecodeAll(frames)) ==> q.raw in frames && PacketHandler.KnownType(q)
    decreases |frames|
  {
    if frames != [] {
      var n := |frames| - 1;
      assert DecodeAll(frames)[..n] == DecodeAll(frames[..n]);
      DecodedPackets(frames[..n]);
      forall q | q in Packets(DecodeAll(frames[..n]))
        ensures q.raw in frames
      {
        assert frames[..n] <= frames;
      }
    }
  }

  /** Every packet one read appends holds one of the read's frames as its bytes and has a known type. */
  lemma ListenedPacketsFromFrames(output: seq<Byte>, start: Topology.Registry, resolve: Resolver)
    ensures forall q :: q in Listened(DecodeAll(Split(output)), start, resolve).added ==>
      q.raw in Split(output) && PacketHandler.KnownType(q)
  {
    var outs := DecodeAll(Split(output));
    var added := Listened(outs, start, resolve).added;
    ListenedAppends(outs, start, resolve);
    DecodedPackets(Split(output));
    forall q | q in added
      ensures q in Packets(outs)
    {
      var j :| 0 <= j < |added| && added[j] == q;
      assert Packets(outs)[j] == q;
    }
  }

  /**
   * SerialPacketListener: `packetList` is the list of decoded packets the
   * listener shares with the packet table; `handler` is the topology.
   */
  class Listener {
    var packetList: seq<Packet>
    const handler: Topology.NodeHandler

    constructor (packetList: seq<Packet>, handler: Topology.NodeHandler)
      ensures this.packetList == packetList && this.handler == handler
    {
      this.packetList := packetList;
      this.handler := handler;
    }

    /**
     * SerialPacketListener.serialEvent (lines 53-67) on the bytes `output`
     * of one serial read: the frames are decoded in turn; a decoded packet
     * is appended to the packet list and registered. An exception from the
     * decoder or from registration is caught outside the loop, so it
     * abandons the rest of the read. Returns the packets appended.
     */
    method SerialEvent(output: seq<Byte>, resolve: Resolver) returns (added: seq<Packet>)
      requires handler.Valid()
      modifies this, handler.nodes, handler.nodes.nodes, handler.mapper
      ensures handler.Valid()
      ensures var l := Listened(DecodeAll(Split(output)), old(handler.State()), resolve);
        added == l.added && handler.State() == l.registry
      ensures packetList == old(packetList) + added
    {
      var packets := SplitPackets(output);
      ghost var outs := DecodeAll(packets);
      added := [];
      var k: nat, stop := 0, false;
      while k < |packets| && !stop
        invariant k <= |packets| && handler.Valid()
        invariant packetList == old(packetList) + added
        invariant Listened(outs[..k], old(handler.State()), resolve) == Listening(added, handler.State(), stop)
        invariant forall i :: 0 <= i < |handler.nodes.nodes| ==>
          handler.nodes.nodes[i] in old(handler.nodes.nodes) || fresh(handler.nodes.nodes[i])
        decreases |packets| - k
      {
        added, stop := Pass(packets, k, resolve, outs, old(handler.State()), old(packetList), added);
        k := k + 1;
      }
      if k < |packets| {
        ListenedStopped(outs, k, old(handler.State()), resolve);
      } else {
        assert outs[..k] == outs;
      }
    }

    /** One pass of serialEvent's loop (lines 57-62), on frame `k`: ph.parsePacket, then what is done with its answer. */
    method Pass(packets: seq<seq<Byte>>, k: nat, resolve: Resolver, ghost outs: seq<Decoded>, ghost start: Topology.Registry,
                ghost list0: seq<Packet>, added: seq<Packet>)
      returns (added': seq<Packet>, stop: bool)
      requires outs == DecodeAll(packets) && k < |packets|
      requires handler.Valid() && packetList == list0 + added
      requires Listened(outs[..k], start, resolve) == Listening(added, handler.State(), false)
      modifies this, handler.nodes, handler.nodes.nodes, handler.mapper
      ensures handler.Valid() && packetList == list0 + added'
      ensures Listened(outs[..k + 1], start, resolve) == Listening(added', handler.State(), stop)
      ensures forall i :: 0 <= i < |handler.nodes.nodes| ==>
        handler.nodes.nodes[i] in old(handler.nodes.nodes) || fresh(handler.nodes.nodes[i])
    {
      var r := PacketHandler.ParsePacket(packets[k]);
      assert r == outs[k];
      ListenedSnoc(outs, k, start, resolve);
      added', stop := Deliver(r, resolve, list0, added);
    }

    /**
     * What serialEvent's loop does with ph.parsePacket's answer for a frame
     * (lines 58-62): for a packet, packetList.add then registerPacket.
     * `stop` is an exception, from the decoder or from registering, that
     * ends the loop.
     */
    method Deliver(o: Decoded, resolve: Resolver, ghost list0: seq<Packet>, added: seq<Packet>)
      returns (added': seq<Packet>, stop: bool)
      requires handler.Valid() && packetList == list0 + added
      modifies this, handler.nodes, handler.nodes.nodes, handler.mapper
      ensures handler.Valid() && packetList == list0 + added'
      ensures Listening(added', handler.State(), stop) == Listen(Listening(added, old(handler.State()), false), o, resolve)
      ensures forall i :: 0 <= i < |handler.nodes.nodes| ==>
        handler.nodes.nodes[i] in old(handler.nodes.nodes) || fresh(handler.nodes.nodes[i])
    {
      if o.Err? {
        return added, true;
      }
      if o.value.None? {
        return added, false;
      }
      var p := o.value.value;
      packetList := packetList + [p];
      var thrown := handler.RegisterPacket(p, resolve);
      added', stop := added + [p], thrown.Some?;
    }
  }
}
