/**
 What the transmit framing and the two receive loops promise together: packets come back as they
 were sent, the loops agree with each other, and no accepted packet is lost between calls.
 */
module QmapTheorems {
  import opened Bytes
  import opened QmapFrame
  import Copy = QmapCopyDemux
  import Clone = QmapCloneDemux

  const MAX_CHANNELS := 4   // FIBOCOM_WWAN_QMAP

  /** One packet to send on a channel; tail is what its buffer holds behind it. */
  datatype Submission = Submission(chan: nat, pkt: seq<byte>, tail: seq<byte>, v5: bool)

  predicate Sendable(cfg: Config, m: Submission) {
    && 1 <= |m.pkt| <= MAX_PACKET && KnownProto(m.pkt[0])
    && m.chan < cfg.mode <= MAX_CHANNELS && m.chan in cfg.registered
  }

  function FrameOf(cfg: Config, m: Submission): seq<byte>
    requires Sendable(cfg, m)
  {
    if m.v5 then QhdrFrameV5(m.pkt, MUX_BASE + m.chan, m.tail) else QhdrFrame(m.pkt, MUX_BASE + m.chan, m.tail)
  }

  function PacketOf(cfg: Config, m: Submission): Packet
    requires Sendable(cfg, m)
  {
    Packet(m.chan, ProtoOf(m.pkt[0]), m.pkt)
  }

  predicate AllSendable(cfg: Config, ms: seq<Submission>) { forall m :: m in ms ==> Sendable(cfg, m) }

  function Frames(cfg: Config, ms: seq<Submission>): seq<seq<byte>>
    requires AllSendable(cfg, ms)
  {
    seq(|ms|, i requires 0 <= i < |ms| => FrameOf(cfg, ms[i]))
  }

  function Packets(cfg: Config, ms: seq<Submission>): seq<Packet>
    requires AllSendable(cfg, ms)
  {
    seq(|ms|, i requires 0 <= i < |ms| => PacketOf(cfg, ms[i]))
  }

  // A frame, whatever follows it, is taken as the packet it was made from.
  lemma FrameTaken(cfg: Config, m: Submission, beyond: byte, rest: seq<byte>)
    requires Sendable(cfg, m)
    ensures var frame := FrameOf(cfg, m);
            var at := if m.v5 then V5_HDR_LEN else HDR_LEN;
            && |frame| >= at + |m.pkt| && (frame + rest)[at..at + |m.pkt|] == m.pkt
            && Copy.Inspect(cfg, 0, beyond, frame + rest)
               == Take(|frame|, m.chan, ProtoOf(m.pkt[0]), at, |m.pkt|)
  {
    if m.v5 {
      V5FrameTaken(cfg, m, beyond, rest);
    } else {
      PlainFrameTaken(cfg, m, beyond, rest);
    }
  }

  lemma PlainFrameTaken(cfg: Config, m: Submission, beyond: byte, rest: seq<byte>)
    requires Sendable(cfg, m) && !m.v5
    ensures var s := FrameOf(cfg, m) + rest;
            && |FrameOf(cfg, m)| >= HDR_LEN + |m.pkt| && s[HDR_LEN..HDR_LEN + |m.pkt|] == m.pkt
            && Copy.Inspect(cfg, 0, beyond, s)
               == Take(|FrameOf(cfg, m)|, m.chan, ProtoOf(m.pkt[0]), HDR_LEN, |m.pkt|)
  {
    hide KnownProto, ProtoOf;
    LengthBytes(|m.pkt| + PadLen(|m.pkt|, |m.tail|));
    var s := FrameOf(cfg, m) + rest;
    assert s[HDR_LEN..HDR_LEN + |m.pkt|] == m.pkt;
    assert s[HDR_LEN] == m.pkt[0];
  }

  lemma V5FrameTaken(cfg: Config, m: Submission, beyond: byte, rest: seq<byte>)
    requires Sendable(cfg, m) && m.v5
    ensures var s := FrameOf(cfg, m) + rest;
            && |FrameOf(cfg, m)| >= V5_HDR_LEN + |m.pkt| && s[V5_HDR_LEN..V5_HDR_LEN + |m.pkt|] == m.pkt
            && Copy.Inspect(cfg, 0, beyond, s)
               == Take(|FrameOf(cfg, m)|, m.chan, ProtoOf(m.pkt[0]), V5_HDR_LEN, |m.pkt|)
  {
    hide KnownProto, ProtoOf;
    LengthBytes(|m.pkt| + PadLen(|m.pkt|, |m.tail|));
    var s := FrameOf(cfg, m) + rest;
    assert s[V5_HDR_LEN..V5_HDR_LEN + |m.pkt|] == m.pkt;
    assert s[V5_HDR_LEN] == m.pkt[0];
  }

  lemma LengthBytes(n: nat)
    requires n < 0x1_0000
    ensures Be16(n / 256 % 256, n % 256) == n
  {
  }

  // A buffer that starts with a frame that fits decodes to that frame's packet and the rest.
  lemma DecodeFirst(cfg: Config, beyond: byte, s: seq<byte>, granted: nat)
    requires |s| > HDR_LEN && granted > 0
    requires var v := Copy.Inspect(cfg, 0, beyond, s);
             v.Take? && v.len >= 0 && Copy.PadsFit(cfg, 0, beyond, s[v.size..])
    ensures var v := Copy.Inspect(cfg, 0, beyond, s);
            var rest := Copy.Decode(cfg, 0, beyond, s[v.size..], granted - 1);
            && Copy.PadsFit(cfg, 0, beyond, s)
            && Copy.Decode(cfg, 0, beyond, s, granted)
               == Outcome([Packet(v.chan, v.proto, s[v.at..v.at + v.len])] + rest.packets, rest.complete)
  {
  }

  lemma SplitFirst(cfg: Config, ms: seq<Submission>)
    requires AllSendable(cfg, ms) && ms != []
    ensures Concat(Frames(cfg, ms)) == FrameOf(cfg, ms[0]) + Concat(Frames(cfg, ms[1..]))
    ensures Packets(cfg, ms) == [PacketOf(cfg, ms[0])] + Packets(cfg, ms[1..])
  {
    assert Frames(cfg, ms)[1..] == Frames(cfg, ms[1..]);
  }

  /** Round trip: framed packets laid end to end decode to the packets, in order, to the end. */
  lemma {:induction false} RoundTrip(cfg: Config, ms: seq<Submission>, beyond: byte, granted: nat)
    requires AllSendable(cfg, ms) && |ms| <= granted
    ensures var s := Concat(Frames(cfg, ms));
            && Copy.PadsFit(cfg, 0, beyond, s)
            && Copy.Decode(cfg, 0, beyond, s, granted) == Outcome(Packets(cfg, ms), true)
  {
    hide Copy.Inspect, FrameOf;
    if ms != [] {
      var s, frame, rest := Concat(Frames(cfg, ms)), FrameOf(cfg, ms[0]), Concat(Frames(cfg, ms[1..]));
      SplitFirst(cfg, ms);
      FrameTaken(cfg, ms[0], beyond, rest);
      assert s[|frame|..] == rest;
      RoundTrip(cfg, ms[1..], beyond, granted - 1);
      DecodeFirst(cfg, beyond, s, granted);
      var v := Copy.Inspect(cfg, 0, beyond, s);
      assert s[v.at..v.at + v.len] == ms[0].pkt;
    }
  }

  /** No frame that the walk over the buffer reaches announces a next header. */
  predicate PlainHeaders(cfg: Config, s: seq<byte>)
    decreases |s|
  {
    |s| > HDR_LEN ==>
      var v := Clone.Inspect(cfg, s);
      !NextHdr(s[0]) && (!v.Stop? ==> PlainHeaders(cfg, s[v.size..]))
  }

  /** The in-place decoder and the copying one accept the same packets and stop at the same frame. */
  lemma {:induction false} DecodersAgree(cfg: Config, beyond: byte, s: seq<byte>, granted: nat)
    requires PlainHeaders(cfg, s) && Clone.PadsFit(cfg, s)
    ensures Copy.PadsFit(cfg, 0, beyond, s)
    ensures Copy.Decode(cfg, 0, beyond, s, granted) == Clone.Decode(cfg, s, granted)
    decreases |s|
  {
    hide Clone.Inspect, Copy.Inspect;
    if |s| > HDR_LEN {
      var v := Clone.Inspect(cfg, s);
      InspectsAgree(cfg, beyond, s);
      if !v.Stop? {
        DecodersAgree(cfg, beyond, s[v.size..], granted);
        if granted > 0 {
          DecodersAgree(cfg, beyond, s[v.size..], granted - 1);
        }
      }
    }
  }

  lemma InspectsAgree(cfg: Config, beyond: byte, s: seq<byte>)
    requires |s| > HDR_LEN && !NextHdr(s[0])
    ensures Clone.Inspect(cfg, s) == Copy.Inspect(cfg, 0, beyond, s)
  {
  }

  // Plain frames of sendable packets have plain headers only, and fit.
  lemma {:induction false} FramesPlain(cfg: Config, ms: seq<Submission>)
    requires AllSendable(cfg, ms) && forall m :: m in ms ==> !m.v5
    ensures PlainHeaders(cfg, Concat(Frames(cfg, ms))) && Clone.PadsFit(cfg, Concat(Frames(cfg, ms)))
  {
    if ms != [] {
      var s, frame, rest := Concat(Frames(cfg, ms)), FrameOf(cfg, ms[0]), Concat(Frames(cfg, ms[1..]));
      SplitFirst(cfg, ms);
      FrameTaken(cfg, ms[0], 0, rest);
      FramesPlain(cfg, ms[1..]);
      assert Clone.Inspect(cfg, s) == Copy.Inspect(cfg, 0, 0, s);
      assert s[|frame|..] == rest;
    }
  }

  /** Round trip through the in-place decoder. */
  lemma RoundTripInPlace(cfg: Config, ms: seq<Submission>, granted: nat)
    requires AllSendable(cfg, ms) && |ms| <= granted && forall m :: m in ms ==> !m.v5
    ensures var s := Concat(Frames(cfg, ms));
            Clone.PadsFit(cfg, s) && Clone.Decode(cfg, s, granted) == Outcome(Packets(cfg, ms), true)
  {
    FramesPlain(cfg, ms);
    RoundTrip(cfg, ms, 0, granted);
    DecodersAgree(cfg, 0, Concat(Frames(cfg, ms)), granted);
  }

  /** The state after a sequence of receive calls. */
  function AfterCalls(addrs: Clone.Addrs, rx: Clone.Rx, calls: seq<Outcome>): Clone.Rx
    requires forall o :: o in calls ==> Clone.InRange(addrs, o.packets)
    decreases |calls|
  {
    if calls == [] then rx
    else AfterCalls(addrs, rx, calls[..|calls| - 1]).Call(addrs, calls[|calls| - 1])
  }

  function AllAccepted(addrs: Clone.Addrs, calls: seq<Outcome>): seq<Clone.Delivery>
    requires forall o :: o in calls ==> Clone.InRange(addrs, o.packets)
    decreases |calls|
  {
    if calls == [] then []
    else AllAccepted(addrs, calls[..|calls| - 1]) + Clone.Deliveries(addrs, calls[|calls| - 1].packets)
  }

  /** Over any sequence of receive calls, the packets delivered followed by those in the chain are
      all packets accepted, in order of arrival; a call that reads its whole buffer empties the chain. */
  lemma {:induction false} NothingLostBetweenCalls(addrs: Clone.Addrs, calls: seq<Outcome>)
    requires forall o :: o in calls ==> Clone.InRange(addrs, o.packets)
    ensures var rx := AfterCalls(addrs, Clone.Rx([], []), calls);
            && rx.delivered + rx.pending == AllAccepted(addrs, calls)
            && (calls != [] && calls[|calls| - 1].complete ==> rx.pending == [])
    decreases |calls|
  {
    hide Clone.Deliveries;
    if calls != [] {
      var before := calls[..|calls| - 1];
      NothingLostBetweenCalls(addrs, before);
      var rx := AfterCalls(addrs, Clone.Rx([], []), before);
      var more := Clone.Deliveries(addrs, calls[|calls| - 1].packets);
      assert rx.delivered + (rx.pending + more) == (rx.delivered + rx.pending) + more;
    }
  }
}
