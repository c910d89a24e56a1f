/**
 The receive side that works in place (qmap_qmi_wwan_rx_fixup). Packets are queued as clones of
 the shared receive buffer, and an Ethernet header is written into that buffer in front of each
 payload, whenever the bytes there belong to nobody any more.
 */
module QmapCloneDemux {
  import opened Bytes
  import opened QmapFrame

  const ETH_HLEN := 14
  const MODEM_ADDR: seq<byte> := [0x02, 0x50, 0xf3, 0, 0, 0]

  function EthHeader(dest: seq<byte>, proto: Proto): (h: seq<byte>)
    requires |dest| == 6
    ensures |h| == ETH_HLEN
  {
    dest + MODEM_ADDR + (if proto == IPv4 then [0x08, 0x00] else [0x86, 0xDD])
  }

  /** What the network stack gets: the device and the Ethernet frame. */
  datatype Delivery = Delivery(chan: nat, frame: seq<byte>)

  /** The addresses of the channels' network devices. */
  type Addrs = a: seq<seq<byte>> | forall i :: 0 <= i < |a| ==> |a[i]| == 6 witness []

  function DeliveryOf(addrs: Addrs, p: Packet): Delivery
    requires p.chan < |addrs|
  {
    Delivery(p.chan, EthHeader(addrs[p.chan], p.proto) + p.payload)
  }

  predicate InRange(addrs: Addrs, ps: seq<Packet>) { forall p :: p in ps ==> p.chan < |addrs| }

  function Deliveries(addrs: Addrs, ps: seq<Packet>): seq<Delivery>
    requires InRange(addrs, ps)
  {
    seq(|ps|, i requires 0 <= i < |ps| => DeliveryOf(addrs, ps[i]))
  }

  lemma DeliveriesNil(addrs: Addrs)
    ensures Deliveries(addrs, []) == []
  {
  }

  lemma DeliveriesSnoc(addrs: Addrs, ps: seq<Packet>, p: Packet)
    requires InRange(addrs, ps) && p.chan < |addrs|
    ensures InRange(addrs, ps + [p])
    ensures Deliveries(addrs, ps + [p]) == Deliveries(addrs, ps) + [DeliveryOf(addrs, p)]
  {
  }

  /** The checks of one turn of the loop, in the code's order. */
  function Inspect(cfg: Config, s: seq<byte>): (v: Verdict)
    requires |s| > HDR_LEN
    ensures !v.Stop? ==> HDR_LEN <= v.size <= |s|
    ensures v.Take? ==> v.at == HDR_LEN && v.at + v.len <= v.size && v.len <= MAX_PACKET && v.chan < cfg.mode
    ensures v.Take? ==> v.len == v.size - HDR_LEN - PadOf(s[0])
  {
    var pktLen := Be16(s[2], s[3]);
    var len: int := pktLen - PadOf(s[0]);
    if len > MAX_PACKET || |s| < pktLen + HDR_LEN then Stop
    else if IsCommand(s[0]) then Skip(pktLen + HDR_LEN)
    else if !KnownProto(s[HDR_LEN]) then Stop
    else
      var chan: int := s[1] - MUX_BASE;
      if chan < 0 || chan >= cfg.mode then Stop
      else if chan !in cfg.registered then Skip(pktLen + HDR_LEN)
      else Take(pktLen + HDR_LEN, chan, ProtoOf(s[HDR_LEN]), HDR_LEN, len)
  }

  predicate PadsFit(cfg: Config, s: seq<byte>)
    decreases |s|
  {
    |s| > HDR_LEN ==>
      var v := Inspect(cfg, s);
      !v.Stop? ==> (v.Take? ==> v.len >= 0) && PadsFit(cfg, s[v.size..])
  }

  /** The packets that a buffer holds, when `granted` clones and allocations succeed before one fails. */
  function Decode(cfg: Config, s: seq<byte>, granted: nat): (o: Outcome)
    requires PadsFit(cfg, s)
    ensures forall p :: p in o.packets ==> p.chan < cfg.mode
    decreases |s|
  {
    if |s| <= HDR_LEN then Outcome([], true)
    else
      match Inspect(cfg, s)
      case Stop => Outcome([], false)
      case Skip(size) => Decode(cfg, s[size..], granted)
      case Take(size, chan, proto, at, len) =>
        if granted == 0 then Outcome([], false)
        else
          var rest := Decode(cfg, s[size..], granted - 1);
          Outcome([Packet(chan, proto, s[at..at + len])] + rest.packets, rest.complete)
  }

  // One turn of the loop, seen from the packets queued so far: it ends, skips a frame, or queues one.
  lemma DecodeEnds(cfg: Config, s: seq<byte>, granted: nat, queued: seq<Packet>)
    requires |queued| <= granted && PadsFit(cfg, s)
    requires |s| > HDR_LEN ==> var v := Inspect(cfg, s); v.Stop? || (v.Take? && |queued| == granted)
    ensures Decode(cfg, s, granted - |queued|).After(queued) == Outcome(queued, |s| <= HDR_LEN)
  {
  }

  lemma DecodeSkips(cfg: Config, s: seq<byte>, granted: nat, queued: seq<Packet>)
    requires |queued| <= granted && PadsFit(cfg, s) && |s| > HDR_LEN && Inspect(cfg, s).Skip?
    ensures var rest := s[Inspect(cfg, s).size..];
            PadsFit(cfg, rest) && Decode(cfg, s, granted - |queued|) == Decode(cfg, rest, granted - |queued|)
  {
  }

  lemma DecodeTakes(cfg: Config, s: seq<byte>, granted: nat, queued: seq<Packet>)
    requires |queued| < granted && PadsFit(cfg, s) && |s| > HDR_LEN && Inspect(cfg, s).Take?
    ensures var v := Inspect(cfg, s);
            && v.len >= 0 && PadsFit(cfg, s[v.size..])
            && var longer := queued + [Packet(v.chan, v.proto, s[v.at..v.at + v.len])];
               Decode(cfg, s, granted - |queued|).After(queued)
               == Decode(cfg, s[v.size..], granted - |longer|).After(longer)
  {
  }

  /** An Ethernet frame as the network stack expects it: to the address of the channel's device, from
      the modem's, with the type of the IP version that the packet behind it says. */
  predicate WellFramed(addrs: Addrs, d: Delivery) {
    && d.chan < |addrs| && |d.frame| >= 14
    && d.frame[..6] == addrs[d.chan]
    && d.frame[6..12] == [0x02, 0x50, 0xf3, 0, 0, 0]
    && (d.frame[12..14] == [0x08, 0x00] || d.frame[12..14] == [0x86, 0xDD])
    && (|d.frame| > 14 ==>
          || (d.frame[14] / 16 == 4 && d.frame[12..14] == [0x08, 0x00])
          || (d.frame[14] / 16 == 6 && d.frame[12..14] == [0x86, 0xDD]))
  }

  predicate AllWellFramed(addrs: Addrs, ds: seq<Delivery>) { forall i :: 0 <= i < |ds| ==> WellFramed(addrs, ds[i]) }

  predicate VersionFits(p: Packet) {
    p.payload != [] ==> (p.payload[0] / 16 == 4 && p.proto == IPv4) || (p.payload[0] / 16 == 6 && p.proto == IPv6)
  }

  lemma {:induction false} DecodedVersions(cfg: Config, s: seq<byte>, granted: nat)
    requires PadsFit(cfg, s)
    ensures forall i :: 0 <= i < |Decode(cfg, s, granted).packets| ==> VersionFits(Decode(cfg, s, granted).packets[i])
    decreases |s|
  {
    if |s| > HDR_LEN {
      var v := Inspect(cfg, s);
      if v.Skip? {
        DecodedVersions(cfg, s[v.size..], granted);
      } else if v.Take? && granted > 0 {
        DecodedVersions(cfg, s[v.size..], granted - 1);
      }
    }
  }

  lemma FramedDelivery(addrs: Addrs, p: Packet)
    requires p.chan < |addrs| && VersionFits(p)
    ensures WellFramed(addrs, DeliveryOf(addrs, p))
  {
    var f := DeliveryOf(addrs, p).frame;
    assert addrs[p.chan] == f[..6];
  }

  /** Every packet that is accepted becomes a well-formed Ethernet frame. */
  lemma DecodedFrames(cfg: Config, addrs: Addrs, s: seq<byte>, granted: nat)
    requires PadsFit(cfg, s) && |addrs| == cfg.mode
    ensures AllWellFramed(addrs, Deliveries(addrs, Decode(cfg, s, granted).packets))
  {
    var ps := Decode(cfg, s, granted).packets;
    DecodedVersions(cfg, s, granted);
    forall i | 0 <= i < |ps| ensures WellFramed(addrs, DeliveryOf(addrs, ps[i])) {
      FramedDelivery(addrs, ps[i]);
    }
  }

  /** Packets handed over so far, and packets still in the chain. */
  datatype Rx = Rx(delivered: seq<Delivery>, pending: seq<Delivery>) {
    // One receive call: a buffer read to its end empties the chain, an error leaves it.
    function Call(addrs: Addrs, o: Outcome): Rx
      requires InRange(addrs, o.packets)
    {
      var queued := pending + Deliveries(addrs, o.packets);
      if o.complete then Rx(delivered + queued, []) else Rx(delivered, queued)
    }
  }

  /** A queued packet: a clone of a receive buffer, or a view of a buffer of its own. */
  datatype Queued = Queued(view: View, chan: nat)

  class RxDevice {
    const cfg: Config
    const addrs: Addrs
    var chain: seq<Queued>           // skb_chain, kept between calls
    var delivered: seq<Delivery>     // everything handed to the network stack so far
    ghost var pending: seq<Delivery> // what the chain stands for

    ghost predicate Valid()
      reads this, set q <- chain :: q.view.buf
    {
      && |addrs| == cfg.mode
      && |pending| == |chain|
      && forall i :: 0 <= i < |chain| ==> Stands(chain[i], pending[i])
    }

    static ghost predicate Stands(q: Queued, d: Delivery)
      reads q.view.buf
    {
      q.view.Valid() && q.chan == d.chan && q.view.Bytes() == d.frame
    }

    /** All that the network stack got, and all that it will get from the chain. */
    ghost predicate Framed()
      reads this
    {
      AllWellFramed(addrs, delivered) && AllWellFramed(addrs, pending)
    }

    // No queued packet uses buf at or behind limit.
    ghost predicate FreeFrom(buf: array<byte>, limit: int)
      reads this
    {
      forall q :: q in chain && q.view.buf == buf ==> q.view.data + q.view.len <= limit
    }

    constructor (cfg: Config, addrs: Addrs)
      requires |addrs| == cfg.mode
      ensures Valid() && chain == [] && delivered == [] && pending == [] && Framed()
      ensures this.cfg == cfg && this.addrs == addrs
    {
      this.cfg, this.addrs := cfg, addrs;
      chain, delivered, pending := [], [], [];
    }

    // The tests of one turn of the loop, reading the header out of the buffer.
    method Examine(skb: View) returns (v: Verdict)
      requires skb.Valid() && skb.len > HDR_LEN
      ensures v == Inspect(cfg, skb.Bytes())
    {
      var b0, mux, first := skb.buf[skb.data], skb.buf[skb.data + 1], skb.buf[skb.data + HDR_LEN];
      var pktLen := Be16(skb.buf[skb.data + 2], skb.buf[skb.data + 3]);
      var skbLen: int := pktLen - PadOf(b0);
      if skbLen > MAX_PACKET {
        return Stop;
      }
      if skb.len < pktLen + HDR_LEN {
        return Stop;
      }
      if IsCommand(b0) {
        return Skip(pktLen + HDR_LEN);
      }
      if !KnownProto(first) {
        return Stop;
      }
      var muxId: int := mux - MUX_BASE;
      if muxId < 0 || muxId >= cfg.mode {
        return Stop;
      }
      if muxId !in cfg.registered {
        return Skip(pktLen + HDR_LEN);
      }
      return Take(pktLen + HDR_LEN, muxId, ProtoOf(first), HDR_LEN, skbLen);
    }

    // skb_queue_tail, after the Ethernet header has been put in front of the payload.
    method PushEthAndQueue(payload: View, chan: nat, proto: Proto)
      requires Valid() && chan < cfg.mode
      requires payload.Valid() && ETH_HLEN <= payload.data
      requires FreeFrom(payload.buf, payload.data - ETH_HLEN)
      modifies this`chain, this`pending, payload.buf
      ensures Valid()
      ensures chain == old(chain) + [Queued(View(payload.buf, payload.data - ETH_HLEN, payload.len + ETH_HLEN), chan)]
      ensures pending == old(pending) + [DeliveryOf(addrs, Packet(chan, proto, old(payload.Bytes())))]
      ensures payload.buf[payload.data..] == old(payload.buf[payload.data..])
    {
      hide EthHeader;
      ghost var before := payload.buf[..];
      var framed := PushHeader(payload, EthHeader(addrs[chan], proto));
      ghost var after := payload.buf[..];
      assert before[..framed.data] == after[..framed.data];
      forall i | 0 <= i < |chain| ensures Stands(chain[i], pending[i]) {
        var v := chain[i].view;
        if v.buf == payload.buf {
          LowSlice(before, after, framed.data, v.data, v.data + v.len);
          assert v.Bytes() == after[v.data..v.data + v.len];
        }
      }
      chain := chain + [Queued(framed, chan)];
      pending := pending + [DeliveryOf(addrs, Packet(chan, proto, old(payload.Bytes())))];
    }

    lemma LaterLimit(buf: array<byte>, limit: int, later: int)
      requires FreeFrom(buf, limit) && limit <= later
      ensures FreeFrom(buf, later)
    {
    }

    // The frame's payload is a clone of the receive buffer; only its pad bytes are free after that.
    method QueueClone(skb: View, v: Verdict)
      requires Valid() && skb.Valid() && skb.len > HDR_LEN
      requires v == Inspect(cfg, skb.Bytes()) && v.Take? && v.len >= 0
      requires ETH_HLEN <= skb.data && FreeFrom(skb.buf, skb.data - ETH_HLEN)
      modifies this`chain, this`pending, skb.buf
      ensures Valid()
      ensures pending == old(pending)
                      + [DeliveryOf(addrs, Packet(v.chan, v.proto, old(skb.Bytes())[v.at..v.at + v.len]))]
      ensures FreeFrom(skb.buf, skb.data + v.at + v.len)
      ensures skb.buf[skb.data + HDR_LEN..] == old(skb.buf[skb.data + HDR_LEN..])
    {
      hide Inspect, DeliveryOf, Valid;
      SubView(skb, v.at, v.len);
      LaterLimit(skb.buf, skb.data - ETH_HLEN, skb.data + HDR_LEN - ETH_HLEN);
      PushEthAndQueue(View(skb.buf, skb.data + HDR_LEN, v.len), v.chan, v.proto);
    }

    // The frame's payload is copied into a buffer of its own; the whole frame is free after that.
    method QueueCopy(skb: View, v: Verdict)
      requires Valid() && skb.Valid() && skb.len > HDR_LEN
      requires v == Inspect(cfg, skb.Bytes()) && v.Take? && v.len >= 0
      modifies this`chain, this`pending
      ensures Valid()
      ensures pending == old(pending)
                      + [DeliveryOf(addrs, Packet(v.chan, v.proto, skb.Bytes()[v.at..v.at + v.len]))]
      ensures forall limit :: old(FreeFrom(skb.buf, limit)) ==> FreeFrom(skb.buf, limit)
    {
      var own := new byte[ETH_HLEN + v.len](_ => 0);
      var bytes := CopyOut(skb, v.at, v.len);
      Store(own, ETH_HLEN, bytes);
      assert View(own, ETH_HLEN, v.len).Bytes() == bytes;
      PushEthAndQueue(View(own, ETH_HLEN, v.len), v.chan, v.proto);
    }

    // One accepted frame: cloned when the headroom suffices, copied out otherwise.
    method Accept(skb: View, v: Verdict, headroom: nat) returns (next: View, headroom': nat)
      requires Valid() && skb.Valid() && skb.len > HDR_LEN
      requires v == Inspect(cfg, skb.Bytes()) && v.Take? && v.len >= 0
      requires headroom <= skb.data && FreeFrom(skb.buf, skb.data - headroom)
      modifies this`chain, this`pending, skb.buf
      ensures Valid()
      ensures pending == old(pending)
                      + [DeliveryOf(addrs, Packet(v.chan, v.proto, old(skb.Bytes())[v.at..v.at + v.len]))]
      ensures next == View(skb.buf, skb.data + v.size, skb.len - v.size)
      ensures next.Bytes() == old(skb.Bytes())[v.size..]
      ensures headroom' <= next.data && FreeFrom(skb.buf, next.data - headroom')
    {
      var pad := PadOf(skb.buf[skb.data]);
      next := View(skb.buf, skb.data + v.size, skb.len - v.size);
      SubView(skb, v.size, next.len);
      if headroom >= ETH_HLEN {
        headroom' := pad;
        ghost var behind := skb.buf[skb.data + HDR_LEN..];
        assert next.Bytes() == behind[v.size - HDR_LEN..][..next.len];
        QueueClone(skb, v);
        assert next.Bytes() == behind[v.size - HDR_LEN..][..next.len];
      } else {
        headroom' := v.size - HDR_LEN;
        QueueCopy(skb, v);
      }
    }

    // skb_dequeue, and the packet goes to the network stack as its bytes are at that moment.
    method DeliverHead()
      requires Valid() && chain != []
      modifies this`chain, this`pending, this`delivered
      ensures Valid() && chain == old(chain[1..]) && pending == old(pending[1..])
      ensures delivered == old(delivered) + [old(pending[0])]
    {
      var q := chain[0];
      assert Stands(chain[0], pending[0]);
      delivered := delivered + [Delivery(q.chan, q.view.buf[q.view.data..q.view.data + q.view.len])];
      chain, pending := chain[1..], pending[1..];
      assert forall i :: 0 <= i < |chain| ==> chain[i] == old(chain)[i + 1] && pending[i] == old(pending)[i + 1];
    }

    // The second loop of the receive function.
    method Flush()
      requires Valid()
      modifies this`chain, this`pending, this`delivered
      ensures Valid()
      ensures delivered == old(delivered + pending) && chain == [] && pending == []
    {
      ghost var all := delivered + pending;
      while chain != []
        invariant Valid() && all == delivered + pending
        decreases |chain|
      {
        ghost var head, rest := pending[0], pending[1..];
        assert delivered + pending == delivered + [head] + rest;
        DeliverHead();
      }
    }

    // The turn of the loop that accepts a frame: the packet goes from what is to come to what is done.
    method TakeTurn(skb: View, v: Verdict, headroom: nat, granted: nat,
                    ghost done: seq<Packet>, ghost base: seq<Delivery>)
      returns (next: View, headroom': nat, ghost done': seq<Packet>)
      requires Valid() && skb.Valid() && skb.len > HDR_LEN && PadsFit(cfg, skb.Bytes())
      requires v == Inspect(cfg, skb.Bytes()) && v.Take? && |done| < granted
      requires headroom <= skb.data && FreeFrom(skb.buf, skb.data - headroom)
      requires InRange(addrs, done) && pending == base + Deliveries(addrs, done)
      modifies this`chain, this`pending, skb.buf
      ensures Valid() && next.Valid() && next.buf == skb.buf && next.len < skb.len
      ensures headroom' <= next.data && FreeFrom(next.buf, next.data - headroom')
      ensures |done'| == |done| + 1 && InRange(addrs, done') && pending == base + Deliveries(addrs, done')
      ensures PadsFit(cfg, next.Bytes())
      ensures old(Decode(cfg, skb.Bytes(), granted - |done|)).After(done)
           == Decode(cfg, next.Bytes(), granted - |done'|).After(done')
    {
      hide Decode, PadsFit, Inspect, Deliveries, DeliveryOf, Valid, FreeFrom;
      ghost var s := skb.Bytes();
      DecodeTakes(cfg, s, granted, done);
      ghost var packet := Packet(v.chan, v.proto, s[v.at..v.at + v.len]);
      next, headroom' := Accept(skb, v, headroom);
      DeliveriesSnoc(addrs, done, packet);
      done' := done + [packet];
    }

    lemma NothingQueued(buf: array<byte>, limit: int)
      requires forall q :: q in chain ==> q.view.buf != buf
      ensures FreeFrom(buf, limit)
    {
    }

    // The loop over the frames of one buffer. The headroom in front of the next frame is in use by
    // nobody, and neither is anything behind it.
    method Scan(skbIn: View, granted: nat) returns (complete: bool)
      requires Valid() && skbIn.Valid() && PadsFit(cfg, skbIn.Bytes())
      requires forall q :: q in chain ==> q.view.buf != skbIn.buf
      modifies this`chain, this`pending, skbIn.buf
      ensures Valid()
      ensures complete == old(Decode(cfg, skbIn.Bytes(), granted)).complete
      ensures pending == old(pending) + Deliveries(addrs, old(Decode(cfg, skbIn.Bytes(), granted)).packets)
    {
      hide Decode, PadsFit, Inspect, Deliveries, DeliveryOf;
      NothingQueued(skbIn.buf, 0);
      hide Valid, FreeFrom;
      ghost var all := Decode(cfg, skbIn.Bytes(), granted);
      ghost var done: seq<Packet> := [];
      DeliveriesNil(addrs);
      var headroom: nat := skbIn.data;
      var count := 0;
      var skb := skbIn;
      while skb.len > HDR_LEN
        invariant Valid() && skb.Valid() && skb.buf == skbIn.buf
        invariant headroom <= skb.data && FreeFrom(skb.buf, skb.data - headroom)
        invariant count == |done| <= granted && InRange(addrs, done)
        invariant PadsFit(cfg, skb.Bytes())
        invariant all == Decode(cfg, skb.Bytes(), granted - |done|).After(done)
        invariant pending == old(pending) + Deliveries(addrs, done)
        decreases skb.len
      {
        ghost var s := skb.Bytes();
        var v := Examine(skb);
        if v.Stop? || (v.Take? && count == granted) {
          DecodeEnds(cfg, s, granted, done);
          return false;
        }
        if v.Skip? {
          DecodeSkips(cfg, s, granted, done);
          skb := Pull(skb, v.size);
        } else {
          skb, headroom, done := TakeTurn(skb, v, headroom, granted, done, old(pending));
          count := count + 1;
        }
      }
      DecodeEnds(cfg, skb.Bytes(), granted, done);
      return true;
    }

    /** qmap_qmi_wwan_rx_fixup. A buffer read to its end is delivered, together with whatever
        earlier calls had left in the chain; an error leaves the accepted packets in the chain. */
    method RxFixup(skbIn: View, granted: nat)
      requires Valid() && skbIn.Valid() && PadsFit(cfg, skbIn.Bytes())
      requires forall q :: q in chain ==> q.view.buf != skbIn.buf
      modifies this`chain, this`pending, this`delivered, skbIn.buf
      ensures Valid()
      ensures var o := old(Decode(cfg, skbIn.Bytes(), granted));
              Rx(delivered, pending) == old(Rx(delivered, pending)).Call(addrs, o)
      ensures old(Framed()) ==> Framed()
    {
      DecodedFrames(cfg, addrs, skbIn.Bytes(), granted);
      hide Decode, Deliveries, WellFramed, PadsFit;
      var complete := Scan(skbIn, granted);
      if complete {
        Flush();
      }
    }
  }
}
