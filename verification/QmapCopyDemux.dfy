/**
 The receive side that copies every packet (_rmnet_usb_rx_handler): what it accepts, as a
 function of the bytes received, and the loop itself.
 */
module QmapCopyDemux {
  import opened Bytes
  import opened QmapFrame

  /** The checks of one turn of the loop, in the code's order. `beyond` is the byte that lies
      behind the data: an empty v5 frame at the very end makes the code look at it. */
  function Inspect(cfg: Config, minPad: nat, beyond: byte, s: seq<byte>): (v: Verdict)
    requires |s| > HDR_LEN
    ensures !v.Stop? ==> HDR_LEN <= v.size <= |s|
    ensures v.Take? ==> v.at + v.len <= v.size && v.len <= MAX_PACKET && v.chan < cfg.mode
  {
    var hdr := if NextHdr(s[0]) then V5_HDR_LEN else HDR_LEN;
    var pktLen := Be16(s[2], s[3]);
    var len: int := pktLen - PadOf(s[0]) - minPad;
    if len > MAX_PACKET || |s| < pktLen + hdr then Stop
    else if IsCommand(s[0]) then Skip(pktLen + hdr)
    else
      var first := if hdr < |s| then s[hdr] else beyond;
      var chan: int := s[1] - MUX_BASE;
      // mux_id is compared as an unsigned number: a negative one is out of range too
      if !KnownProto(first) || chan < 0 || chan >= cfg.mode then Stop
      else if chan !in cfg.registered then Skip(pktLen + hdr)
      else Take(pktLen + hdr, chan, ProtoOf(first), hdr, len)
  }

  /** Every queued frame has room for its pad bytes: a length field smaller than the padding
      would make the code compute with a negative packet length. */
  predicate PadsFit(cfg: Config, minPad: nat, beyond: byte, s: seq<byte>)
    decreases |s|
  {
    |s| > HDR_LEN ==>
      var v := Inspect(cfg, minPad, beyond, s);
      !v.Stop? ==> (v.Take? ==> v.len >= 0) && PadsFit(cfg, minPad, beyond, s[v.size..])
  }

  /** The packets that a buffer holds, when the first `granted` allocations succeed and the next
      one fails. A failed allocation ends the loop, so nothing more can be said of the rest. */
  function Decode(cfg: Config, minPad: nat, beyond: byte, s: seq<byte>, granted: nat): Outcome
    requires PadsFit(cfg, minPad, beyond, s)
    decreases |s|
  {
    if |s| <= HDR_LEN then Outcome([], true)
    else
      match Inspect(cfg, minPad, beyond, s)
      case Stop => Outcome([], false)
      case Skip(size) => Decode(cfg, minPad, beyond, s[size..], granted)
      case Take(size, chan, proto, at, len) =>
        if granted == 0 then Outcome([], false)
        else
          var rest := Decode(cfg, minPad, beyond, s[size..], granted - 1);
          Outcome([Packet(chan, proto, s[at..at + len])] + rest.packets, rest.complete)
  }

  // One turn of the loop, seen from the packets queued so far: it ends, skips a frame, or queues one.
  lemma DecodeEnds(cfg: Config, minPad: nat, beyond: byte, s: seq<byte>, granted: nat, queued: seq<Packet>)
    requires |queued| <= granted && PadsFit(cfg, minPad, beyond, s)
    requires |s| > HDR_LEN ==> var v := Inspect(cfg, minPad, beyond, s); v.Stop? || (v.Take? && |queued| == granted)
    ensures Decode(cfg, minPad, beyond, s, granted - |queued|).After(queued) == Outcome(queued, |s| <= HDR_LEN)
  {
  }

  lemma DecodeSkips(cfg: Config, minPad: nat, beyond: byte, s: seq<byte>, granted: nat, queued: seq<Packet>)
    requires |queued| <= granted && PadsFit(cfg, minPad, beyond, s)
    requires |s| > HDR_LEN && Inspect(cfg, minPad, beyond, s).Skip?
    ensures var rest := s[Inspect(cfg, minPad, beyond, s).size..];
            && PadsFit(cfg, minPad, beyond, rest)
            && Decode(cfg, minPad, beyond, s, granted - |queued|)
               == Decode(cfg, minPad, beyond, rest, granted - |queued|)
  {
  }

  lemma DecodeTakes(cfg: Config, minPad: nat, beyond: byte, s: seq<byte>, granted: nat, queued: seq<Packet>)
    requires |queued| < granted && PadsFit(cfg, minPad, beyond, s)
    requires |s| > HDR_LEN && Inspect(cfg, minPad, beyond, s).Take?
    ensures var v := Inspect(cfg, minPad, beyond, s);
            && v.len >= 0 && PadsFit(cfg, minPad, beyond, s[v.size..])
            && var longer := queued + [Packet(v.chan, v.proto, s[v.at..v.at + v.len])];
               Decode(cfg, minPad, beyond, s, granted - |queued|).After(queued)
               == Decode(cfg, minPad, beyond, s[v.size..], granted - |longer|).After(longer)
  {
  }

  // The tests of one turn of the loop, reading the header out of the buffer.
  method Examine(cfg: Config, minPad: nat, beyond: byte, skb: View) returns (v: Verdict)
    requires skb.Valid() && skb.len > HDR_LEN
    ensures v == Inspect(cfg, minPad, beyond, skb.Bytes())
  {
    var b0, mux := skb.buf[skb.data], skb.buf[skb.data + 1];
    var hdrSize := HDR_LEN;
    var pktLen := Be16(skb.buf[skb.data + 2], skb.buf[skb.data + 3]);
    if NextHdr(b0) {
      hdrSize := hdrSize + 4;
    }
    var skbLen: int := pktLen - PadOf(b0);
    skbLen := skbLen - minPad;
    if skbLen > MAX_PACKET {
      return Stop;
    }
    if skb.len < pktLen + hdrSize {
      return Stop;
    }
    if IsCommand(b0) {
      return Skip(pktLen + hdrSize);
    }
    var first := if hdrSize < skb.len then skb.buf[skb.data + hdrSize] else beyond;
    if !KnownProto(first) {
      return Stop;
    }
    var muxId: int := mux - MUX_BASE;
    if muxId < 0 || muxId >= cfg.mode {
      return Stop;
    }
    if muxId !in cfg.registered {
      return Skip(pktLen + hdrSize);
    }
    return Take(pktLen + hdrSize, muxId, ProtoOf(first), hdrSize, skbLen);
  }

  /** _rmnet_usb_rx_handler: everything queued is delivered, also after a bad frame. */
  method RxHandler(cfg: Config, version: nat, dlMinimumPadding: nat, beyond: byte, skbIn: View, granted: nat)
    returns (delivered: seq<Packet>)
    requires skbIn.Valid()
    requires PadsFit(cfg, if version == 9 then dlMinimumPadding else 0, beyond, skbIn.Bytes())
    ensures delivered
         == Decode(cfg, if version == 9 then dlMinimumPadding else 0, beyond, skbIn.Bytes(), granted).packets
  {
    hide Decode, PadsFit, Inspect;
    var minPad := 0;
    if version == 9 {
      minPad := dlMinimumPadding;
    }
    delivered := [];
    var skb := skbIn;
    ghost var all := Decode(cfg, minPad, beyond, skb.Bytes(), granted);
    while skb.len > HDR_LEN
      invariant skb.Valid() && PadsFit(cfg, minPad, beyond, skb.Bytes())
      invariant |delivered| <= granted
      invariant all == Decode(cfg, minPad, beyond, skb.Bytes(), granted - |delivered|).After(delivered)
      decreases skb.len
    {
      var v := Examine(cfg, minPad, beyond, skb);
      if v.Stop? || (v.Take? && |delivered| == granted) {
        DecodeEnds(cfg, minPad, beyond, skb.Bytes(), granted, delivered);
        return;
      }
      if v.Skip? {
        DecodeSkips(cfg, minPad, beyond, skb.Bytes(), granted, delivered);
      } else {
        DecodeTakes(cfg, minPad, beyond, skb.Bytes(), granted, delivered);
        var payload := CopyOut(skb, v.at, v.len);
        delivered := delivered + [Packet(v.chan, v.proto, payload)];
      }
      skb := Pull(skb, v.size);
    }
    DecodeEnds(cfg, minPad, beyond, skb.Bytes(), granted, delivered);
  }
}
