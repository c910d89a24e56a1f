/**
 The receive loops and the framing in plain numbers: what every byte string decodes to, frame by
 frame, and what a frame sent looks like on the wire.
 */
module QmapLaws {
  import opened Bytes
  import opened QmapFrame
  import opened QmapTheorems
  import Copy = QmapCopyDemux
  import Clone = QmapCloneDemux

  // ----- the copying loop

  /** The head of any buffer of more than four bytes: a header, four more bytes if bit 6 of the first
      one is set, and as many bytes as the two length bytes say. */
  predicate IsFrame(b0: byte, hi: byte, lo: byte, ext: seq<byte>, body: seq<byte>) {
    |ext| == (if b0 / 64 % 2 == 1 then 4 else 0) && |body| == 256 * hi + lo
  }

  // The byte behind the headers; with an empty body it is the one that follows.
  function FirstByte(body: seq<byte>, rest: seq<byte>, beyond: byte): byte { (body + rest + [beyond])[0] }

  lemma CopyInspects(cfg: Config, minPad: nat, beyond: byte, b0: byte, mux: byte, hi: byte, lo: byte,
                     ext: seq<byte>, body: seq<byte>, rest: seq<byte>)
    requires IsFrame(b0, hi, lo, ext, body)
    requires |[b0, mux, hi, lo] + ext + body + rest| > 4
    ensures var s := [b0, mux, hi, lo] + ext + body + rest;
            var len, first, size := |body| - b0 % 64 - minPad, FirstByte(body, rest, beyond), 4 + |ext| + |body|;
            && s[size..] == rest && s[4 + |ext|..size] == body
            && Copy.Inspect(cfg, minPad, beyond, s)
               == if len > 1500 then Stop
                  else if b0 >= 128 then Skip(size)
                  else if first / 16 != 4 && first / 16 != 6 then Stop
                  else if mux < 0x81 || mux - 0x81 >= cfg.mode then Stop
                  else if mux - 0x81 !in cfg.registered then Skip(size)
                  else Take(size, mux - 0x81, if first / 16 == 4 then IPv4 else IPv6, 4 + |ext|, len)
  {
    var s := [b0, mux, hi, lo] + ext + body + rest;
    Layout(b0, mux, hi, lo, ext, body, rest);
    assert s[0] == b0 && s[1] == mux && s[2] == hi && s[3] == lo;
    assert 4 + |ext| < |s| ==> s[4 + |ext|] == FirstByte(body, rest, beyond) by {
      if 4 + |ext| < |s| {
        assert s[4 + |ext|] == s[4 + |ext|..][0];
      }
    }
    assert 4 + |ext| == |s| ==> beyond == FirstByte(body, rest, beyond);
    hide FirstByte;
  }

  // Where the parts of a buffer lie.
  lemma Layout(b0: byte, mux: byte, hi: byte, lo: byte, ext: seq<byte>, body: seq<byte>, rest: seq<byte>)
    ensures var s := [b0, mux, hi, lo] + ext + body + rest;
            var from, size := 4 + |ext|, 4 + |ext| + |body|;
            s[size..] == rest && s[from..size] == body && s[from..] == body + rest
  {
    var head := [b0, mux, hi, lo] + ext;
    var s := head + body + rest;
    assert s == head + (body + rest);
    SubSlice(s, |head|, |s|, 0, |body|);
  }

  // A frame that is passed over.
  lemma CopySkips(cfg: Config, minPad: nat, beyond: byte, b0: byte, mux: byte, hi: byte, lo: byte,
                  ext: seq<byte>, body: seq<byte>, rest: seq<byte>, granted: nat)
    requires IsFrame(b0, hi, lo, ext, body) && |[b0, mux, hi, lo] + ext + body + rest| > 4
    requires Copy.PadsFit(cfg, minPad, beyond, rest) && |body| - b0 % 64 - minPad <= 1500
    requires || b0 >= 128
             || ((FirstByte(body, rest, beyond) / 16 == 4 || FirstByte(body, rest, beyond) / 16 == 6)
                 && 0x81 <= mux < 0x81 + cfg.mode && mux - 0x81 !in cfg.registered)
    ensures var s := [b0, mux, hi, lo] + ext + body + rest;
            && Copy.PadsFit(cfg, minPad, beyond, s)
            && Copy.Decode(cfg, minPad, beyond, s, granted) == Copy.Decode(cfg, minPad, beyond, rest, granted)
  {
    CopyInspects(cfg, minPad, beyond, b0, mux, hi, lo, ext, body, rest);
    hide Copy.Inspect, FirstByte, IsFrame;
  }

  // A frame that is taken.
  lemma CopyTakes(cfg: Config, minPad: nat, beyond: byte, b0: byte, mux: byte, hi: byte, lo: byte,
                  ext: seq<byte>, body: seq<byte>, rest: seq<byte>, granted: nat)
    requires IsFrame(b0, hi, lo, ext, body) && |[b0, mux, hi, lo] + ext + body + rest| > 4
    requires Copy.PadsFit(cfg, minPad, beyond, rest) && 0 <= |body| - b0 % 64 - minPad <= 1500
    requires b0 < 128 && (FirstByte(body, rest, beyond) / 16 == 4 || FirstByte(body, rest, beyond) / 16 == 6)
    requires 0x81 <= mux < 0x81 + cfg.mode && mux - 0x81 in cfg.registered
    ensures var s := [b0, mux, hi, lo] + ext + body + rest;
            var p := Packet(mux - 0x81, if FirstByte(body, rest, beyond) / 16 == 4 then IPv4 else IPv6,
                            body[..|body| - b0 % 64 - minPad]);
            && Copy.PadsFit(cfg, minPad, beyond, s)
            && (granted == 0 ==> Copy.Decode(cfg, minPad, beyond, s, granted) == Outcome([], false))
            && (granted > 0 ==>
                  var o := Copy.Decode(cfg, minPad, beyond, rest, granted - 1);
                  Copy.Decode(cfg, minPad, beyond, s, granted) == Outcome([p] + o.packets, o.complete))
  {
    CopyInspects(cfg, minPad, beyond, b0, mux, hi, lo, ext, body, rest);
    hide Copy.Inspect, FirstByte, IsFrame;
    var s := [b0, mux, hi, lo] + ext + body + rest;
    SubSlice(s, 4 + |ext|, 4 + |ext| + |body|, 0, |body| - b0 % 64 - minPad);
  }

  /** Every buffer that starts with a whole frame: what the frame contributes, and that decoding goes
      on behind it or stops. Command frames and frames of unregistered channels are passed over. */
  lemma CopyDecodes(cfg: Config, minPad: nat, beyond: byte, b0: byte, mux: byte, hi: byte, lo: byte,
                    ext: seq<byte>, body: seq<byte>, rest: seq<byte>, granted: nat)
    requires IsFrame(b0, hi, lo, ext, body)
    requires |[b0, mux, hi, lo] + ext + body + rest| > 4
    requires Copy.PadsFit(cfg, minPad, beyond, rest)
    ensures var s := [b0, mux, hi, lo] + ext + body + rest;
            var len, first := |body| - b0 % 64 - minPad, FirstByte(body, rest, beyond);
            if len > 1500 then
              Copy.PadsFit(cfg, minPad, beyond, s) && Copy.Decode(cfg, minPad, beyond, s, granted) == Outcome([], false)
            else if b0 >= 128 then
              && Copy.PadsFit(cfg, minPad, beyond, s)
              && Copy.Decode(cfg, minPad, beyond, s, granted) == Copy.Decode(cfg, minPad, beyond, rest, granted)
            else if (first / 16 != 4 && first / 16 != 6) || mux < 0x81 || mux - 0x81 >= cfg.mode then
              Copy.PadsFit(cfg, minPad, beyond, s) && Copy.Decode(cfg, minPad, beyond, s, granted) == Outcome([], false)
            else if mux - 0x81 !in cfg.registered then
              && Copy.PadsFit(cfg, minPad, beyond, s)
              && Copy.Decode(cfg, minPad, beyond, s, granted) == Copy.Decode(cfg, minPad, beyond, rest, granted)
            else
              && (Copy.PadsFit(cfg, minPad, beyond, s) <==> len >= 0)
              && (len >= 0 && granted == 0 ==>
                    Copy.Decode(cfg, minPad, beyond, s, granted) == Outcome([], false))
              && (len >= 0 && granted > 0 ==>
                    var o := Copy.Decode(cfg, minPad, beyond, rest, granted - 1);
                    var p := Packet(mux - 0x81, if first / 16 == 4 then IPv4 else IPv6, body[..len]);
                    Copy.Decode(cfg, minPad, beyond, s, granted) == Outcome([p] + o.packets, o.complete))
  {
    CopyInspects(cfg, minPad, beyond, b0, mux, hi, lo, ext, body, rest);
    hide Copy.Inspect, FirstByte, IsFrame;
    var s := [b0, mux, hi, lo] + ext + body + rest;
    var len, size := |body| - b0 % 64 - minPad, 4 + |ext| + |body|;
    if 0 <= len <= |body| {
      SubSlice(s, 4 + |ext|, size, 0, len);
    }
  }

  /** A frame that runs past the data, and data too short for a header. */
  lemma CopyEnds(cfg: Config, minPad: nat, beyond: byte, s: seq<byte>, granted: nat)
    requires |s| > 4 ==> |s| < 4 + (if s[0] / 64 % 2 == 1 then 4 else 0) + 256 * (s[2] as int) + s[3] as int
    ensures Copy.PadsFit(cfg, minPad, beyond, s)
    ensures Copy.Decode(cfg, minPad, beyond, s, granted) == Outcome([], |s| <= 4)
  {
  }

  // ----- the in-place loop

  lemma CloneInspects(cfg: Config, b0: byte, mux: byte, hi: byte, lo: byte, body: seq<byte>, rest: seq<byte>)
    requires |body| == 256 * hi + lo && |body| + |rest| > 0
    ensures var s := [b0, mux, hi, lo] + body + rest;
            var len, first, size := |body| - b0 % 64, (body + rest)[0], 4 + |body|;
            && s[size..] == rest && s[4..size] == body
            && Clone.Inspect(cfg, s)
               == if len > 1500 then Stop
                  else if b0 >= 128 then Skip(size)
                  else if first / 16 != 4 && first / 16 != 6 then Stop
                  else if mux < 0x81 || mux - 0x81 >= cfg.mode then Stop
                  else if mux - 0x81 !in cfg.registered then Skip(size)
                  else Take(size, mux - 0x81, if first / 16 == 4 then IPv4 else IPv6, 4, len)
  {
    var s := [b0, mux, hi, lo] + body + rest;
    assert s == [b0, mux, hi, lo] + (body + rest);
    assert s[4] == (body + rest)[0];
  }

  /** The same for the in-place loop, which does not look at bit 6. */
  lemma CloneDecodes(cfg: Config, b0: byte, mux: byte, hi: byte, lo: byte, body: seq<byte>, rest: seq<byte>, granted: nat)
    requires |body| == 256 * hi + lo && |body| + |rest| > 0
    requires Clone.PadsFit(cfg, rest)
    ensures var s := [b0, mux, hi, lo] + body + rest;
            var len, first := |body| - b0 % 64, (body + rest)[0];
            if len > 1500 then
              Clone.PadsFit(cfg, s) && Clone.Decode(cfg, s, granted) == Outcome([], false)
            else if b0 >= 128 then
              Clone.PadsFit(cfg, s) && Clone.Decode(cfg, s, granted) == Clone.Decode(cfg, rest, granted)
            else if (first / 16 != 4 && first / 16 != 6) || mux < 0x81 || mux - 0x81 >= cfg.mode then
              Clone.PadsFit(cfg, s) && Clone.Decode(cfg, s, granted) == Outcome([], false)
            else if mux - 0x81 !in cfg.registered then
              Clone.PadsFit(cfg, s) && Clone.Decode(cfg, s, granted) == Clone.Decode(cfg, rest, granted)
            else
              && (Clone.PadsFit(cfg, s) <==> len >= 0)
              && (len >= 0 && granted == 0 ==> Clone.Decode(cfg, s, granted) == Outcome([], false))
              && (len >= 0 && granted > 0 ==>
                    var o := Clone.Decode(cfg, rest, granted - 1);
                    var p := Packet(mux - 0x81, if first / 16 == 4 then IPv4 else IPv6, body[..len]);
                    Clone.Decode(cfg, s, granted) == Outcome([p] + o.packets, o.complete))
  {
    CloneInspects(cfg, b0, mux, hi, lo, body, rest);
    var s := [b0, mux, hi, lo] + body + rest;
    var len, size := |body| - b0 % 64, 4 + |body|;
    if 0 <= len <= |body| {
      SubSlice(s, 4, size, 0, len);
    }
    hide Clone.Inspect;
  }

  lemma CloneEnds(cfg: Config, s: seq<byte>, granted: nat)
    requires |s| > 4 ==> |s| < 4 + 256 * (s[2] as int) + s[3] as int
    ensures Clone.PadsFit(cfg, s) && Clone.Decode(cfg, s, granted) == Outcome([], |s| <= 4)
  {
  }

  // ----- whole buffers, as the modem sends them

  /** A frame from the modem: a packet of a channel with its padding, or a command. */
  datatype Wire = Wire(b0: byte, mux: byte, ext: seq<byte>, pkt: seq<byte>, padding: seq<byte>)

  function High(n: nat): byte { n / 256 % 256 }
  function Low(n: nat): byte { n % 256 }

  function WireBytes(w: Wire): seq<byte> {
    var n := |w.pkt| + |w.padding|;
    [w.b0, w.mux, High(n), Low(n)] + w.ext + (w.pkt + w.padding)
  }

  /** Commands with any content; packets of 1 to 1500 bytes, IPv4 or IPv6, for any channel below the
      mode, padded by what the header says and the minimum padding. */
  predicate Legal(cfg: Config, minPad: nat, w: Wire) {
    && |w.ext| == (if w.b0 / 64 % 2 == 1 then 4 else 0)
    && |w.pkt| + |w.padding| < 0x1_0000
    && if w.b0 >= 128 then |w.pkt| + |w.padding| - w.b0 % 64 - minPad <= 1500
       else
         && |w.padding| == w.b0 % 64 + minPad
         && 1 <= |w.pkt| <= 1500 && (w.pkt[0] / 16 == 4 || w.pkt[0] / 16 == 6)
         && 0x81 <= w.mux < 0x81 + cfg.mode
  }

  predicate AllLegal(cfg: Config, minPad: nat, ws: seq<Wire>) { forall i :: 0 <= i < |ws| ==> Legal(cfg, minPad, ws[i]) }

  function Wires(ws: seq<Wire>): seq<byte> { if ws == [] then [] else WireBytes(ws[0]) + Wires(ws[1..]) }

  /** Whether the frame carries a packet for a registered channel. */
  predicate Carries(cfg: Config, w: Wire) {
    w.b0 < 128 && w.pkt != [] && 0x81 <= w.mux && w.mux - 0x81 in cfg.registered
  }

  function PacketIn(cfg: Config, w: Wire): Packet
    requires Carries(cfg, w)
  {
    Packet(w.mux - 0x81, if w.pkt[0] / 16 == 4 then IPv4 else IPv6, w.pkt)
  }

  function Wanted(cfg: Config, ws: seq<Wire>): seq<Packet> {
    if ws == [] then [] else (if Carries(cfg, ws[0]) then [PacketIn(cfg, ws[0])] else []) + Wanted(cfg, ws[1..])
  }

  // The buffer as the frame in front and the others.
  lemma FirstWire(w: Wire, rest: seq<byte>, cfg: Config, minPad: nat)
    requires Legal(cfg, minPad, w)
    ensures var n := |w.pkt| + |w.padding|;
            && IsFrame(w.b0, High(n), Low(n), w.ext, w.pkt + w.padding)
            && WireBytes(w) + rest == [w.b0, w.mux, High(n), Low(n)] + w.ext + (w.pkt + w.padding) + rest
  {
  }

  lemma WireDecodes(cfg: Config, minPad: nat, beyond: byte, w: Wire, rest: seq<byte>, granted: nat)
    requires Legal(cfg, minPad, w) && Copy.PadsFit(cfg, minPad, beyond, rest)
    requires Carries(cfg, w) ==> granted > 0
    requires |WireBytes(w) + rest| > 4
    ensures Copy.PadsFit(cfg, minPad, beyond, WireBytes(w) + rest)
    ensures Copy.Decode(cfg, minPad, beyond, WireBytes(w) + rest, granted)
         == if Carries(cfg, w) then
              var o := Copy.Decode(cfg, minPad, beyond, rest, granted - 1);
              Outcome([PacketIn(cfg, w)] + o.packets, o.complete)
            else Copy.Decode(cfg, minPad, beyond, rest, granted)
  {
    var n, body := |w.pkt| + |w.padding|, w.pkt + w.padding;
    FirstWire(w, rest, cfg, minPad);
    hide Copy.Decode, Copy.PadsFit, WireBytes, High, Low, IsFrame;
    if w.b0 >= 128 {
      CopySkips(cfg, minPad, beyond, w.b0, w.mux, High(n), Low(n), w.ext, body, rest, granted);
    } else {
      BodyStart(w, rest, beyond);
      hide FirstByte;
      if Carries(cfg, w) {
        CopyTakes(cfg, minPad, beyond, w.b0, w.mux, High(n), Low(n), w.ext, body, rest, granted);
      } else {
        CopySkips(cfg, minPad, beyond, w.b0, w.mux, High(n), Low(n), w.ext, body, rest, granted);
      }
    }
  }

  lemma BodyStart(w: Wire, rest: seq<byte>, beyond: byte)
    requires w.pkt != []
    ensures FirstByte(w.pkt + w.padding, rest, beyond) == w.pkt[0] && (w.pkt + w.padding)[..|w.pkt|] == w.pkt
  {
  }

  /** Round trip for everything the modem may send: packets interleaved with commands and with frames
      for channels that are not registered, with and without the second header, with any minimum
      padding. Exactly the packets of registered channels come out, in order, and nothing is left. */
  lemma {:induction false} WiresDecode(cfg: Config, minPad: nat, beyond: byte, ws: seq<Wire>, granted: nat)
    requires AllLegal(cfg, minPad, ws) && |Wanted(cfg, ws)| <= granted
    ensures Copy.PadsFit(cfg, minPad, beyond, Wires(ws))
    ensures Copy.Decode(cfg, minPad, beyond, Wires(ws), granted) == Outcome(Wanted(cfg, ws), true)
    decreases |ws|
  {
    if ws == [] {
      CopyEnds(cfg, minPad, beyond, [], granted);
    } else {
      var w, rest := ws[0], Wires(ws[1..]);
      assert Legal(cfg, minPad, w);
      hide Copy.Decode, Copy.PadsFit, Legal, Carries;
      WiresDecode(cfg, minPad, beyond, ws[1..], if Carries(cfg, w) then granted - 1 else granted);
      if |WireBytes(w) + rest| > 4 {
        WireDecodes(cfg, minPad, beyond, w, rest, granted);
      } else {
        ShortWires(cfg, minPad, beyond, ws, granted);
      }
    }
  }

  // Four bytes are a single empty command.
  lemma ShortWires(cfg: Config, minPad: nat, beyond: byte, ws: seq<Wire>, granted: nat)
    requires ws != [] && Legal(cfg, minPad, ws[0]) && |WireBytes(ws[0]) + Wires(ws[1..])| <= 4
    ensures Copy.PadsFit(cfg, minPad, beyond, Wires(ws)) && Wanted(cfg, ws) == []
    ensures Copy.Decode(cfg, minPad, beyond, Wires(ws), granted) == Outcome([], true)
  {
    CopyEnds(cfg, minPad, beyond, Wires(ws), granted);
    if |ws| > 1 {
      assert false;
    }
  }

  // The in-place loop meets no second header, and every frame has room for its padding.
  lemma {:induction false} WiresPlain(cfg: Config, ws: seq<Wire>)
    requires AllLegal(cfg, 0, ws) && forall i :: 0 <= i < |ws| ==> ws[i].ext == []
    ensures PlainHeaders(cfg, Wires(ws)) && Clone.PadsFit(cfg, Wires(ws))
    decreases |ws|
  {
    if ws != [] {
      var w, rest := ws[0], Wires(ws[1..]);
      assert Legal(cfg, 0, w) && ws[0].ext == [];
      WiresPlain(cfg, ws[1..]);
      PlainInFront(cfg, w, rest);
    }
  }

  lemma PlainInFront(cfg: Config, w: Wire, rest: seq<byte>)
    requires Legal(cfg, 0, w) && w.ext == [] && PlainHeaders(cfg, rest) && Clone.PadsFit(cfg, rest)
    ensures PlainHeaders(cfg, WireBytes(w) + rest) && Clone.PadsFit(cfg, WireBytes(w) + rest)
  {
    var n, body := |w.pkt| + |w.padding|, w.pkt + w.padding;
    FirstWire(w, rest, cfg, 0);
    var s := [w.b0, w.mux, High(n), Low(n)] + body + rest;
    assert WireBytes(w) + rest == s;
    if |s| > 4 {
      CloneInspects(cfg, w.b0, w.mux, High(n), Low(n), body, rest);
      hide Clone.Inspect, High, Low;
      assert s[0] == w.b0;
    }
  }

  /** The same round trip through the in-place loop, without second headers. */
  lemma WiresInPlace(cfg: Config, ws: seq<Wire>, granted: nat)
    requires AllLegal(cfg, 0, ws) && (forall i :: 0 <= i < |ws| ==> ws[i].ext == []) && |Wanted(cfg, ws)| <= granted
    ensures Clone.PadsFit(cfg, Wires(ws)) && Clone.Decode(cfg, Wires(ws), granted) == Outcome(Wanted(cfg, ws), true)
  {
    WiresPlain(cfg, ws);
    WiresDecode(cfg, 0, 0, ws, granted);
    DecodersAgree(cfg, 0, Wires(ws), granted);
  }

  /** A receive call: the packets accepted join the chain, each behind 14 bytes of header. A buffer read
      to its end sends the whole chain up, oldest first; after anything else nothing goes up. */
  lemma CallDelivers(addrs: Clone.Addrs, rx: Clone.Rx, o: Outcome)
    requires Clone.InRange(addrs, o.packets)
    ensures var rx', n := rx.Call(addrs, o), |rx.delivered + rx.pending|;
            var all := rx'.delivered + rx'.pending;
            && |all| == n + |o.packets| && all[..n] == rx.delivered + rx.pending
            && (forall i :: 0 <= i < |o.packets| ==>
                  && all[n + i].chan == o.packets[i].chan
                  && |all[n + i].frame| == 14 + |o.packets[i].payload|
                  && all[n + i].frame[14..] == o.packets[i].payload)
            && (if o.complete then rx'.pending == [] else rx'.delivered == rx.delivered)
  {
    hide Clone.EthHeader;
  }

  // ----- what is sent

  /** add_qhdr in plain numbers: up to three pad bytes, to a multiple of four if there is room and not
      at all otherwise; their number, the channel and the length in front. */
  lemma SentBytes(pkt: seq<byte>, mux: byte, tail: seq<byte>)
    requires |pkt| + 3 < 0x1_0000
    ensures var f := QhdrFrame(pkt, mux, tail);
            var pad := |f| - 4 - |pkt|;
            && 0 <= pad <= 3 && pad <= |tail|
            && ((|pkt| + pad) % 4 == 0 || (pad == 0 && |tail| < 4 - |pkt| % 4))
            && f[0] == pad && f[1] == mux && 256 * (f[2] as int) + f[3] as int == |pkt| + pad
            && f[4..] == pkt + tail[..pad]
  {
  }

  lemma SentBytesV5(pkt: seq<byte>, mux: byte, tail: seq<byte>)
    requires |pkt| + 3 < 0x1_0000
    ensures var f := QhdrFrameV5(pkt, mux, tail);
            var pad := |f| - 8 - |pkt|;
            && 0 <= pad <= 3 && pad <= |tail|
            && ((|pkt| + pad) % 4 == 0 || (pad == 0 && |tail| < 4 - |pkt| % 4))
            && f[0] == 64 + pad && f[1] == mux && 256 * (f[2] as int) + f[3] as int == |pkt| + pad
            && f[4..8] == [4, 0, 0, 0] && f[8..] == pkt + tail[..pad]
  {
  }
}
