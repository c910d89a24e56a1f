/**
 The QMAP framing of the qmi_wwan_f driver: how the transmit side puts a header and pad bytes
 around one IP packet, in place, in the packet's own buffer.
 */
module QmapFrame {
  import opened Bytes

  const HDR_LEN := 4         // sizeof(struct qmap_hdr) and of struct rmnet_map_header
  const V5_HDR_LEN := 8      // the same followed by struct rmnet_map_v5_csum_header
  const MUX_BASE := 0x81     // FIBOCOM_QMAP_MUX_ID
  const MAX_PACKET := 1500
  const CSUM_OFFLOAD: byte := 4   // header_type 2 in the upper seven bits of its byte

  // The first header byte: six pad bits, the next-header bit, the command bit.
  function PadOf(b: byte): nat { b % 64 }
  predicate NextHdr(b: byte) { b / 64 % 2 == 1 }
  predicate IsCommand(b: byte) { b / 128 == 1 }

  function Be16(hi: byte, lo: byte): nat { hi * 256 + lo }

  datatype Proto = IPv4 | IPv6
  datatype Packet = Packet(chan: nat, proto: Proto, payload: seq<byte>)

  /** qmap_mode, and the channels whose network device exists. */
  datatype Config = Config(mode: nat, registered: set<nat>)

  /** What one frame leads to: leave the loop, pass over the frame, or queue a packet. */
  datatype Verdict =
    | Stop
    | Skip(size: nat)
    | Take(size: nat, chan: nat, proto: Proto, at: nat, len: int)

  /** The accepted packets, and whether the loop ran out of data (not into a bad frame). */
  datatype Outcome = Outcome(packets: seq<Packet>, complete: bool) {
    function After(queued: seq<Packet>): Outcome { Outcome(queued + packets, complete) }
  }

  // The switch over the upper nibble of the first payload byte.
  predicate KnownProto(b: byte) { b / 16 == 4 || b / 16 == 6 }

  function ProtoOf(b: byte): Proto
    requires KnownProto(b)
  { if b / 16 == 4 then IPv4 else IPv6 }

  /** A packet buffer: len bytes of buf from data on. Clones are views of one buffer. */
  datatype View = View(buf: array<byte>, data: nat, len: nat) {
    predicate Valid() { data + len <= buf.Length }

    function Bytes(): seq<byte>
      requires Valid()
      reads buf
    { buf[data..data + len] }

    // The room behind the data, with whatever it happens to hold.
    function Tail(): seq<byte>
      requires Valid()
      reads buf
    { buf[data + len..] }
  }

  // Part of a view, as a view and as bytes.
  lemma SubView(skb: View, from: nat, n: nat)
    requires skb.Valid() && from + n <= skb.len
    ensures View(skb.buf, skb.data + from, n).Bytes() == skb.Bytes()[from..from + n]
  {
    SubSlice(skb.buf[..], skb.data, skb.data + skb.len, from, from + n);
  }

  // memcpy of a stretch of a packet's data into a packet of its own.
  method CopyOut(skb: View, from: nat, n: nat) returns (bytes: seq<byte>)
    requires skb.Valid() && from + n <= skb.len
    ensures bytes == skb.Bytes()[from..from + n]
  {
    SubView(skb, from, n);
    bytes := skb.buf[skb.data + from..skb.data + from + n];
  }

  // skb_pull.
  method Pull(skb: View, n: nat) returns (r: View)
    requires skb.Valid() && n <= skb.len
    ensures r == View(skb.buf, skb.data + n, skb.len - n)
    ensures r.Bytes() == skb.Bytes()[n..]
  {
    r := View(skb.buf, skb.data + n, skb.len - n);
    SubView(skb, n, r.len);
  }

  /** Pad to a multiple of four, or not at all when the tailroom is too small for that. */
  function PadLen(len: nat, tailroom: nat): (pad: nat)
    ensures pad <= 3 && pad <= tailroom
    ensures len % 4 == 0 ==> pad == 0
    ensures tailroom >= 3 ==> (len + pad) % 4 == 0
  {
    if len % 4 == 0 || tailroom < 4 - len % 4 then 0 else 4 - len % 4
  }

  function Header(pad: nat, mux: byte, pktLen: nat): (h: seq<byte>)
    requires pad <= 3
    ensures |h| == HDR_LEN
  {
    [pad, mux, pktLen / 256 % 256, pktLen % 256]
  }

  function HeaderV5(pad: nat, mux: byte, pktLen: nat): (h: seq<byte>)
    requires pad <= 3
    ensures |h| == V5_HDR_LEN
  {
    [64 + pad, mux, pktLen / 256 % 256, pktLen % 256, CSUM_OFFLOAD, 0, 0, 0]
  }

  function QhdrFrame(pkt: seq<byte>, mux: byte, tail: seq<byte>): seq<byte> {
    var pad := PadLen(|pkt|, |tail|);
    Header(pad, mux, |pkt| + pad) + (pkt + tail[..pad])
  }

  function QhdrFrameV5(pkt: seq<byte>, mux: byte, tail: seq<byte>): seq<byte> {
    var pad := PadLen(|pkt|, |tail|);
    HeaderV5(pad, mux, |pkt| + pad) + (pkt + tail[..pad])
  }

  // skb_push of a header: it is stored in front of the data, and nothing else moves.
  method PushHeader(skb: View, header: seq<byte>) returns (r: View)
    requires skb.Valid() && |header| <= skb.data
    modifies skb.buf
    ensures r == View(skb.buf, skb.data - |header|, skb.len + |header|)
    ensures r.Bytes() == header + old(skb.Bytes())
    ensures skb.buf[..r.data] == old(skb.buf[..r.data])
    ensures skb.buf[skb.data..] == old(skb.buf[skb.data..])
  {
    r := View(skb.buf, skb.data - |header|, skb.len + |header|);
    ghost var before := skb.buf[..];
    Store(skb.buf, r.data, header);
    assert skb.buf[..][r.data..skb.data] == header;
    assert skb.buf[..][skb.data..] == before[skb.data..];
    assert r.Bytes() == skb.buf[..][r.data..skb.data] + skb.buf[..][skb.data..][..skb.len];
  }

  // The view with pad more bytes of its tail.
  lemma Padded(skb: View, pad: nat)
    requires skb.Valid() && pad <= |skb.Tail()|
    ensures skb.(len := skb.len + pad).Bytes() == skb.Bytes() + skb.Tail()[..pad]
  {
  }

  // __skb_put of the pad bytes: they are what the tailroom held.
  method PutPad(skb: View) returns (padded: View, pad: nat)
    requires skb.Valid()
    ensures pad == PadLen(skb.len, |skb.Tail()|) && padded == skb.(len := skb.len + pad)
    ensures padded.Valid() && padded.Bytes() == skb.Bytes() + skb.Tail()[..pad]
  {
    var tailroom := skb.buf.Length - (skb.data + skb.len);
    pad := skb.len % 4;
    if pad != 0 {
      pad := 4 - pad;
      if tailroom < pad {
        pad := 0;
      }
    }
    padded := skb.(len := skb.len + pad);
    Padded(skb, pad);
  }

  /** add_qhdr: the header goes into the headroom, the pad bytes are what the tailroom held. */
  method AddQhdr(skb: View, mux: byte) returns (r: View)
    requires skb.Valid() && HDR_LEN <= skb.data
    modifies skb.buf
    ensures r.Valid() && r.buf == skb.buf && r.data == skb.data - HDR_LEN
    ensures r.Bytes() == old(QhdrFrame(skb.Bytes(), mux, skb.Tail()))
    ensures skb.buf[..r.data] == old(skb.buf[..r.data])
    ensures skb.buf[skb.data..] == old(skb.buf[skb.data..])
  {
    hide Header, PadLen;
    var padded, pad := PutPad(skb);
    r := PushHeader(padded, Header(pad, mux, padded.len));
  }

  /** add_qhdr_v5: the same with the next-header bit set and a checksum header behind. */
  method AddQhdrV5(skb: View, mux: byte) returns (r: View)
    requires skb.Valid() && V5_HDR_LEN <= skb.data
    modifies skb.buf
    ensures r.Valid() && r.buf == skb.buf && r.data == skb.data - V5_HDR_LEN
    ensures r.Bytes() == old(QhdrFrameV5(skb.Bytes(), mux, skb.Tail()))
    ensures skb.buf[..r.data] == old(skb.buf[..r.data])
    ensures skb.buf[skb.data..] == old(skb.buf[skb.data..])
  {
    hide HeaderV5, PadLen;
    var padded, padding := PutPad(skb);
    r := PushHeader(padded, HeaderV5(padding, mux, skb.len + padding));
  }
}
