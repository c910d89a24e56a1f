/**
 The TLV bodies of QMI messages: their encoding, and the two lookups that walk over them, the
 dialer's (QMIThread.c) and the proxy's (fibo_qmimsg_server.c).
 */
module QmiTlv {
  import opened Bytes
  import opened Wrappers

  const TLV_HDR_LEN := 3

  datatype Tlv = Tlv(ty: byte, value: seq<byte>)

  function Le16(lo: byte, hi: byte): nat { lo + 256 * hi }

  function Le16Bytes(n: nat): seq<byte> { [n % 256, n / 256 % 256] }

  function EncodeTlv(t: Tlv): seq<byte> { [t.ty] + Le16Bytes(|t.value|) + t.value }

  function Encode(ts: seq<Tlv>): seq<byte> {
    if ts == [] then [] else EncodeTlv(ts[0]) + Encode(ts[1..])
  }

  lemma {:induction false} EncodePlus(a: seq<Tlv>, b: seq<Tlv>)
    ensures Encode(a + b) == Encode(a) + Encode(b)
  {
    hide EncodeTlv;
    if a == [] {
      assert a + b == b;
    } else {
      EncodePlus(a[1..], b);
      assert (a + b)[1..] == a[1..] + b;
      Assoc(EncodeTlv(a[0]), Encode(a[1..]), Encode(b));
    }
  }

  // ----- the lookup

  function SizeAt(s: seq<byte>): nat
    requires |s| >= TLV_HDR_LEN
  {
    TLV_HDR_LEN + Le16(s[1], s[2])
  }

  /** No TLV runs past the end of the body. */
  predicate Chained(s: seq<byte>)
    decreases |s|
  {
    |s| >= TLV_HDR_LEN ==> SizeAt(s) <= |s| && Chained(s[SizeAt(s)..])
  }

  // Whether the TLV, number n of the body counted from 1, is the one asked for.
  predicate Wanted(ty: byte, n: nat, wanted: int) {
    if wanted > 0x1000 then n + 0x1000 == wanted else ty == wanted
  }

  /** Where GetTLV stops in the body s, when n TLVs lie before it. */
  function Search(s: seq<byte>, n: nat, wanted: int): (at: Option<nat>)
    requires Chained(s)
    ensures at.Some? ==> at.value + TLV_HDR_LEN <= |s| && at.value + SizeAt(s[at.value..]) <= |s|
    decreases |s|
  {
    if |s| < TLV_HDR_LEN then None
    else if Wanted(s[0], n + 1, wanted) then Some(0)
    else
      var k := SizeAt(s);
      match Search(s[k..], n + 1, wanted)
      case None => None
      case Some(at) => assert s[k..][at..] == s[k + at..]; Some(k + at)
  }

  function Shift(dist: nat, at: Option<nat>): Option<nat> {
    if at.Some? then Some(dist + at.value) else None
  }

  // One turn of the walk.
  lemma SearchStep(s: seq<byte>, n: nat, wanted: int)
    requires Chained(s)
    ensures |s| < TLV_HDR_LEN ==> Search(s, n, wanted) == None
    ensures |s| >= TLV_HDR_LEN && Wanted(s[0], n + 1, wanted) ==> Search(s, n, wanted) == Some(0)
    ensures |s| >= TLV_HDR_LEN && !Wanted(s[0], n + 1, wanted) ==>
              && SizeAt(s) <= |s| && Chained(s[SizeAt(s)..])
              && Search(s, n, wanted) == Shift(SizeAt(s), Search(s[SizeAt(s)..], n + 1, wanted))
  {
  }

  function Minus16(a: nat, b: nat): (r: nat)
    ensures b <= a < 0x1_0000 ==> r == a - b
  {
    (a - b) % 0x1_0000
  }

  // The TLV that starts at p, where the rest of the body is s.
  method SizeOf(buf: array<byte>, p: nat, ghost s: seq<byte>) returns (size: nat)
    requires |s| >= TLV_HDR_LEN && LiesAt(buf, p, s)
    ensures size == SizeAt(s) >= TLV_HDR_LEN
    ensures size <= |s| ==> LiesAt(buf, p + size, s[size..])
  {
    size := Le16(buf[p + 1], buf[p + 2]) + TLV_HDR_LEN;
  }

  ghost predicate LiesAt(buf: array<byte>, p: nat, s: seq<byte>)
    reads buf
  {
    p + |s| <= buf.Length && forall i :: 0 <= i < |s| ==> s[i] == buf[p + i]
  }

  /** GetTLV: Length is an unsigned 16-bit number that shrinks as the pointer advances. */
  method GetTLV(buf: array<byte>, first: nat, total: nat, wanted: int) returns (at: Option<nat>)
    requires total < 0x1_0000 && first + total <= buf.Length && Chained(buf[first..first + total])
    ensures at == Search(buf[first..first + total], 0, wanted)
  {
    hide Search, Chained, SizeAt, Minus16, Le16;
    var found, length, p := 0, total, first;
    ghost var body := buf[first..first + total];
    ghost var s := body;
    while length >= TLV_HDR_LEN
      invariant first <= p && 0 <= length <= total && p + length == first + total
      invariant |s| == length && LiesAt(buf, p, s) && Chained(s)
      invariant Search(body, 0, wanted) == Shift(p - first, Search(s, found, wanted))
      decreases length
    {
      SearchStep(s, found, wanted);
      found := found + 1;
      if wanted > 0x1000 {
        if found + 0x1000 == wanted {
          return Some(p - first);
        }
      } else if buf[p] == wanted {
        return Some(p - first);
      }
      var size := SizeOf(buf, p, s);
      s := s[size..];
      length, p := Minus16(length, size), p + size;
    }
    SearchStep(s, found, wanted);
    at := None;
  }

  // ----- the proxy's own lookup

  /** Where qmi_find_tlv stops: it looks at a TLV as long as the body has a byte left. */
  function LooseSearch(s: seq<byte>, ty: byte): Option<nat>
    requires Chained(s)
  {
    if s == [] then None
    else if s[0] == ty then Some(0)
    else if |s| < TLV_HDR_LEN then None
    else Shift(SizeAt(s), LooseSearch(s[SizeAt(s)..], ty))
  }

  /** What is left behind the last complete TLV: too short for another one. */
  function Leftover(s: seq<byte>): (r: seq<byte>)
    requires Chained(s)
    ensures |r| < TLV_HDR_LEN
  {
    if |s| < TLV_HDR_LEN then s else Leftover(s[SizeAt(s)..])
  }

  /** qmi_find_tlv. Bytes behind the body can be read: the message buffer is larger. */
  method FindTlv(buf: array<byte>, first: nat, total: nat, ty: byte) returns (at: Option<nat>)
    requires first + total + 2 <= buf.Length && Chained(buf[first..first + total])
    ensures at == LooseSearch(buf[first..first + total], ty)
  {
    hide Chained, LooseSearch, Le16;
    var length := 0;
    ghost var body := buf[first..first + total];
    ghost var s := body;
    while length < total
      invariant length <= total ==> s == buf[first + length..first + total] && Chained(s)
      invariant LooseSearch(body, ty) == if length <= total then Shift(length, LooseSearch(s, ty)) else None
      decreases total - length
    {
      LooseStep(s, ty);
      var at := first + length;
      if buf[at] == ty {
        return Some(length);
      }
      var size := Le16(buf[at + 1], buf[at + 2]) + TLV_HDR_LEN;
      if |s| >= TLV_HDR_LEN {
        assert s[1] == buf[at + 1] && s[2] == buf[at + 2];
        s := s[size..];
      }
      length := length + size;
    }
    if length == total {
      LooseStep(s, ty);
    }
    at := None;
  }

  lemma LooseStep(s: seq<byte>, ty: byte)
    requires Chained(s)
    ensures s == [] || (s[0] != ty && |s| < TLV_HDR_LEN) ==> LooseSearch(s, ty) == None
    ensures s != [] && s[0] == ty ==> LooseSearch(s, ty) == Some(0)
    ensures |s| >= TLV_HDR_LEN ==> SizeAt(s) <= |s| && Chained(s[SizeAt(s)..])
    ensures |s| >= TLV_HDR_LEN && s[0] != ty ==> LooseSearch(s, ty) == Shift(SizeAt(s), LooseSearch(s[SizeAt(s)..], ty))
  {
  }

  /** The two lookups differ exactly when there is no such TLV and the bytes left over start like one. */
  lemma {:induction false} LookupsAgreeIff(s: seq<byte>, n: nat, ty: byte)
    requires Chained(s)
    ensures LooseSearch(s, ty) == Search(s, n, ty)
            <==> Search(s, n, ty).Some? || Leftover(s) == [] || Leftover(s)[0] != ty
  {
    SearchStep(s, n, ty);
    if |s| >= TLV_HDR_LEN {
      LookupsAgreeIff(s[SizeAt(s)..], n + 1, ty);
    }
  }

  // The TLV number k of an encoded body, and where it starts.
  function Offset(ts: seq<Tlv>, k: nat): nat
    requires k <= |ts|
  {
    |Encode(ts[..k])|
  }

  predicate Encodable(ts: seq<Tlv>) { forall t :: t in ts ==> |t.value| < 0x1_0000 }

  /** The TLV that GetTLV is meant to find: the first of that type, or the one of that number. */
  function FirstWanted(ts: seq<Tlv>, n: nat, wanted: int): (k: nat)
    ensures k <= |ts|
  {
    if ts == [] || Wanted(ts[0].ty, n + 1, wanted) then 0 else 1 + FirstWanted(ts[1..], n + 1, wanted)
  }

  lemma HeadTlv(t: Tlv, rest: seq<byte>)
    requires |t.value| < 0x1_0000
    ensures var s := EncodeTlv(t) + rest;
            && |s| >= TLV_HDR_LEN && s[0] == t.ty && SizeAt(s) == |EncodeTlv(t)| == TLV_HDR_LEN + |t.value|
            && s[SizeAt(s)..] == rest && s[TLV_HDR_LEN..SizeAt(s)] == t.value
  {
    var n := |t.value|;
    assert Le16(n % 256, n / 256 % 256) == n;
  }

  /** The lookup finds the wanted TLV of any encoded body, and nothing when there is none. */
  lemma {:induction false} SearchFinds(ts: seq<Tlv>, n: nat, wanted: int)
    requires Encodable(ts)
    ensures var s, k := Encode(ts), FirstWanted(ts, n, wanted);
            && Chained(s)
            && (k == |ts| ==> Search(s, n, wanted) == None)
            && (k < |ts| ==> Search(s, n, wanted) == Some(Offset(ts, k)) && Offset(ts, k) <= |s|
                             && s[Offset(ts, k)..] == EncodeTlv(ts[k]) + Encode(ts[k + 1..]))
  {
    hide Search, SizeAt, EncodeTlv;
    if ts == [] {
      SearchStep([], n, wanted);
    } else {
      var s, rest, k := Encode(ts), Encode(ts[1..]), FirstWanted(ts, n, wanted);
      var size := |EncodeTlv(ts[0])|;
      HeadTlv(ts[0], rest);
      assert s == EncodeTlv(ts[0]) + rest && s[size..] == rest;
      SearchFinds(ts[1..], n + 1, wanted);
      SearchStep(s, n, wanted);
      if k == 0 {
        assert ts[..0] == [];
      } else if k < |ts| {
        OffsetSplit(ts, k);
        assert ts[1..][k..] == ts[k + 1..];
      }
    }
  }

  /** So on every encoded body they agree. */
  lemma {:induction false} NothingLeftOver(ts: seq<Tlv>, n: nat, ty: byte)
    requires Encodable(ts)
    ensures Chained(Encode(ts)) && Leftover(Encode(ts)) == [] && LooseSearch(Encode(ts), ty) == Search(Encode(ts), n, ty)
  {
    hide Search, LooseSearch, EncodeTlv;
    SearchFinds(ts, n, ty);
    if ts != [] {
      HeadTlv(ts[0], Encode(ts[1..]));
      NothingLeftOver(ts[1..], n, ty);
    }
    LookupsAgreeIff(Encode(ts), n, ty);
  }

  lemma OffsetSplit(ts: seq<Tlv>, k: nat)
    requires 0 < k <= |ts|
    ensures Offset(ts, k) == |EncodeTlv(ts[0])| + Offset(ts[1..], k - 1)
    ensures Offset(ts[1..], k - 1) <= |Encode(ts[1..])|
            ==> Encode(ts)[Offset(ts, k)..] == Encode(ts[1..])[Offset(ts[1..], k - 1)..]
  {
    assert ts[..k][1..] == ts[1..][..k - 1];
  }

  /** The value of the first TLV of a type. */
  function Field(ts: seq<Tlv>, ty: byte): Option<seq<byte>> {
    if ts == [] then None else if ts[0].ty == ty then Some(ts[0].value) else Field(ts[1..], ty)
  }

  lemma {:induction false} FieldPlus(a: seq<Tlv>, b: seq<Tlv>, ty: byte)
    ensures Field(a + b, ty) == if Field(a, ty).Some? then Field(a, ty) else Field(b, ty)
  {
    if a == [] {
      assert a + b == b;
    } else {
      FieldPlus(a[1..], b, ty);
      assert (a + b)[1..] == a[1..] + b;
    }
  }

  lemma {:induction false} FieldIsFirst(ts: seq<Tlv>, n: nat, ty: byte)
    ensures var k := FirstWanted(ts, n, ty); Field(ts, ty) == if k < |ts| then Some(ts[k].value) else None
  {
    if ts != [] {
      FieldIsFirst(ts[1..], n + 1, ty);
    }
  }

  // The bytes of the TLV that starts at this place of a body.
  function ValueAt(s: seq<byte>, at: nat): seq<byte>
    requires at + TLV_HDR_LEN <= |s| && at + SizeAt(s[at..]) <= |s|
  {
    s[at + TLV_HDR_LEN..at + SizeAt(s[at..])]
  }

  /** What a lookup by type returns points at the field's value; it returns nothing otherwise. */
  lemma LookupFindsField(ts: seq<Tlv>, ty: byte)
    requires Encodable(ts)
    ensures Chained(Encode(ts))
    ensures var s := Encode(ts);
            var at := Search(s, 0, ty);
            Field(ts, ty) == if at.Some? then Some(ValueAt(s, at.value)) else None
  {
    hide Search, Chained, Encode, EncodeTlv;
    var s, k := Encode(ts), FirstWanted(ts, 0, ty);
    SearchFinds(ts, 0, ty);
    FieldIsFirst(ts, 0, ty);
    if k < |ts| {
      var at := Offset(ts, k);
      HeadTlv(ts[k], Encode(ts[k + 1..]));
      assert ValueAt(s, at) == s[at..][TLV_HDR_LEN..SizeAt(s[at..])];
    }
  }
}
