/**
 QMI messages byte by byte: TLV bodies, the two requests and what a receiver reads out of them, and
 which message a send returns.
 */
module QmiLaws {
  import opened Bytes
  import opened Wrappers
  import opened QmiTlv
  import Profiles = QmiProfile
  import Start = QmiStartNetwork
  import opened QmiTransactions

  type CStr = Profiles.CStr

  // ----- TLV bodies

  /** One TLV on the wire: its type, two bytes of length with the low one first, and the value. */
  function Part(ty: byte, value: seq<byte>): seq<byte>
    requires |value| < 0x1_0000
  {
    [ty, |value| % 256, |value| / 256] + value
  }

  lemma TlvBytes(ty: byte, value: seq<byte>)
    requires |value| < 0x1_0000
    ensures Encode([Tlv(ty, value)]) == Part(ty, value)
  {
    assert Encode([Tlv(ty, value)]) == EncodeTlv(Tlv(ty, value)) + Encode([]);
  }

  /** What a receiver reads: the value of the first TLV of a type. */
  function Read(s: seq<byte>, ty: byte): Option<seq<byte>> {
    if |s| < 3 then None
    else
      var n := (s[1] as int) + 256 * (s[2] as int);
      if 3 + n > |s| then None else if s[0] == ty then Some(s[3..3 + n]) else Read(s[3 + n..], ty)
  }

  /** On every body whose TLVs do not run past its end, the lookup by type is that reading. */
  lemma {:induction false} LookupReads(s: seq<byte>, n: nat, ty: byte)
    requires Chained(s)
    ensures var at := Search(s, n, ty);
            Read(s, ty) == if at.Some? then Some(ValueAt(s, at.value)) else None
    decreases |s|
  {
    SearchStep(s, n, ty);
    if |s| >= 3 {
      var k := SizeAt(s);
      if s[0] != ty {
        LookupReads(s[k..], n + 1, ty);
        ValueBehind(s, k, Search(s[k..], n + 1, ty));
        hide Search, SizeAt, ValueAt, Chained;
      } else {
        assert s[0..] == s;
      }
    }
  }

  lemma ValueBehind(s: seq<byte>, k: nat, at: Option<nat>)
    requires k <= |s| && (at.Some? ==> at.value + 3 <= |s| - k && at.value + SizeAt(s[k..][at.value..]) <= |s| - k)
    ensures at.Some? ==> k + at.value + SizeAt(s[k + at.value..]) <= |s| && ValueAt(s[k..], at.value) == ValueAt(s, k + at.value)
  {
    if at.Some? {
      assert s[k..][at.value..] == s[k + at.value..];
      SubSlice(s, k, |s|, at.value + 3, at.value + SizeAt(s[k..][at.value..]));
    }
  }

  /** A lookup by a number above 0x1000 points at the TLV with that number of any encoded body, counted
      from 1, and at none if there are fewer; 0x1000 and below is a type. */
  lemma LookupByNumber(ts: seq<Tlv>, n: nat)
    requires Encodable(ts) && n >= 1
    ensures Chained(Encode(ts))
    ensures var at := Search(Encode(ts), 0, 0x1000 + n);
            if n <= |ts| then at.Some? && ValueAt(Encode(ts), at.value) == ts[n - 1].value else at == None
  {
    hide Search, Chained, Encode, EncodeTlv;
    SearchFinds(ts, 0, 0x1000 + n);
    WantedNumber(ts, 0, n);
    if n <= |ts| {
      var s, at := Encode(ts), Offset(ts, n - 1);
      HeadTlv(ts[n - 1], Encode(ts[n..]));
      assert ValueAt(s, at) == s[at..][TLV_HDR_LEN..SizeAt(s[at..])];
    }
  }

  lemma {:induction false} WantedNumber(ts: seq<Tlv>, before: nat, n: nat)
    requires n > before
    ensures FirstWanted(ts, before, 0x1000 + n) == if n - before <= |ts| then n - before - 1 else |ts|
  {
    if ts != [] && n > before + 1 {
      WantedNumber(ts[1..], before + 1, n);
    }
  }

  lemma ReadEncoded(ts: seq<Tlv>, ty: byte)
    requires Encodable(ts)
    ensures Read(Encode(ts), ty) == Field(ts, ty)
  {
    LookupFindsField(ts, ty);
    LookupReads(Encode(ts), 0, ty);
  }

  // ----- the two requests

  function StringPart(ty: byte, s: Option<CStr>): seq<byte>
    requires s.Some? ==> |s.value| < 0x1_0000
  {
    if s.Some? then Part(ty, s.value) else []
  }

  lemma EncodeOptString(ty: byte, s: Option<CStr>)
    requires s.Some? ==> |s.value| < 0x1_0000
    ensures Encode(Profiles.OptString(ty, s)) == StringPart(ty, s)
  {
    if s.Some? {
      TlvBytes(ty, s.value);
    }
  }

  lemma EncodeOptByte(ty: byte, b: Option<byte>)
    ensures Encode(Profiles.OptByte(ty, b)) == if b.Some? then [ty, 1, 0, b.value] else []
  {
    if b.Some? {
      TlvBytes(ty, [b.value]);
    }
  }

  predicate Short(p: Profiles.Profile) {
    && (p.apn.Some? ==> |p.apn.value| < 0x1_0000) && (p.user.Some? ==> |p.user.value| < 0x1_0000)
    && (p.password.Some? ==> |p.password.value| < 0x1_0000)
  }

  lemma CredentialBytes(p: Profiles.Profile, c: Profiles.Codes)
    requires Short(p)
    ensures Encode(Profiles.CredentialTlvs(p, c))
            == StringPart(0x14, p.apn) + StringPart(c.user, p.user) + StringPart(c.password, p.password)
               + if p.user.Some? && p.password.Some? then [c.auth, 1, 0, p.auth % 256] else []
  {
    var apn, user := Profiles.OptString(0x14, p.apn), Profiles.OptString(c.user, p.user);
    var password, auth := Profiles.OptString(c.password, p.password), Profiles.OptByte(c.auth, Profiles.AuthByte(p));
    EncodePlus(apn + user + password, auth);
    EncodePlus(apn + user, password);
    EncodePlus(apn, user);
    EncodeOptString(0x14, p.apn);
    EncodeOptString(c.user, p.user);
    EncodeOptString(c.password, p.password);
    EncodeOptByte(c.auth, Profiles.AuthByte(p));
  }

  /** The body of the request that changes a profile, byte by byte: the index, the address families
      (3 for both, 2 for IPv6, 0 otherwise), the strings that are set, and the authentication mode
      if there is both a user and a password. */
  lemma ProfileBytes(p: Profiles.Profile)
    requires Short(p)
    ensures Encode(Profiles.BodyTlvs(p))
            == [0x01, 2, 0, 0, p.pdpIndex % 256]
               + [0x11, 1, 0, if p.ipv4 && p.ipv6 then 3 else if p.ipv6 then 2 else 0]
               + (StringPart(0x14, p.apn) + StringPart(0x1B, p.user) + StringPart(0x1C, p.password)
                  + if p.user.Some? && p.password.Some? then [0x1D, 1, 0, p.auth % 256] else [])
  {
    hide Encode, StringPart;
    var index, pdp := Tlv(0x01, [0, p.pdpIndex % 256]), Tlv(0x11, [Profiles.PdpType(p)]);
    EncodePlus(Profiles.FixedTlvs(p), Profiles.CredentialTlvs(p, Profiles.PROFILE_CODES));
    EncodePlus([index], [pdp]);
    TlvBytes(0x01, index.value);
    TlvBytes(0x11, pdp.value);
    CredentialBytes(p, Profiles.PROFILE_CODES);
    assert Part(0x01, index.value) == [0x01, 2, 0, 0, p.pdpIndex % 256];
    assert Part(0x11, pdp.value) == [0x11, 1, 0] + pdp.value;
  }

  /** What a receiver reads out of it, type by type. */
  lemma ProfileRead(p: Profiles.Profile, ty: byte)
    requires Profiles.Fits(p)
    ensures Read(Encode(Profiles.BodyTlvs(p)), ty)
            == if ty == 0x01 then Some([0, p.pdpIndex % 256])
               else if ty == 0x11 then Some([if p.ipv4 && p.ipv6 then 3 else if p.ipv6 then 2 else 0])
               else if ty == 0x14 then p.apn
               else if ty == 0x1B then p.user
               else if ty == 0x1C then p.password
               else if ty == 0x1D && p.user.Some? && p.password.Some? then Some([p.auth % 256])
               else None
  {
    Profiles.BodyEncodable(p);
    ReadEncoded(Profiles.BodyTlvs(p), ty);
    var f := Profiles.FixedTlvs(p);
    FieldPlus(f, Profiles.CredentialTlvs(p, Profiles.PROFILE_CODES), ty);
    FieldPlus([f[0]], [f[1]], ty);
    Profiles.CredentialFields(p, Profiles.PROFILE_CODES, ty);
    hide Encode, Read, Profiles.CredentialTlvs;
  }

  /** The whole message around the body. */
  lemma RequestBytes(m: seq<byte>, qmiType: byte, clientId: int, tid: nat, p: Profiles.Profile)
    ensures Profiles.IsRequest(m, qmiType, clientId, tid, p)
            <==> && |m| == 13 + Profiles.BodyLen(p)
                 && m[0] == 1 && (m[1] as int) + 256 * (m[2] as int) == |m| - 1 && m[3] == 0
                 && m[4] == qmiType && m[5] == clientId % 256
                 && m[6] == 0 && (m[7] as int) + 256 * (m[8] as int) == tid
                 && m[9] == 0x28 && m[10] == 0 && (m[11] as int) + 256 * (m[12] as int) == |m| - 13
                 && m[13..] == Encode(Profiles.BodyTlvs(p))
  {
    hide Encode, Profiles.BodyTlvs, Profiles.BodyLen;
  }

  function Ascii(s: string): seq<byte>
    requires forall i :: 0 <= i < |s| ==> s[i] < 128 as char
  {
    seq(|s|, i requires 0 <= i < |s| => s[i] as int)
  }

  /** The strings that go out: on CDMA no access point name, and credentials of its own, with mode 2,
      when the profile's user and password are both missing or empty. */
  lemma EffectiveStrings(a: Start.Start)
    requires Short(a.profile)
    ensures var p := Start.Effective(a);
            var own := a.cdma && (a.profile.user.None? || a.profile.user.value == [])
                       && (a.profile.password.None? || a.profile.password.value == []);
            && Short(p)
            && p.apn == (if a.cdma then None else a.profile.apn)
            && p.user == (if own then Some(Ascii("ctnet@mycdma.cn")) else a.profile.user)
            && p.password == (if own then Some(Ascii("vnet.mobi")) else a.profile.password)
            && p.auth == (if own then 2 else a.profile.auth)
  {
    assert Ascii("ctnet@mycdma.cn") == Start.CDMA_USER;
    assert Ascii("vnet.mobi") == Start.CDMA_PASSWORD;
  }

  /** The body of the request that starts a connection, byte by byte. */
  lemma StartBytes(a: Start.Start)
    requires Short(a.profile)
    ensures Short(Start.Effective(a))
    ensures var p := Start.Effective(a);
            Encode(Start.StartTlvs(a))
            == [0x30, 1, 0, if a.cdma then 2 else 1]
               + (StringPart(0x14, p.apn) + StringPart(0x17, p.user) + StringPart(0x18, p.password)
                  + if p.user.Some? && p.password.Some? then [0x16, 1, 0, p.auth % 256] else [])
               + [0x19, 1, 0, a.ipFamily % 256]
               + if a.pdp != 0 && !a.cdma then [0x31, 1, 0, a.profile.pdpIndex % 256] else []
  {
    EffectiveStrings(a);
    hide Encode;
    var p := Start.Effective(a);
    hide Start.Effective;
    var tech := Profiles.OptByte(0x30, Some(if a.cdma then 2 else 1));
    var credentials := Profiles.CredentialTlvs(p, Start.START_CODES);
    var family, index := Profiles.OptByte(0x19, Some(a.ipFamily % 256)), Profiles.OptByte(0x31, Start.Index(a));
    EncodePlus(tech + credentials + family, index);
    EncodePlus(tech + credentials, family);
    EncodePlus(tech, credentials);
    EncodeOptByte(0x30, Some(if a.cdma then 2 else 1));
    EncodeOptByte(0x19, Some(a.ipFamily % 256));
    EncodeOptByte(0x31, Start.Index(a));
    CredentialBytes(p, Start.START_CODES);
  }

  // ----- reading a response

  /** A string read is what stands before the first NUL, or all of it. */
  lemma {:induction false} StringRead(v: seq<byte>)
    ensures Profiles.CString(v) <= v && 0 !in Profiles.CString(v)
    ensures |Profiles.CString(v)| < |v| ==> v[|Profiles.CString(v)|] == 0
  {
    if v != [] && v[0] != 0 {
      StringRead(v[1..]);
    }
  }

  /** The settings read out of a body: three strings and a mode, 0 if there is none, by their types. */
  lemma SettingsRead(s: seq<byte>)
    requires Chained(s) && Profiles.AuthHasValue(s)
    ensures var r, mode := Profiles.SettingsIn(s), Read(s, 0x1D);
            && r.apn == (if Read(s, 0x14).Some? then Some(Profiles.CString(Read(s, 0x14).value)) else None)
            && r.user == (if Read(s, 0x1B).Some? then Some(Profiles.CString(Read(s, 0x1B).value)) else None)
            && r.password == (if Read(s, 0x1C).Some? then Some(Profiles.CString(Read(s, 0x1C).value)) else None)
            && (mode.Some? ==> mode.value != [])
            && r.auth == if mode.Some? then mode.value[0] else 0
  {
    LookupReads(s, 0, 0x14);
    LookupReads(s, 0, 0x1B);
    LookupReads(s, 0, 0x1C);
    LookupReads(s, 0, 0x1D);
    hide Chained, Search, Read, ValueAt, Profiles.CString;
  }

  // ----- sends and their responses

  /** The next id: one more, but after 255 for control messages and after 65535 for all others it is 1. */
  lemma NextIds(qmiType: byte, id: nat)
    requires id <= if qmiType == 0 then 255 else 65535
    ensures NextId(qmiType, id) == if id == (if qmiType == 0 then 255 else 65535) then 1 else id + 1
  {
  }

  // The request that a send makes.
  function Sending(s: State, qmiType: byte, clientId: byte): Request {
    if qmiType == 0 then Request(0, clientId, if s.ctlId >= 255 then 1 else s.ctlId + 1, s.ctlCount)
    else Request(qmiType, clientId, if s.muxId >= 65535 then 1 else s.muxId + 1, s.muxCount)
  }

  /** Only a message with the type, client and id of the request that is out counts. */
  predicate ForIt(r: Request, m: Message) { m.qmiType == r.qmiType && m.clientId == r.clientId && m.tid == r.tid }

  lemma {:induction false} OthersIgnored(s: State, es: seq<Event>)
    requires CanRun(s, es)
    requires forall e :: e in es ==> e.Recv? && (s.request.Some? ==> !ForIt(s.request.value, e.m))
    ensures Run(s, es) == s
    decreases |es|
  {
    if es != [] {
      assert es[0] in es;
      assert forall e :: e in es[1..] ==> e in es;
      OthersIgnored(s, es[1..]);
    }
  }

  /** A send returns the very message that answers it: messages before it that are not for this
      request, and any messages after it, make no difference. */
  lemma SendReturnsAnswer(s: State, qmiType: byte, clientId: byte, before: seq<Event>, m: Message, after: seq<Event>)
    requires s.waiting.None? && ForIt(Sending(s, qmiType, clientId), m)
    requires m.answers == Some(Sending(s, qmiType, clientId))
    requires forall e :: e in before ==> e.Recv? && !ForIt(Sending(s, qmiType, clientId), e.m)
    requires forall e :: e in after ==> e.Recv?
    requires CanRun(Step(s, Send(qmiType, clientId, true)), before)
    requires CanRun(Answered(s, qmiType, clientId, m), after)
    ensures var s1 := Run(Step(s, Send(qmiType, clientId, true)), before);
            && Enabled(s1, Recv(m, true)) && Step(s1, Recv(m, true)) == Answered(s, qmiType, clientId, m)
    ensures var s2 := Run(Answered(s, qmiType, clientId, m), after);
            && Enabled(s2, Wake)
            && Step(s2, Wake).waiting == None
            && Step(s2, Wake).returned == s.returned + [(Sending(s, qmiType, clientId), Some(m))]
  {
    var s1 := Step(s, Send(qmiType, clientId, true));
    assert s1.request == Some(Sending(s, qmiType, clientId));
    OthersIgnored(s1, before);
    OthersIgnored(Answered(s, qmiType, clientId, m), after);
  }

  // The state in which the answer is there and the sender not awake yet.
  function Answered(s: State, qmiType: byte, clientId: byte, m: Message): State {
    var r := Sending(s, qmiType, clientId);
    var s1 := if qmiType == 0 then s.(ctlId := r.tid, ctlCount := s.ctlCount + 1)
              else s.(muxId := r.tid, muxCount := s.muxCount + 1);
    s1.(request := None, response := Some(m), waiting := Some(r), sent := s.sent + [r])
  }

  /** Everything else returns nothing: a send that the device refuses, a wait that times out, and one
      that is let go without an answer or whose answer found no memory. */
  lemma NothingReturned(s: State, qmiType: byte, clientId: byte, m: Message, allocOk: bool)
    ensures s.waiting.None? ==>
              var r, s' := Sending(s, qmiType, clientId), Step(s, Send(qmiType, clientId, false));
              && s'.waiting.None? && s'.returned == s.returned + [(r, None)] && s'.sent == s.sent + [r]
              && s'.request == Some(r) && s'.response == None
    ensures s.waiting.Some? ==>
              var s' := Step(s, Timeout); s'.waiting.None? && s'.returned == s.returned + [(s.waiting.value, None)]
    ensures s.waiting.Some? && s.response == None ==>
              var s' := Step(s, Wake); s'.waiting.None? && s'.returned == s.returned + [(s.waiting.value, None)]
    ensures Step(s, Quit) == if s.request.Some? then s.(request := None, response := None) else s
    ensures Enabled(s, Recv(m, allocOk)) ==>
              Step(s, Recv(m, allocOk))
              == if s.request.Some? && ForIt(s.request.value, m)
                 then s.(request := None, response := if allocOk then Some(m) else None) else s
  {
  }
}
