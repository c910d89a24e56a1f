/**
 The request that starts a data connection (QMIThread.c): a second body built in a message buffer,
 in which every NUL of a copied string is overwritten by the TLV that follows.
 */
module QmiStartNetwork {
  import opened Bytes
  import opened QmiTlv
  import opened QmiProfile
  import opened Wrappers

  const TECH_PREFERENCE: byte := 0x30
  const IP_FAMILY: byte := 0x19
  const PROFILE_INDEX: byte := 0x31

  const START_CODES := Codes(0x17, 0x18, 0x16)
  const CHAP := 2
  const CDMA_USER: CStr := [0x63, 0x74, 0x6E, 0x65, 0x74, 0x40, 0x6D, 0x79, 0x63, 0x64, 0x6D, 0x61, 0x2E, 0x63, 0x6E]
  const CDMA_PASSWORD: CStr := [0x76, 0x6E, 0x65, 0x74, 0x2E, 0x6D, 0x6F, 0x62, 0x69]

  /** The profile, its pdp and address family, and whether the network is CDMA. */
  datatype Start = Start(profile: Profile, pdp: int, ipFamily: int, cdma: bool)

  predicate Unset(s: Option<CStr>) { s.None? || s.value == [] }

  /** The strings that go out: CDMA has no access point name, and credentials of its own when the
      profile has none. */
  function Effective(a: Start): Profile {
    var p := a.profile.(apn := if a.cdma then None else a.profile.apn);
    if a.cdma && Unset(p.user) && Unset(p.password)
    then p.(user := Some(CDMA_USER), password := Some(CDMA_PASSWORD), auth := CHAP)
    else p
  }

  function Index(a: Start): Option<byte> {
    if a.pdp != 0 && !a.cdma then Some(LowByte(a.profile.pdpIndex)) else None
  }

  function StartTlvs(a: Start): seq<Tlv> {
    OptByte(TECH_PREFERENCE, Some(if a.cdma then 2 else 1)) + CredentialTlvs(Effective(a), START_CODES)
    + OptByte(IP_FAMILY, Some(LowByte(a.ipFamily))) + OptByte(PROFILE_INDEX, Index(a))
  }

  function StartLen(a: Start): nat { 8 + CredentialLen(Effective(a)) + (if Index(a).Some? then 4 else 0) }

  // The length field starts as 0; the technology preference is the first TLV.
  method PutTechPreference(buf: array<byte>, msg: nat, tech: Option<byte>) returns (n: nat)
    requires msg + MSG_HDR_LEN + 4 <= buf.Length && tech.Some?
    modifies buf
    ensures buf[..msg] == old(buf[..msg])
    ensures n == 4 && buf[msg + MSG_HDR_LEN..msg + MSG_HDR_LEN + n] == Encode(OptByte(TECH_PREFERENCE, tech))
  {
    ghost var before := buf[..msg];
    buf[msg + 2], buf[msg + 3] := 0, 0;
    ghost var header := buf[..msg + MSG_HDR_LEN];
    assert header[..msg] == before;
    NoTlvs();
    n := PutOptByte(buf, msg + MSG_HDR_LEN, 0, TECH_PREFERENCE, tech, []);
    assert buf[..msg] == header[..msg];
    assert [] + OptByte(TECH_PREFERENCE, tech) == OptByte(TECH_PREFERENCE, tech);
  }

  /** WdsStartNwInterfaceReq: the body is exactly the encoded TLVs. No room is needed behind it, as a
      TLV without a string comes after all strings. */
  method StartNwInterfaceReq(buf: array<byte>, msg: nat, a: Start) returns (size: nat)
    requires msg + MSG_HDR_LEN + StartLen(a) <= buf.Length <= 0xFFFF
    modifies buf
    ensures buf[..msg] == old(buf[..msg])
    ensures size == MSG_HDR_LEN + StartLen(a) && msg + size <= buf.Length
    ensures buf[msg + MSG_HDR_LEN..msg + size] == Encode(StartTlvs(a))
  {
    hide Encode, EncodeTlv, CredentialTlvs, CredentialLen, OptByte, LowByte;
    var p := a.profile;
    if a.cdma && (p.user.None? || p.user.value == []) && (p.password.None? || p.password.value == []) {
      p := p.(user := Some(CDMA_USER), password := Some(CDMA_PASSWORD), auth := CHAP);
    }
    if a.cdma {
      p := p.(apn := None);
    }
    assert p == Effective(a);
    var at := msg + MSG_HDR_LEN;
    var tech := Some(if a.cdma then 2 else 1);
    var n := PutTechPreference(buf, msg, tech);
    ghost var before := buf[..at];
    ghost var t1 := OptByte(TECH_PREFERENCE, tech);
    n := PutCredentials(buf, at, n, p, START_CODES, t1);
    ghost var t2 := t1 + CredentialTlvs(p, START_CODES);
    n := PutOptByte(buf, at, n, IP_FAMILY, Some(LowByte(a.ipFamily)), t2);
    ghost var t3 := t2 + OptByte(IP_FAMILY, Some(LowByte(a.ipFamily)));
    var index := if a.pdp != 0 && !a.cdma then Some(LowByte(a.profile.pdpIndex)) else None;
    n := PutOptByte(buf, at, n, PROFILE_INDEX, index, t3);
    assert t3 + OptByte(PROFILE_INDEX, index) == StartTlvs(a);
    assert buf[..msg] == before[..msg];
    size := MSG_HDR_LEN + n;
  }

  lemma NoTlvs()
    ensures Encode([]) == []
  {
  }

  /** What a receiver that looks the fields up by type finds: every field of the request, and nothing
      for those that were left out. */
  lemma StartRoundTrip(a: Start, ty: byte)
    requires StartLen(a) < 0x1_0000
    ensures var s, p := Encode(StartTlvs(a)), Effective(a);
            && Chained(s)
            && var at := Search(s, 0, ty);
               (if at.Some? then Some(ValueAt(s, at.value)) else None)
               == if ty == TECH_PREFERENCE then Some([if a.cdma then 2 else 1])
                  else if ty == APN then p.apn
                  else if ty == START_CODES.user then p.user
                  else if ty == START_CODES.password then p.password
                  else if ty == START_CODES.auth && HasAuth(p) then Some([LowByte(p.auth)])
                  else if ty == IP_FAMILY then Some([LowByte(a.ipFamily)])
                  else if ty == PROFILE_INDEX && Index(a).Some? then Some([Index(a).value]) else None
  {
    hide Field, LowByte, CredentialTlvs, Encode, Search, Chained;
    var p := Effective(a);
    var t1 := OptByte(TECH_PREFERENCE, Some(if a.cdma then 2 else 1));
    var t2 := t1 + CredentialTlvs(p, START_CODES);
    var t3 := t2 + OptByte(IP_FAMILY, Some(LowByte(a.ipFamily)));
    StartEncodable(a);
    LookupFindsField(StartTlvs(a), ty);
    FieldPlus(t3, OptByte(PROFILE_INDEX, Index(a)), ty);
    FieldPlus(t2, OptByte(IP_FAMILY, Some(LowByte(a.ipFamily))), ty);
    FieldPlus(t1, CredentialTlvs(p, START_CODES), ty);
    CredentialFields(p, START_CODES, ty);
    FieldOfOptByte(TECH_PREFERENCE, Some(if a.cdma then 2 else 1), ty);
    FieldOfOptByte(IP_FAMILY, Some(LowByte(a.ipFamily)), ty);
    FieldOfOptByte(PROFILE_INDEX, Index(a), ty);
  }

  lemma StartEncodable(a: Start)
    requires StartLen(a) < 0x1_0000
    ensures Encodable(StartTlvs(a))
  {
  }
}
