/**
 Profile settings on their way to the modem and back (QMIThread.c): the request body is built in
 a message buffer, and read back with one lookup per field.
 */
module QmiProfile {
  import opened Bytes
  import opened QmiTlv
  import opened Wrappers

  const BUF_SIZE := 256       // WDM_DEFAULT_BUFSIZE
  const FIXED_LEN := 9        // sizeof(QMIWDS_MODIFY_PROFILE_SETTINGS_REQ_MSG)
  const MSG_HDR_LEN := 4      // sizeof(QCQMUX_MSG_HDR)

  const APN: byte := 0x14
  const USER: byte := 0x1B
  const PASSWORD: byte := 0x1C
  const AUTH: byte := 0x1D

  /** A C string: no NUL inside. */
  type CStr = s: seq<byte> | 0 !in s witness []

  datatype Profile = Profile(
    apn: Option<CStr>, user: Option<CStr>, password: Option<CStr>,
    auth: int, pdpIndex: int, ipv4: bool, ipv6: bool)

  // ----- what the body is meant to be

  function OptString(ty: byte, s: Option<CStr>): seq<Tlv> { if s.Some? then [Tlv(ty, s.value)] else [] }

  function OptByte(ty: byte, b: Option<byte>): seq<Tlv> { if b.Some? then [Tlv(ty, [b.value])] else [] }

  predicate HasAuth(p: Profile) { p.user.Some? && p.password.Some? }

  function PdpType(p: Profile): byte { if p.ipv6 && p.ipv4 then 3 else if p.ipv6 then 2 else 0 }

  // The C code stores ints into single bytes.
  function LowByte(n: int): byte { n % 256 }

  // The parts of the body that are always there.
  function FixedTlvs(p: Profile): seq<Tlv> { [Tlv(0x01, [0, LowByte(p.pdpIndex)])] + [Tlv(0x11, [PdpType(p)])] }

  function AuthByte(p: Profile): Option<byte> { if HasAuth(p) then Some(LowByte(p.auth)) else None }

  /** The types that a message uses for user, password and authentication. */
  datatype Codes = Codes(user: byte, password: byte, auth: byte) {
    predicate Distinct() { user != password && user != auth && password != auth && APN !in {user, password, auth} }
  }

  const PROFILE_CODES := Codes(USER, PASSWORD, AUTH)

  function CredentialTlvs(p: Profile, c: Codes): seq<Tlv> {
    OptString(APN, p.apn) + OptString(c.user, p.user) + OptString(c.password, p.password) + OptByte(c.auth, AuthByte(p))
  }

  function BodyTlvs(p: Profile): seq<Tlv> { FixedTlvs(p) + CredentialTlvs(p, PROFILE_CODES) }

  // ----- the builder

  /** qstrcpy: the string and its NUL. */
  method StrCpy(buf: array<byte>, at: nat, from: CStr)
    requires at + |from| + 1 <= buf.Length
    modifies buf
    ensures buf[..at] == old(buf[..at])
    ensures buf[at..at + |from|] == from && buf[at + |from|] == 0
    ensures buf[at + |from| + 1..] == old(buf[at + |from| + 1..])
  {
    var i := 0;
    while i < |from|
      invariant i <= |from| && buf[..at] == old(buf[..at]) && buf[at..at + i] == from[..i]
      invariant buf[at + i..] == old(buf[at + i..])
    {
      buf[at + i] := from[i];
      i := i + 1;
    }
    buf[at + i] := 0;
  }

  // A TLV header.
  method PutHeader(buf: array<byte>, at: nat, ty: byte, n: nat)
    requires at + TLV_HDR_LEN <= buf.Length
    modifies buf
    ensures buf[..at] == old(buf[..at])
    ensures buf[at..at + TLV_HDR_LEN] == [ty] + Le16Bytes(n)
  {
    buf[at] := ty;
    buf[at + 1] := n % 256;
    buf[at + 2] := n / 256 % 256;
  }

  // A TLV with a string; its NUL lands behind it.
  method PutString(buf: array<byte>, at: nat, ty: byte, s: CStr)
    requires at + TLV_HDR_LEN + |s| + 1 <= buf.Length
    modifies buf
    ensures buf[..at] == old(buf[..at])
    ensures buf[at..at + TLV_HDR_LEN + |s|] == EncodeTlv(Tlv(ty, s))
  {
    PutHeader(buf, at, ty, |s|);
    ghost var header := buf[..at + TLV_HDR_LEN];
    StrCpy(buf, at + TLV_HDR_LEN, s);
    assert buf[..at] == header[..at];
    assert buf[at..at + TLV_HDR_LEN] == header[at..];
    assert buf[at..at + TLV_HDR_LEN + |s|] == buf[at..at + TLV_HDR_LEN] + buf[at + TLV_HDR_LEN..at + TLV_HDR_LEN + |s|];
  }

  // A TLV with a single byte.
  method PutByte(buf: array<byte>, at: nat, ty: byte, b: byte)
    requires at + TLV_HDR_LEN + 1 <= buf.Length
    modifies buf
    ensures buf[..at] == old(buf[..at])
    ensures buf[at..at + TLV_HDR_LEN + 1] == EncodeTlv(Tlv(ty, [b]))
  {
    PutHeader(buf, at, ty, 1);
    ghost var header := buf[..at + TLV_HDR_LEN];
    buf[at + TLV_HDR_LEN] := b;
    assert buf[..at + TLV_HDR_LEN] == header;
    assert buf[at..at + TLV_HDR_LEN + 1] == buf[..at + TLV_HDR_LEN][at..] + [b];
  }

  lemma Appended(ts: seq<Tlv>, t: Tlv)
    ensures Encode(ts + [t]) == Encode(ts) + EncodeTlv(t)
  {
    EncodePlus(ts, [t]);
    assert Encode([t]) == EncodeTlv(t) + Encode([]) == EncodeTlv(t);
  }

  // One optional string behind the TLVs ts.
  method PutOptString(buf: array<byte>, first: nat, n: nat, ty: byte, s: Option<CStr>, ghost ts: seq<Tlv>)
    returns (n': nat)
    requires first + n <= buf.Length && buf[first..first + n] == Encode(ts)
    requires s.Some? ==> first + n + TLV_HDR_LEN + |s.value| + 1 <= buf.Length
    modifies buf
    ensures buf[..first] == old(buf[..first])
    ensures n' == n + OptLen(s) && buf[first..first + n'] == Encode(ts + OptString(ty, s))
  {
    hide Encode, EncodeTlv;
    n' := n;
    if s.Some? {
      ghost var before := buf[..first + n];
      PutString(buf, first + n, ty, s.value);
      n' := n + TLV_HDR_LEN + |s.value|;
      Appended(ts, Tlv(ty, s.value));
      assert buf[first..first + n] == before[first..];
      assert buf[first..first + n'] == buf[first..first + n] + buf[first + n..first + n'];
      assert buf[..first] == before[..first];
    } else {
      assert ts + OptString(ty, s) == ts;
    }
  }

  function OptLen(s: Option<CStr>): nat { if s.Some? then TLV_HDR_LEN + |s.value| else 0 }

  /** The length of the body, and whether the last string's NUL lands behind it. */
  function BodyLen(p: Profile): nat { 9 + CredentialLen(p) }

  function CredentialLen(p: Profile): nat {
    OptLen(p.apn) + OptLen(p.user) + OptLen(p.password) + (if HasAuth(p) then 4 else 0)
  }

  function Spill(p: Profile): nat {
    if (p.apn.Some? || p.user.Some? || p.password.Some?) && !HasAuth(p) then 1 else 0
  }

  // One optional byte behind the TLVs ts.
  method PutOptByte(buf: array<byte>, first: nat, n: nat, ty: byte, b: Option<byte>, ghost ts: seq<Tlv>)
    returns (n': nat)
    requires first + n <= buf.Length && buf[first..first + n] == Encode(ts)
    requires b.Some? ==> first + n + TLV_HDR_LEN + 1 <= buf.Length
    modifies buf
    ensures buf[..first] == old(buf[..first])
    ensures n' == n + (if b.Some? then TLV_HDR_LEN + 1 else 0) && buf[first..first + n'] == Encode(ts + OptByte(ty, b))
  {
    hide Encode, EncodeTlv;
    n' := n;
    if b.Some? {
      ghost var before := buf[..first + n];
      PutByte(buf, first + n, ty, b.value);
      n' := n + TLV_HDR_LEN + 1;
      Appended(ts, Tlv(ty, [b.value]));
      assert buf[first..first + n] == before[first..];
      assert buf[first..first + n'] == buf[first..first + n] + buf[first + n..first + n'];
      assert buf[..first] == before[..first];
    } else {
      assert ts + OptByte(ty, b) == ts;
    }
  }

  // The strings and the authentication mode, which is written only when there is a user and a password.
  method PutCredentials(buf: array<byte>, first: nat, n: nat, p: Profile, c: Codes, ghost ts: seq<Tlv>)
    returns (n': nat)
    requires first + n + CredentialLen(p) + Spill(p) <= buf.Length && buf[first..first + n] == Encode(ts)
    modifies buf
    ensures buf[..first] == old(buf[..first])
    ensures n' == n + CredentialLen(p) && buf[first..first + n'] == Encode(ts + CredentialTlvs(p, c))
  {
    hide Encode, EncodeTlv, OptString, OptByte, LowByte;
    n' := PutOptString(buf, first, n, APN, p.apn, ts);
    ghost var t1 := ts + OptString(APN, p.apn);
    n' := PutOptString(buf, first, n', c.user, p.user, t1);
    ghost var t2 := t1 + OptString(c.user, p.user);
    n' := PutOptString(buf, first, n', c.password, p.password, t2);
    ghost var t3 := t2 + OptString(c.password, p.password);
    var auth := if p.user.Some? && p.password.Some? then Some(LowByte(p.auth)) else None;
    n' := PutOptByte(buf, first, n', c.auth, auth, t3);
    assert t3 + OptByte(c.auth, auth) == ts + CredentialTlvs(p, c);
  }

  method PutFixed(buf: array<byte>, msg: nat, p: Profile)
    requires msg + MSG_HDR_LEN + 9 <= buf.Length
    modifies buf
    ensures buf[..msg] == old(buf[..msg])
    ensures buf[msg + MSG_HDR_LEN..msg + MSG_HDR_LEN + 9] == Encode(FixedTlvs(p))
  {
    ghost var before := buf[..msg];
    buf[msg + 2], buf[msg + 3] := FIXED_LEN - 4, 0;
    var at := msg + MSG_HDR_LEN;
    PutHeader(buf, at, 0x01, 2);
    ghost var header := buf[..at + 3];
    buf[at + 3] := 0;
    buf[at + 4] := LowByte(p.pdpIndex);
    assert buf[..at + 3] == header;
    assert buf[at..at + 5] == buf[..at + 3][at..] + [0, LowByte(p.pdpIndex)];
    ghost var first := buf[..at + 5];
    PutByte(buf, at + 5, 0x11, PdpType(p));
    assert buf[at..at + 5] == first[at..];
    assert buf[at..at + 9] == buf[at..at + 5] + buf[at + 5..at + 9];
    Appended([Tlv(0x01, [0, LowByte(p.pdpIndex)])], Tlv(0x11, [PdpType(p)]));
    Appended([], Tlv(0x01, [0, LowByte(p.pdpIndex)]));
    assert buf[..msg] == first[..msg] == header[..msg] == before;
  }

  /** WdsModifyProfileSettingsReq: the body is exactly the encoded TLVs. Each NUL that a string copy
      leaves behind its TLV is overwritten by the next one, or lies behind the stated length. */
  method ModifyProfileSettingsReq(buf: array<byte>, msg: nat, p: Profile) returns (size: nat)
    requires msg + MSG_HDR_LEN + BodyLen(p) + Spill(p) <= buf.Length <= 0xFFFF
    modifies buf
    ensures buf[..msg] == old(buf[..msg])
    ensures size == MSG_HDR_LEN + BodyLen(p) && msg + size <= buf.Length
    ensures buf[msg + MSG_HDR_LEN..msg + size] == Encode(BodyTlvs(p))
  {
    hide Encode, EncodeTlv, FixedTlvs, CredentialTlvs;
    PutFixed(buf, msg, p);
    var at := msg + MSG_HDR_LEN;
    ghost var before := buf[..at];
    var n := PutCredentials(buf, at, 9, p, PROFILE_CODES, FixedTlvs(p));
    assert buf[..msg] == before[..msg];
    size := MSG_HDR_LEN + n;
  }

  // ----- reading it back

  /** strndup stops at the first NUL. */
  function CString(v: seq<byte>): (s: CStr) {
    if v == [] || v[0] == 0 then [] else [v[0]] + CString(v[1..])
  }

  lemma {:induction false} CStringOfString(s: CStr)
    ensures CString(s) == s
  {
    if s != [] {
      CStringOfString(s[1..]);
    }
  }

  datatype Settings = Settings(apn: Option<CStr>, user: Option<CStr>, password: Option<CStr>, auth: int)

  function StringAt(s: seq<byte>, ty: byte): Option<CStr>
    requires Chained(s)
  {
    var at := Search(s, 0, ty);
    if at.Some? then Some(CString(ValueAt(s, at.value))) else None
  }

  // The authentication TLV, where there is one, has a value.
  predicate AuthHasValue(s: seq<byte>)
    requires Chained(s)
  {
    Search(s, 0, AUTH).Some? ==> ValueAt(s, Search(s, 0, AUTH).value) != []
  }

  /** The settings that requestGetProfile reads out of a response body. */
  function SettingsIn(s: seq<byte>): Settings
    requires Chained(s) && AuthHasValue(s)
  {
    var at := Search(s, 0, AUTH);
    Settings(StringAt(s, APN), StringAt(s, USER), StringAt(s, PASSWORD),
             if at.Some? then ValueAt(s, at.value)[0] else 0)
  }

  // The value of a TLV of the body, as a piece of the buffer that the body is in.
  lemma ValueInBuffer(b: seq<byte>, first: nat, total: nat, at: nat)
    requires first + total <= |b|
    requires var s := b[first..first + total]; at + TLV_HDR_LEN <= |s| && at + SizeAt(s[at..]) <= |s|
    ensures var from, n := first + at + TLV_HDR_LEN, Le16(b[first + at + 1], b[first + at + 2]);
            from + n <= first + total && ValueAt(b[first..first + total], at) == b[from..from + n]
  {
    var s := b[first..first + total];
    assert s[at..][1] == b[first + at + 1] && s[at..][2] == b[first + at + 2];
    var from, n := first + at + TLV_HDR_LEN, Le16(b[first + at + 1], b[first + at + 2]);
    SubSlice(b, first, first + total, at + TLV_HDR_LEN, at + TLV_HDR_LEN + n);
  }

  // strndup of the value of the TLV at this place.
  method DupString(buf: array<byte>, first: nat, total: nat, at: nat) returns (r: CStr)
    requires first + total <= buf.Length
    requires var s := buf[first..first + total]; at + TLV_HDR_LEN <= |s| && at + SizeAt(s[at..]) <= |s|
    ensures r == CString(ValueAt(buf[first..first + total], at))
  {
    hide ValueAt;
    assert buf[..][first..first + total] == buf[first..first + total];
    ValueInBuffer(buf[..], first, total, at);
    var n := Le16(buf[first + at + 1], buf[first + at + 2]);
    var from := first + at + TLV_HDR_LEN;
    ghost var v := buf[..][from..from + n];
    r := [];
    for i := 0 to n
      invariant r + CString(v[i..]) == CString(v)
    {
      assert v[i] == buf[from + i];
      if buf[from + i] == 0 {
        return;
      }
      assert v[i..][1..] == v[i + 1..];
      Assoc(r, [v[i]], CString(v[i + 1..]));
      r := r + [buf[from + i]];
    }
  }

  // One lookup of requestGetProfile, and the copy of the string found.
  method LookupString(buf: array<byte>, first: nat, total: nat, ty: byte) returns (r: Option<CStr>)
    requires total < 0x1_0000 && first + total <= buf.Length && Chained(buf[first..first + total])
    ensures r == StringAt(buf[first..first + total], ty)
  {
    hide Chained, CString, ValueAt;
    var at := GetTLV(buf, first, total, ty);
    r := None;
    if at.Some? {
      var v := DupString(buf, first, total, at.value);
      r := Some(v);
    }
  }

  method LookupAuth(buf: array<byte>, first: nat, total: nat) returns (r: int)
    requires total < 0x1_0000 && first + total <= buf.Length
    requires Chained(buf[first..first + total]) && AuthHasValue(buf[first..first + total])
    ensures var s := buf[first..first + total];
            var at := Search(s, 0, AUTH);
            r == if at.Some? then ValueAt(s, at.value)[0] else 0
  {
    var at := GetTLV(buf, first, total, AUTH);
    hide Search, Chained;
    r := 0;
    if at.Some? {
      assert ValueAt(buf[first..first + total], at.value) != [];
      r := buf[first + at.value + TLV_HDR_LEN];
    }
  }

  /** The lookups of requestGetProfile. */
  method GetProfile(buf: array<byte>, first: nat, total: nat) returns (r: Settings)
    requires total < 0x1_0000 && first + total <= buf.Length
    requires Chained(buf[first..first + total]) && AuthHasValue(buf[first..first + total])
    ensures r == SettingsIn(buf[first..first + total])
  {
    hide Search, Chained, StringAt, AuthHasValue;
    var apn := LookupString(buf, first, total, APN);
    var user := LookupString(buf, first, total, USER);
    var password := LookupString(buf, first, total, PASSWORD);
    var auth := LookupAuth(buf, first, total);
    r := Settings(apn, user, password, auth);
  }

  lemma FieldOfOpt(ty: byte, s: Option<CStr>, wanted: byte)
    ensures Field(OptString(ty, s), wanted) == if ty == wanted then s else None
  {
  }

  lemma FieldOfOptByte(ty: byte, b: Option<byte>, wanted: byte)
    ensures Field(OptByte(ty, b), wanted) == if ty == wanted && b.Some? then Some([b.value]) else None
  {
  }

  /** What the credential part of a body holds, type by type. */
  lemma CredentialFields(p: Profile, c: Codes, ty: byte)
    requires c.Distinct()
    ensures Field(CredentialTlvs(p, c), ty)
         == if ty == APN then p.apn else if ty == c.user then p.user else if ty == c.password then p.password
            else if ty == c.auth && HasAuth(p) then Some([LowByte(p.auth)]) else None
  {
    hide Field, LowByte;
    var t1 := OptString(APN, p.apn);
    var t2 := t1 + OptString(c.user, p.user);
    var t3 := t2 + OptString(c.password, p.password);
    FieldPlus(t3, OptByte(c.auth, AuthByte(p)), ty);
    FieldPlus(t2, OptString(c.password, p.password), ty);
    FieldPlus(t1, OptString(c.user, p.user), ty);
    FieldOfOpt(APN, p.apn, ty);
    FieldOfOpt(c.user, p.user, ty);
    FieldOfOpt(c.password, p.password, ty);
    FieldOfOptByte(c.auth, AuthByte(p), ty);
  }

  lemma BodyFields(p: Profile, ty: byte)
    requires ty in {APN, USER, PASSWORD, AUTH}
    ensures Field(BodyTlvs(p), ty)
         == if ty == APN then p.apn else if ty == USER then p.user else if ty == PASSWORD then p.password
            else if HasAuth(p) then Some([LowByte(p.auth)]) else None
  {
    hide LowByte;
    var f := FixedTlvs(p);
    CredentialFields(p, PROFILE_CODES, ty);
    FieldPlus(f, CredentialTlvs(p, PROFILE_CODES), ty);
    FieldPlus([f[0]], [f[1]], ty);
  }

  predicate Fits(p: Profile) { BodyLen(p) <= BUF_SIZE }

  lemma BodyEncodable(p: Profile)
    requires Fits(p)
    ensures Encodable(BodyTlvs(p))
  {
  }

  /** Round trip: the body of a request, read back, gives the same strings; the authentication
      mode comes back as its low byte if user and password are both set, and as 0 otherwise. */
  lemma ProfileRoundTrip(p: Profile)
    requires Fits(p)
    ensures var s := Encode(BodyTlvs(p));
            && Chained(s) && AuthHasValue(s)
            && SettingsIn(s)
               == Settings(p.apn, p.user, p.password, if HasAuth(p) then LowByte(p.auth) else 0)
  {
    hide BodyTlvs, Search, Chained, Encode, CString;
    var ts := BodyTlvs(p);
    BodyEncodable(p);
    BodyFields(p, APN);
    BodyFields(p, USER);
    BodyFields(p, PASSWORD);
    BodyFields(p, AUTH);
    LookupFindsField(ts, APN);
    LookupFindsField(ts, USER);
    LookupFindsField(ts, PASSWORD);
    LookupFindsField(ts, AUTH);
    if p.apn.Some? { CStringOfString(p.apn.value); }
    if p.user.Some? { CStringOfString(p.user.value); }
    if p.password.Some? { CStringOfString(p.password.value); }
  }

  /** The authentication mode survives exactly when it is a byte and both strings are set, or 0. */
  lemma AuthRoundTrip(p: Profile)
    requires Fits(p)
    ensures Chained(Encode(BodyTlvs(p))) && AuthHasValue(Encode(BodyTlvs(p)))
    ensures SettingsIn(Encode(BodyTlvs(p))).auth == p.auth
            <==> (HasAuth(p) && 0 <= p.auth <= 255) || (!HasAuth(p) && p.auth == 0)
  {
    hide BodyTlvs, Search, Chained, Encode, StringAt, AuthHasValue;
    ProfileRoundTrip(p);
  }

  /** CHAP with a user but no password comes back as no authentication, and a mode above a byte as
      its low byte. */
  lemma AuthLost()
    ensures var p := Profile(None, Some([0x61]), None, 2, 1, true, false);
            && Fits(p) && Chained(Encode(BodyTlvs(p))) && AuthHasValue(Encode(BodyTlvs(p)))
            && SettingsIn(Encode(BodyTlvs(p))).auth == 0
    ensures var p := Profile(None, Some([0x61]), Some([0x62]), 258, 1, true, false);
            && Fits(p) && Chained(Encode(BodyTlvs(p))) && AuthHasValue(Encode(BodyTlvs(p)))
            && SettingsIn(Encode(BodyTlvs(p))).auth == 2
  {
    hide BodyTlvs, Search, Chained, Encode, StringAt, AuthHasValue;
    ProfileRoundTrip(Profile(None, Some([0x61]), None, 2, 1, true, false));
    ProfileRoundTrip(Profile(None, Some([0x61]), Some([0x62]), 258, 1, true, false));
  }

  const MUX_MSG_AT := 9                   // QCQMI_HDR and QCQMUX_HDR
  const MODIFY_PROFILE := 0x0028          // QMIWDS_MODIFY_PROFILE_SETTINGS_REQ

  /** A complete request: its two length fields describe it, and its body is the encoded TLVs. */
  predicate IsRequest(m: seq<byte>, qmiType: byte, clientId: int, tid: nat, p: Profile) {
    && |m| == MUX_MSG_AT + MSG_HDR_LEN + BodyLen(p)
    && m[0] == 1 && Le16(m[1], m[2]) == |m| - 1 && m[3] == 0 && m[4] == qmiType && m[5] == LowByte(clientId)
    && m[6] == 0 && Le16(m[7], m[8]) == tid
    && Le16(m[9], m[10]) == MODIFY_PROFILE && Le16(m[11], m[12]) == BodyLen(p)
    && m[MUX_MSG_AT + MSG_HDR_LEN..] == Encode(BodyTlvs(p))
  }

  // Two bytes of a number, stored and read back.
  method Put16(buf: array<byte>, at: nat, n: nat)
    requires at + 2 <= buf.Length && n < 0x1_0000
    modifies buf
    ensures Le16(buf[at], buf[at + 1]) == n
    ensures forall i :: 0 <= i < buf.Length && i != at && i != at + 1 ==> buf[i] == old(buf[i])
  {
    buf[at], buf[at + 1] := n % 256, n / 256 % 256;
  }

  // The two-byte fields of the headers.
  method PutNumbers(buf: array<byte>, qmiLength: nat, tid: nat, length: nat)
    requires buf.Length >= MUX_MSG_AT + MSG_HDR_LEN && qmiLength < 0x1_0000 && tid < 0x1_0000 && length < 0x1_0000
    modifies buf
    ensures Le16(buf[1], buf[2]) == qmiLength && Le16(buf[7], buf[8]) == tid
    ensures Le16(buf[9], buf[10]) == MODIFY_PROFILE && Le16(buf[11], buf[12]) == length
    ensures forall i :: MUX_MSG_AT + MSG_HDR_LEN <= i < buf.Length ==> buf[i] == old(buf[i])
  {
    hide Le16;
    Put16(buf, 1, qmiLength);
    Put16(buf, 7, tid);
    Put16(buf, 9, MODIFY_PROFILE);
    Put16(buf, 11, length);
  }

  /** ComposeQMUXMsg with the profile builder: a service without client id gets no request. */
  method ComposeModifyProfile(qmiType: byte, clientId: int, tid: nat, p: Profile) returns (r: Option<seq<byte>>)
    requires tid < 0x1_0000
    requires MUX_MSG_AT + MSG_HDR_LEN + BodyLen(p) + Spill(p) <= BUF_SIZE
    ensures r.Some? <==> clientId != 0
    ensures r.Some? ==> IsRequest(r.value, qmiType, clientId, tid, p)
  {
    hide Encode, BodyTlvs, BodyLen, Spill, LowByte, Le16;
    var buf := new byte[BUF_SIZE](_ => 0);
    if clientId == 0 {
      return None;
    }
    var size := ModifyProfileSettingsReq(buf, MUX_MSG_AT, p);
    ghost var body := buf[MUX_MSG_AT + MSG_HDR_LEN..MUX_MSG_AT + size];
    var length := size - MSG_HDR_LEN;
    var qmiLength := length + MSG_HDR_LEN + 3 + 6 - 1;
    PutNumbers(buf, qmiLength, tid, length);
    buf[0], buf[3], buf[4], buf[5], buf[6] := 1, 0, qmiType, LowByte(clientId), 0;
    assert buf[MUX_MSG_AT + MSG_HDR_LEN..MUX_MSG_AT + size] == body;
    var message := buf[..qmiLength + 1];
    assert message[MUX_MSG_AT + MSG_HDR_LEN..] == body;
    assert forall i :: 0 <= i < MUX_MSG_AT + MSG_HDR_LEN ==> message[i] == buf[i];
    r := Some(message);
  }
}
