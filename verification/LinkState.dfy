/**
 The link-state register of the qmi_wwan_f driver (link_state_store): one bit a channel, a copy of
 that bit in the channel's own data, and carriers that follow them.
 */
module LinkState {
  import opened Wrappers

  /** Channels are numbered from 0; there are at most four. */
  datatype State = State(
    mode: nat,                // qmap_mode
    registered: set<nat>,     // channels with a network device of their own
    reg: nat,                 // link_state
    own: seq<bool>,           // the channels' own link_state
    carrier: bool,            // parent device
    chanCarrier: seq<bool>)

  predicate WellSized(s: State) { 1 <= s.mode <= 4 == |s.own| == |s.chanCarrier| }

  // Bit k of the register, and the register with that bit set or cleared.
  function Mask(k: nat): nat { if k == 0 then 1 else if k == 1 then 2 else if k == 2 then 4 else 8 }

  predicate Bit(reg: nat, k: nat)
    requires k < 4
  {
    if k == 0 then reg % 2 == 1 else if k == 1 then reg / 2 % 2 == 1
    else if k == 2 then reg / 4 % 2 == 1 else reg / 8 % 2 == 1
  }

  function Set(reg: nat, k: nat): nat
    requires k < 4
  {
    if Bit(reg, k) then reg else reg + Mask(k)
  }

  function Clear(reg: nat, k: nat): nat
    requires k < 4
  {
    if Bit(reg, k) then reg - Mask(k) else reg
  }

  /** The channel a stored number is for; offset_id is unsigned, so 0 is out of range as well. */
  function Target(mode: nat, v: nat): Option<nat> {
    if mode == 1 then Some(0)
    else if 1 <= v % 128 <= mode then Some(v % 128 - 1) else None
  }

  predicate Up(mode: nat, v: nat) { if mode == 1 then v != 0 else v / 128 % 2 == 0 }

  function Stored(s: State, v: nat): (s': State)
    requires WellSized(s)
    ensures WellSized(s') && s'.mode == s.mode && s'.registered == s.registered
  {
    var target := Target(s.mode, v);
    if target.None? then s
    else
      var k := target.value;
      var reg := if s.mode == 1 then (if v != 0 then 1 else 0)
                 else if Up(s.mode, v) then Set(s.reg, k) else Clear(s.reg, k);
      if reg == s.reg then s
      else if k !in s.registered then s.(reg := reg, carrier := reg != 0)
      else s.(reg := reg, carrier := reg != 0,
              own := s.own[k := Bit(reg, k)], chanCarrier := s.chanCarrier[k := Bit(reg, k)])
  }

  class Register {
    const mode: nat
    const registered: set<nat>
    var reg: nat
    var own: seq<bool>
    var carrier: bool
    var chanCarrier: seq<bool>

    ghost function Abs(): State
      reads this
    {
      State(mode, registered, reg, own, carrier, chanCarrier)
    }

    constructor (mode: nat, registered: set<nat>)
      requires 1 <= mode <= 4
      ensures WellSized(Abs()) && Coherent(Abs()) && reg == 0
      ensures this.mode == mode && this.registered == registered
    {
      this.mode, this.registered := mode, registered;
      reg, carrier := 0, false;
      own, chanCarrier := [false, false, false, false], [false, false, false, false];
    }

    /** link_state_store */
    method Store(linkState: nat)
      requires WellSized(Abs())
      modifies this
      ensures Abs() == Stored(old(Abs()), linkState)
    {
      var oldLink := reg;
      var offsetId: nat := 0;
      if mode == 1 {
        reg := if linkState != 0 then 1 else 0;
      } else {
        if linkState % 128 == 0 || linkState % 128 - 1 >= mode {
          return;
        }
        offsetId := linkState % 128 - 1;
        if linkState / 128 % 2 == 1 {
          reg := Clear(reg, offsetId);
        } else {
          reg := Set(reg, offsetId);
        }
      }
      if oldLink != reg {
        carrier := reg != 0;
        if offsetId in registered {
          own := own[offsetId := Bit(reg, offsetId)];
          chanCarrier := chanCarrier[offsetId := own[offsetId]];
        }
      }
    }
  }

  /** Each channel's flag is its bit, and the parent carrier is on exactly when some bit is set. */
  predicate Coherent(s: State)
    requires WellSized(s)
  {
    && (forall k :: k in s.registered && k < s.mode ==> s.own[k] == Bit(s.reg, k) && s.chanCarrier[k] == s.own[k])
    && s.carrier == (exists k :: 0 <= k < s.mode && Bit(s.reg, k))
    && (forall k :: s.mode <= k < 4 ==> !Bit(s.reg, k))
    && s.reg < 16
  }

  // The register with these four bits.
  function Word(b: seq<bool>): nat
    requires |b| == 4
  {
    (if b[0] then 1 else 0) + (if b[1] then 2 else 0) + (if b[2] then 4 else 0) + (if b[3] then 8 else 0)
  }

  function Bits(reg: nat): (b: seq<bool>)
    ensures |b| == 4 && forall j :: 0 <= j < 4 ==> b[j] == Bit(reg, j)
  {
    [Bit(reg, 0), Bit(reg, 1), Bit(reg, 2), Bit(reg, 3)]
  }

  lemma WordBits(b: seq<bool>)
    requires |b| == 4
    ensures Word(b) < 16 && Bits(Word(b)) == b
  {
  }

  lemma BitsWord(reg: nat)
    requires reg < 16
    ensures Word(Bits(reg)) == reg
  {
  }

  lemma SetBit(reg: nat, k: nat, j: nat)
    requires k < 4 && j < 4 && reg < 16
    ensures Bit(Set(reg, k), j) == (j == k || Bit(reg, j)) && Set(reg, k) < 16
  {
    hide Bit;
    BitsWord(reg);
    WordBits(Bits(reg)[k := true]);
    assert Set(reg, k) == Word(Bits(reg)[k := true]);
  }

  lemma ClearBit(reg: nat, k: nat, j: nat)
    requires k < 4 && j < 4 && reg < 16
    ensures Bit(Clear(reg, k), j) == (j != k && Bit(reg, j)) && Clear(reg, k) < 16
  {
    hide Bit;
    BitsWord(reg);
    WordBits(Bits(reg)[k := false]);
    assert Clear(reg, k) == Word(Bits(reg)[k := false]);
  }

  lemma NonZero(reg: nat)
    requires reg < 16
    ensures reg != 0 <==> Bit(reg, 0) || Bit(reg, 1) || Bit(reg, 2) || Bit(reg, 3)
  {
  }

  /** A store changes the bit of its channel to what it says, and no other bit. */
  lemma StoredBit(s: State, v: nat, j: nat)
    requires WellSized(s) && j < 4 && s.reg < 16
    requires s.mode == 1 ==> s.reg < 2
    ensures var s' := Stored(s, v);
            && s'.reg < 16 && (s.mode == 1 ==> s'.reg < 2)
            && Bit(s'.reg, j) == if Target(s.mode, v) == Some(j) then Up(s.mode, v) else Bit(s.reg, j)
  {
    hide Bit, Set, Clear;
    if s.mode > 1 && Target(s.mode, v).Some? {
      SetBit(s.reg, Target(s.mode, v).value, j);
      ClearBit(s.reg, Target(s.mode, v).value, j);
    }
    SmallRegister(s.reg, j);
    SmallRegister(Stored(s, v).reg, j);
  }

  lemma SmallRegister(reg: nat, j: nat)
    requires j < 4
    ensures reg < 2 ==> Bit(reg, j) == (j == 0 && reg == 1)
  {
  }

  /** A store in numbers. With one channel the register becomes 0 or 1. With more, the low seven bits name
      the channel, counted from 1, and the eighth tells whether its bit is taken away or put in; numbers
      that name no channel change nothing. When the register changes, the parent's carrier follows it,
      and so do the channel's flag and carrier if it has a device. */
  lemma StoredNumber(s: State, v: nat, k: nat, m: nat)
    requires WellSized(s) && s.reg < 16 && (k, m) in {(0, 1), (1, 2), (2, 4), (3, 8)}
    ensures var s', up := Stored(s, v), v / 128 % 2 == 0;
            if s.mode == 1 then k == 0 ==> s'.reg == (if v == 0 then 0 else 1) && Follows(s, s', 0, v != 0)
            else if v % 128 == 0 || v % 128 > s.mode then s' == s
            else v % 128 == k + 1 ==>
              var on := s.reg / m % 2 == 1;
              s'.reg == (if on == up then s.reg else if up then s.reg + m else s.reg - m) && Follows(s, s', k, up)
  {
    MaskNumber(s.reg, k, m);
    if s.mode == 1 {
      SmallRegister(Stored(s, v).reg, 0);
    } else {
      SetBit(s.reg, k, k);
      ClearBit(s.reg, k, k);
    }
    hide Bit, Mask;
  }

  lemma MaskNumber(reg: nat, k: nat, m: nat)
    requires (k, m) in {(0, 1), (1, 2), (2, 4), (3, 8)}
    ensures k < 4 && m > 0 && Mask(k) == m && (Bit(reg, k) <==> reg / m % 2 == 1)
  {
  }

  /** Flags and carriers after a store for channel k. */
  predicate Follows(s: State, s': State, k: nat, up: bool)
    requires WellSized(s) && k < 4
  {
    if s'.reg == s.reg then s' == s
    else s' == s.(reg := s'.reg, carrier := s'.reg > 0,
                  own := if k in s.registered then s.own[k := up] else s.own,
                  chanCarrier := if k in s.registered then s.chanCarrier[k := up] else s.chanCarrier)
  }

  /** Every store keeps the register, the channels' flags and the carriers in step. */
  lemma CoherentStep(s: State, v: nat)
    requires WellSized(s) && Coherent(s)
    ensures Coherent(Stored(s, v))
  {
    hide Bit, Set, Clear;
    var s' := Stored(s, v);
    OneChannel(s);
    forall j: nat | j < 4
      ensures s'.reg < 16
      ensures Bit(s'.reg, j) == if Target(s.mode, v) == Some(j) then Up(s.mode, v) else Bit(s.reg, j)
    {
      StoredBit(s, v, j);
    }
    assert s'.reg < 16 by { StoredBit(s, v, 0); }
    NonZero(s'.reg);
    NonZero(s.reg);
  }

  lemma OneChannel(s: State)
    requires WellSized(s) && Coherent(s)
    ensures s.mode == 1 ==> s.reg < 2
  {
    if s.mode == 1 {
      assert !Bit(s.reg, 1) && !Bit(s.reg, 2) && !Bit(s.reg, 3);
    }
  }

  function AfterStores(s: State, vs: seq<nat>): (s': State)
    requires WellSized(s)
    ensures WellSized(s') && s'.mode == s.mode && s'.registered == s.registered
    decreases |vs|
  {
    if vs == [] then s else Stored(AfterStores(s, vs[..|vs| - 1]), vs[|vs| - 1])
  }

  /** What the last accepted store for channel k said; false before any. */
  predicate LastUp(mode: nat, vs: seq<nat>, k: nat)
    decreases |vs|
  {
    vs != [] &&
    var v := vs[|vs| - 1];
    if Target(mode, v) == Some(k) then Up(mode, v) else LastUp(mode, vs[..|vs| - 1], k)
  }

  /** Starting from 0, after any sequence of stores, bit k is what the last accepted store for
      channel k said, and flags and carriers are in step. */
  lemma {:induction false} RegisterFollowsStores(s: State, vs: seq<nat>, k: nat)
    requires WellSized(s) && Coherent(s) && s.reg == 0 && k < s.mode
    ensures var s' := AfterStores(s, vs); Coherent(s') && Bit(s'.reg, k) == LastUp(s.mode, vs, k)
    decreases |vs|
  {
    if vs != [] {
      var before := AfterStores(s, vs[..|vs| - 1]);
      RegisterFollowsStores(s, vs[..|vs| - 1], k);
      CoherentStep(before, vs[|vs| - 1]);
      OneChannel(before);
      StoredBit(before, vs[|vs| - 1], k);
    }
  }

  /** The number the dialer writes for channel pdp (counted from 1). */
  function Encoded(mode: nat, up: bool, pdp: nat): nat {
    if mode <= 1 then (if up then 1 else 0) else (if up then 0 else 0x80) + pdp
  }

  lemma EncodedIsAccepted(mode: nat, up: bool, pdp: nat)
    requires 1 <= pdp <= mode <= 4
    ensures Target(mode, Encoded(mode, up, pdp)) == Some(pdp - 1)
    ensures Up(mode, Encoded(mode, up, pdp)) == up
  {
  }

  /** Whether a store turns the bit of channel k, which is reg's. */
  predicate Turns(mode: nat, reg: nat, v: nat, k: nat)
    requires k < 4
  {
    Target(mode, v) == Some(k) && Up(mode, v) != Bit(reg, k)
  }

  /** A channel's flag agrees with its bit after a store if and only if it did before, or the store is
      for that channel and says the opposite of its bit. */
  lemma FlagRepaired(s: State, v: nat, k: nat)
    requires WellSized(s) && s.reg < 16 && (s.mode == 1 ==> s.reg < 2) && k < s.mode && k in s.registered
    ensures var s' := Stored(s, v);
            s'.own[k] == Bit(s'.reg, k) <==> s.own[k] == Bit(s.reg, k) || Turns(s.mode, s.reg, v, k)
  {
    hide Bit;
    StoredBit(s, v, k);
    SmallRegister(s.reg, k);
    SmallRegister(Stored(s, v).reg, k);
  }

  // Until a store turns the bit, it stays what it was.
  lemma {:induction false} BitStays(s: State, vs: seq<nat>, k: nat)
    requires WellSized(s) && s.reg < 16 && (s.mode == 1 ==> s.reg < 2) && k < s.mode
    ensures var s' := AfterStores(s, vs);
            && s'.reg < 16 && (s.mode == 1 ==> s'.reg < 2)
            && ((forall i :: 0 <= i < |vs| ==> !Turns(s.mode, s.reg, vs[i], k)) ==> Bit(s'.reg, k) == Bit(s.reg, k))
    decreases |vs|
  {
    hide Bit, Stored;
    if vs != [] {
      BitStays(s, vs[..|vs| - 1], k);
      StoredBit(AfterStores(s, vs[..|vs| - 1]), vs[|vs| - 1], k);
    }
  }

  /** Over runs, from any register and any flags: a channel's flag agrees with its bit in the end if
      and only if it did at the start, or some store is for that channel and says the opposite of the
      bit that the register started with. */
  lemma {:induction false} FlagAfterStores(s: State, vs: seq<nat>, k: nat)
    requires WellSized(s) && s.reg < 16 && (s.mode == 1 ==> s.reg < 2) && k < s.mode && k in s.registered
    ensures var s' := AfterStores(s, vs);
            s'.own[k] == Bit(s'.reg, k)
            <==> s.own[k] == Bit(s.reg, k) || exists i :: 0 <= i < |vs| && Turns(s.mode, s.reg, vs[i], k)
    decreases |vs|
  {
    hide Bit, Stored;
    if vs != [] {
      var before, v := vs[..|vs| - 1], vs[|vs| - 1];
      FlagAfterStores(s, before, k);
      BitStays(s, before, k);
      FlagRepaired(AfterStores(s, before), v, k);
      assert vs == before + [v];
      if i :| 0 <= i < |before| && Turns(s.mode, s.reg, before[i], k) {
        assert Turns(s.mode, s.reg, vs[i], k);
      } else if i :| 0 <= i < |vs| && Turns(s.mode, s.reg, vs[i], k) {
        assert i == |before|;
      }
    }
  }

  /** The driver's start: the register is 1 and no flag is set. Channels 2 to 4 are always in step, and
      channel 1 is so if and only if it was once told to go down. */
  lemma StartOfDriver(s: State, vs: seq<nat>, k: nat)
    requires WellSized(s) && s.reg == 1 && k < s.mode && k in s.registered && !s.own[k]
    ensures var s' := AfterStores(s, vs);
            s'.own[k] == Bit(s'.reg, k)
            <==> k > 0 || exists i :: 0 <= i < |vs| && Target(s.mode, vs[i]) == Some(0) && !Up(s.mode, vs[i])
  {
    FlagAfterStores(s, vs, k);
    SmallRegister(1, k);
    hide Bit;
    assert forall i :: 0 <= i < |vs| ==>
        (Turns(s.mode, 1, vs[i], 0) <==> Target(s.mode, vs[i]) == Some(0) && !Up(s.mode, vs[i])) by {
      SmallRegister(1, 0);
    }
  }

  /** The register starts as 1 on slower devices, with all flags off: storing link-up for channel 1
      then changes nothing, and the channel's flag stays off. */
  lemma StartingFromOne(s: State)
    requires WellSized(s) && s.mode == 2 && s.registered == {0, 1} && s.reg == 1 && s.own == [false, false, false, false]
    ensures var s' := Stored(s, Encoded(2, true, 1)); s' == s && Bit(s'.reg, 0) && !s'.own[0]
  {
  }
}
