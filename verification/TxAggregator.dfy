/**
 The transmit aggregator of the qmi_wwan_f driver: frames of one channel are packed into one
 buffer under a lock, and the buffer is taken when it is full, late or urgent, by a transmit call
 or by the work item that a timer schedules. Step by step, and over every interleaving.
 */
module TxAggregator {
  import opened Bytes
  import opened QmapFrame
  import opened Wrappers

  const AGG_TIME_LIMIT := 1000000
  const AGG_BYPASS_TIME := 10000000
  const NSEC_PER_SEC := 1000000000

  type Frame = seq<byte>

  /** Where the transmit call of the channel stands; the stack makes one call at a time. */
  datatype Call =
    | Idle
    | AtLock(frame: Frame, round: nat)  // at new_packet, before taking the lock
    | AtTail                            // frame consumed, timer not looked at yet

  datatype State = State(
    maxDatagrams: nat,
    maxSize: nat,
    held: Option<seq<Frame>>,   // agg_skb
    count: nat,                 // agg_count
    aggTime: int,
    call: Call,
    armed: bool,                // timer queued
    firing: bool,               // timer callback about to schedule the work item
    pending: bool,              // work item scheduled
    working: bool,              // work item started, lock not taken yet
    submitted: seq<Frame>,      // history: frames handed to transmit calls
    taken: seq<seq<Frame>>)     // history: what went to the device queue, in the order taken

  datatype Event =
    | Submit(frame: Frame)
    | Lock(now: int, xmitMore: bool, urgent: bool, allocOk: bool)
    | Tail
    | TimerExpires
    | TimerCallback
    | WorkStarts
    | WorkLocks(now: int)
    | Settings(sizeMatches: bool, datagrams: nat, size: nat)


  // tv_sec > 0 || tv_nsec > limit, of a normalised difference (nanoseconds never negative)
  predicate Late(now: int, since: int, limit: nat) {
    var diff := now - since;
    diff / NSEC_PER_SEC > 0 || diff % NSEC_PER_SEC > limit
  }

  /** Without a held buffer, the frame goes out at once: it is late or urgent, or memory is short. */
  predicate GoesOut(s: State, now: int, xmitMore: bool, urgent: bool, allocOk: bool) {
    Late(now, s.aggTime, AGG_BYPASS_TIME) || (!xmitMore && urgent) || !allocOk
  }

  /** What can happen. A frame that is put into a new buffer must fit: the kernel stops otherwise. */
  predicate Enabled(s: State, e: Event) {
    match e
    case Submit(_) => s.call.Idle?
    case Lock(now, xmitMore, urgent, allocOk) =>
      && s.call.AtLock?
      && (s.held.None? ==> |s.call.frame| <= s.maxSize || GoesOut(s, now, xmitMore, urgent, allocOk))
    case Tail => s.call.AtTail?
    case TimerExpires => s.armed
    case TimerCallback => s.firing
    case WorkStarts => s.pending
    case WorkLocks(_) => s.working
    case Settings(_, _, _) => true
  }

  function Step(s: State, e: Event): State
    requires Enabled(s, e)
  {
    match e
    case Submit(frame) =>
      var s' := s.(submitted := s.submitted + [frame]);
      if s.maxDatagrams == 1 then s'.(taken := s.taken + [[frame]]) else s'.(call := AtLock(frame, 0))
    case Lock(now, xmitMore, urgent, allocOk) => Locked(s, now, xmitMore, urgent, allocOk)
    case Tail => s.(call := Idle, armed := s.armed || s.held.Some?)
    case TimerExpires => s.(armed := false, firing := true)
    case TimerCallback => s.(firing := false, pending := true)
    case WorkStarts => s.(pending := false, working := true)
    case WorkLocks(now) =>
      if s.held.None? then s.(working := false)
      else s.(working := false, held := None, count := 0, aggTime := now, taken := s.taken + [s.held.value])
    case Settings(sizeMatches, datagrams, size) =>
      if sizeMatches && s.maxDatagrams == 1 && datagrams > 1
      then s.(maxDatagrams := datagrams, maxSize := size) else s
  }

  /** The section of rmnet_usb_tx_agg under agg_lock, with a held buffer and without. */
  function Locked(s: State, now: int, xmitMore: bool, urgent: bool, allocOk: bool): State
    requires s.call.AtLock?
  {
    if s.held.Some? then LockedHeld(s, now, xmitMore, urgent) else LockedEmpty(s, now, xmitMore, urgent, allocOk)
  }

  function LockedHeld(s: State, now: int, xmitMore: bool, urgent: bool): State
    requires s.call.AtLock? && s.held.Some?
  {
    var frame, frames := s.call.frame, s.held.value;
    if |Concat(frames)| + |frame| < s.maxSize then
      var longer := frames + [frame];
      var ready := Late(now, s.aggTime, AGG_TIME_LIMIT) || s.count + 1 == s.maxDatagrams || (!xmitMore && urgent);
      if ready
      then s.(held := None, count := 0, aggTime := now, taken := s.taken + [longer], call := AtTail)
      else s.(held := Some(longer), count := s.count + 1, call := AtTail)
    else
      s.(held := None, count := 0, aggTime := now, taken := s.taken + [frames], call := AtLock(frame, s.call.round + 1))
  }

  function LockedEmpty(s: State, now: int, xmitMore: bool, urgent: bool, allocOk: bool): State
    requires s.call.AtLock? && s.held.None?
  {
    var frame := s.call.frame;
    if GoesOut(s, now, xmitMore, urgent, allocOk)
    then s.(aggTime := now, taken := s.taken + [[frame]], call := AtTail)
    else s.(held := Some([frame]), count := s.count + 1, call := AtTail)
  }

  predicate Initial(s: State) {
    && s.maxDatagrams == 1 && s.held.None? && s.count == 0 && s.call.Idle?
    && !s.armed && !s.firing && !s.pending && !s.working && s.submitted == [] && s.taken == []
  }

  // The frames not taken yet: the held ones, and the one of the transmit call in progress.
  function Waiting(s: State): seq<Frame> {
    (if s.held.Some? then s.held.value else []) + (if s.call.AtLock? then [s.call.frame] else [])
  }

  /** Every frame submitted is in exactly one place, and the places are in order. */
  predicate Conserved(s: State) { s.submitted == Concat(s.taken) + Waiting(s) }

  /** A held buffer has somebody who will look at it again. */
  predicate NotStranded(s: State) {
    s.held.Some? ==> s.armed || s.firing || s.pending || s.working || s.call.AtTail?
  }

  predicate Bounded(s: State) {
    && s.maxDatagrams >= 1
    && (s.maxDatagrams == 1 ==> s.held.None? && !s.call.AtLock?)
    && s.count == (if s.held.Some? then |s.held.value| else 0)
    && (s.held.Some? ==> 1 <= s.count < s.maxDatagrams && |Concat(s.held.value)| <= s.maxSize)
  }

  predicate Whole(maxDatagrams: nat, maxSize: nat, a: seq<Frame>) {
    1 <= |a| <= maxDatagrams && (|a| > 1 ==> |Concat(a)| < maxSize)
  }

  predicate AllWhole(maxDatagrams: nat, maxSize: nat, taken: seq<seq<Frame>>) {
    forall i :: 0 <= i < |taken| ==> Whole(maxDatagrams, maxSize, taken[i])
  }

  // Several frames together always stay below the size limit. (Aggregates taken before the limit
  // is set hold one frame each.)
  predicate MultiBelowLimit(s: State) {
    && AllWhole(s.maxDatagrams, s.maxSize, s.taken)
    && (s.held.Some? && s.count > 1 ==> |Concat(s.held.value)| < s.maxSize)
  }

  predicate LoopsOnce(s: State) {
    s.call.AtLock? ==> s.call.round <= 1 && (s.call.round == 1 ==> s.held.None?)
  }

  predicate Inv(s: State) {
    Conserved(s) && NotStranded(s) && Bounded(s) && MultiBelowLimit(s) && LoopsOnce(s)
  }

  // From s to s', the foremost waiting frames, if any, went to the end of what was taken.
  predicate Moved(s: State, s': State) {
    && s'.submitted == s.submitted
    && if |s'.taken| == |s.taken| then s'.taken == s.taken && Waiting(s') == Waiting(s)
       else
         && |s'.taken| == |s.taken| + 1
         && var last := s'.taken[|s.taken|];
            s'.taken == s.taken + [last] && Waiting(s) == last + Waiting(s')
  }

  lemma LockMoves(s: State, now: int, xmitMore: bool, urgent: bool, allocOk: bool)
    requires s.call.AtLock?
    ensures Moved(s, Locked(s, now, xmitMore, urgent, allocOk))
  {
    hide LockedHeld, LockedEmpty, Moved;
    if s.held.Some? {
      HeldMoves(s, now, xmitMore, urgent);
    } else {
      EmptyMoves(s, now, xmitMore, urgent, allocOk);
    }
  }

  lemma HeldMoves(s: State, now: int, xmitMore: bool, urgent: bool)
    requires s.call.AtLock? && s.held.Some?
    ensures Moved(s, LockedHeld(s, now, xmitMore, urgent))
  {
    hide Late, Concat;
    var frame, frames := s.call.frame, s.held.value;
    assert Waiting(s) == frames + [frame] == (frames + [frame]) + [];
  }

  lemma EmptyMoves(s: State, now: int, xmitMore: bool, urgent: bool, allocOk: bool)
    requires s.call.AtLock? && s.held.None?
    ensures Moved(s, LockedEmpty(s, now, xmitMore, urgent, allocOk))
  {
    hide GoesOut, Concat;
    assert Waiting(s) == [s.call.frame] == [s.call.frame] + [];
  }

  lemma OthersMove(s: State, e: Event)
    requires Bounded(s) && Enabled(s, e) && !e.Lock? && !e.Submit?
    ensures Moved(s, Step(s, e))
  {
  }

  lemma ConservedStep(s: State, e: Event)
    requires Bounded(s) && Conserved(s) && Enabled(s, e)
    ensures Conserved(Step(s, e))
  {
    hide Locked;
    var s' := Step(s, e);
    if e.Submit? {
      ConcatSnoc(s.taken, [e.frame]);
    } else {
      if e.Lock? {
        LockMoves(s, e.now, e.xmitMore, e.urgent, e.allocOk);
      } else {
        OthersMove(s, e);
      }
      MovedConserves(s, s');
    }
  }

  lemma MovedConserves(s: State, s': State)
    requires Conserved(s) && Moved(s, s')
    ensures Conserved(s')
  {
    hide Waiting;
    if |s'.taken| > |s.taken| {
      ConcatSnoc(s.taken, s'.taken[|s.taken|]);
    }
  }

  lemma LockKeepsBounds(s: State, now: int, xmitMore: bool, urgent: bool, allocOk: bool)
    requires Bounded(s) && LoopsOnce(s) && Enabled(s, Lock(now, xmitMore, urgent, allocOk))
    ensures var s' := Locked(s, now, xmitMore, urgent, allocOk); NotStranded(s') && Bounded(s') && LoopsOnce(s')
  {
    hide Late;
    if s.held.Some? {
      ConcatSnoc(s.held.value, s.call.frame);
    } else {
      ConcatOne(s.call.frame);
    }
  }

  lemma BoundedStep(s: State, e: Event)
    requires NotStranded(s) && Bounded(s) && LoopsOnce(s) && Enabled(s, e)
    ensures NotStranded(Step(s, e)) && Bounded(Step(s, e)) && LoopsOnce(Step(s, e))
  {
    hide Locked;
    if e.Lock? {
      LockKeepsBounds(s, e.now, e.xmitMore, e.urgent, e.allocOk);
    }
  }

  lemma WholeSnoc(maxDatagrams: nat, maxSize: nat, taken: seq<seq<Frame>>, a: seq<Frame>)
    requires AllWhole(maxDatagrams, maxSize, taken) && Whole(maxDatagrams, maxSize, a)
    ensures AllWhole(maxDatagrams, maxSize, taken + [a])
  {
  }

  lemma HeldKeepsMulti(s: State, now: int, xmitMore: bool, urgent: bool)
    requires Bounded(s) && MultiBelowLimit(s) && s.call.AtLock? && s.held.Some?
    ensures MultiBelowLimit(LockedHeld(s, now, xmitMore, urgent))
  {
    hide Late, AllWhole;
    var frames, longer := s.held.value, s.held.value + [s.call.frame];
    ConcatSnoc(frames, s.call.frame);
    if |Concat(longer)| < s.maxSize {
      WholeSnoc(s.maxDatagrams, s.maxSize, s.taken, longer);
    } else {
      WholeSnoc(s.maxDatagrams, s.maxSize, s.taken, frames);
    }
  }

  lemma EmptyKeepsMulti(s: State, now: int, xmitMore: bool, urgent: bool, allocOk: bool)
    requires Bounded(s) && MultiBelowLimit(s) && s.call.AtLock? && s.held.None?
    ensures MultiBelowLimit(LockedEmpty(s, now, xmitMore, urgent, allocOk))
  {
    hide GoesOut, AllWhole, Concat;
    WholeSnoc(s.maxDatagrams, s.maxSize, s.taken, [s.call.frame]);
  }

  lemma OthersKeepMulti(s: State, e: Event)
    requires Bounded(s) && MultiBelowLimit(s) && Enabled(s, e) && !e.Lock?
    ensures MultiBelowLimit(Step(s, e))
  {
    hide Concat, AllWhole;
    match e
    case Submit(frame) => WholeSnoc(s.maxDatagrams, s.maxSize, s.taken, [frame]);
    case WorkLocks(_) =>
      if s.held.Some? {
        WholeSnoc(s.maxDatagrams, s.maxSize, s.taken, s.held.value);
      }
    case Settings(_, datagrams, size) =>
      if datagrams > 1 {
        LimitsRise(s.taken, s.maxSize, datagrams, size);
      }
    case _ =>
  }

  lemma LimitsRise(taken: seq<seq<Frame>>, maxSize: nat, datagrams: nat, size: nat)
    requires datagrams > 1
    ensures AllWhole(1, maxSize, taken) ==> AllWhole(datagrams, size, taken)
  {
    assert AllWhole(1, maxSize, taken) ==> forall i :: 0 <= i < |taken| ==> Whole(1, maxSize, taken[i]);
  }

  lemma MultiStep(s: State, e: Event)
    requires Bounded(s) && MultiBelowLimit(s) && Enabled(s, e)
    ensures MultiBelowLimit(Step(s, e))
  {
    if e.Lock? {
      hide LockedHeld, LockedEmpty, MultiBelowLimit, GoesOut;
      if s.held.Some? {
        HeldKeepsMulti(s, e.now, e.xmitMore, e.urgent);
      } else {
        EmptyKeepsMulti(s, e.now, e.xmitMore, e.urgent, e.allocOk);
      }
    } else {
      OthersKeepMulti(s, e);
    }
  }

  /** Every step keeps the invariant. */
  lemma InvStep(s: State, e: Event)
    requires Inv(s) && Enabled(s, e)
    ensures Inv(Step(s, e))
  {
    ConservedStep(s, e);
    BoundedStep(s, e);
    MultiStep(s, e);
  }

  predicate CanRun(s: State, es: seq<Event>)
    decreases |es|
  {
    es == [] || (Enabled(s, es[0]) && CanRun(Step(s, es[0]), es[1..]))
  }

  function Run(s: State, es: seq<Event>): State
    requires CanRun(s, es)
    decreases |es|
  {
    if es == [] then s else Run(Step(s, es[0]), es[1..])
  }

  /** Conservation and bounds over every interleaving of transmit calls, timer, work and settings. */
  lemma {:induction false} InvAlways(s: State, es: seq<Event>)
    requires Inv(s) && CanRun(s, es)
    ensures Inv(Run(s, es))
    decreases |es|
  {
    if es != [] {
      InvStep(s, es[0]);
      InvAlways(Step(s, es[0]), es[1..]);
    }
  }

  /** Over every interleaving from the start, in plain terms: the aggregates taken, then the held
      frames, then the frame in hand are all frames submitted, in order; the count is that of the
      held frames and below the limit; an aggregate of several frames is below the size limit; and a
      held buffer has somebody who will look at it again. */
  lemma AlwaysConserved(s: State, es: seq<Event>)
    requires Initial(s) && CanRun(s, es)
    ensures var s' := Run(s, es);
            && s'.submitted == Concat(s'.taken) + Waiting(s')
            && (s'.held.Some? <==> s'.count > 0)
            && (s'.held.Some? ==> s'.count == |s'.held.value| < s'.maxDatagrams)
            && (forall i :: 0 <= i < |s'.taken| ==>
                  s'.taken[i] != [] && (|s'.taken[i]| > 1 ==> |Concat(s'.taken[i])| < s'.maxSize))
            && (s'.held.Some? ==> s'.armed || s'.firing || s'.pending || s'.working || s'.call.AtTail?)
            && (s'.call.AtLock? ==> s'.call.round <= 1)
  {
    InvAlways(s, es);
    var s' := Run(s, es);
    assert forall i :: 0 <= i < |s'.taken| ==> Whole(s'.maxDatagrams, s'.maxSize, s'.taken[i]);
  }

  /** At most four callbacks, and no other step, after which nothing is held and every frame submitted
      is in an aggregate. */
  ghost predicate DrainedBy(s: State, es: seq<Event>) {
    && CanRun(s, es) && |es| <= 4
    && (forall e :: e in es ==> e.TimerExpires? || e.TimerCallback? || e.WorkStarts? || e.WorkLocks?)
    && Run(s, es).held.None? && Concat(Run(s, es).taken) == s.submitted
  }

  /** A held buffer always gets out without any further transmit call: from every reachable state
      with no call in progress, timer and work callbacks alone take every frame. */
  lemma Drains(s: State, now: int)
    requires Inv(s) && s.call.Idle? && s.held.Some?
    ensures exists es: seq<Event> :: DrainedBy(s, es)
  {
    var es: seq<Event> := if s.working then [WorkLocks(now)]
              else if s.pending then [WorkStarts, WorkLocks(now)]
              else if s.firing then [TimerCallback, WorkStarts, WorkLocks(now)]
              else [TimerExpires, TimerCallback, WorkStarts, WorkLocks(now)];
    hide Bounded, MultiBelowLimit, LoopsOnce, CanRun, Run, Step, Concat;
    RunsToWork(s, es, now);
    InvAlways(s, es);
    assert DrainedBy(s, es);
  }

  lemma RunsToWork(s: State, es: seq<Event>, now: int)
    requires Inv(s) && s.call.Idle? && s.held.Some? && |es| > 0
    requires || (s.working && es == [WorkLocks(now)])
             || (s.pending && es == [WorkStarts, WorkLocks(now)])
             || (s.firing && es == [TimerCallback, WorkStarts, WorkLocks(now)])
             || (s.armed && es == [TimerExpires, TimerCallback, WorkStarts, WorkLocks(now)])
    ensures CanRun(s, es) && Run(s, es).held.None? && Run(s, es).call.Idle? && Run(s, es).submitted == s.submitted
    decreases |es|
  {
    var s1 := Step(s, es[0]);
    if |es| > 1 {
      InvStep(s, es[0]);
      RunsToWork(s1, es[1..], now);
    } else {
      assert es[1..] == [];
    }
  }

  /** What went out is the bytes of the aggregates, one after the other. */
  ghost predicate AsBytes(xmit: seq<seq<byte>>, taken: seq<seq<Frame>>) {
    |xmit| == |taken| && forall i :: 0 <= i < |xmit| ==> xmit[i] == Concat(taken[i])
  }

  /** The channel's private data, with the aggregate in a real buffer. */
  class Channel {
    var maxDatagrams: nat
    var maxSize: nat
    var aggSkb: array?<byte>
    var aggLen: nat
    var aggCount: nat
    var aggTime: int
    var call: Call
    var armed: bool
    var firing: bool
    var pending: bool
    var working: bool
    var xmit: seq<seq<byte>>              // what went to the device queue
    ghost var heldFrames: seq<Frame>
    ghost var submitted: seq<Frame>
    ghost var taken: seq<seq<Frame>>

    ghost function Abs(): State
      reads this
    {
      State(maxDatagrams, maxSize, if aggSkb == null then None else Some(heldFrames), aggCount, aggTime,
            call, armed, firing, pending, working, submitted, taken)
    }

    /** The buffer holds exactly the bytes of the held frames, and never more than it has room for. */
    ghost predicate Valid()
      reads this, aggSkb
    {
      && Inv(Abs())
      && (aggSkb != null ==> aggSkb.Length == maxSize && aggLen <= maxSize && aggSkb[..aggLen] == Concat(heldFrames))
      && AsBytes(xmit, taken)
    }

    constructor (now: int)
      ensures Valid() && Initial(Abs()) && xmit == []
    {
      maxDatagrams, maxSize := 1, 1500;
      aggSkb, aggLen, aggCount, aggTime := null, 0, 0, now;
      call, armed, firing, pending, working := Idle, false, false, false, false;
      xmit, heldFrames, submitted, taken := [], [], [], [];
    }

    // dev_queue_xmit.
    method Xmit(bytes: seq<byte>, ghost frames: seq<Frame>)
      requires bytes == Concat(frames)
      requires AsBytes(xmit, taken)
      modifies this`xmit, this`taken
      ensures taken == old(taken) + [frames] && xmit == old(xmit) + [bytes]
      ensures AsBytes(xmit, taken)
    {
      xmit, taken := xmit + [bytes], taken + [frames];
    }

    // The held buffer goes out, and nothing is held.
    method SendHeld(now: int)
      requires aggSkb != null && aggLen <= aggSkb.Length && aggSkb[..aggLen] == Concat(heldFrames) && AsBytes(xmit, taken)
      modifies this`xmit, this`taken, this`aggSkb, this`aggCount, this`aggTime
      ensures aggSkb == null && aggCount == 0 && aggTime == now
      ensures taken == old(taken) + [heldFrames] && AsBytes(xmit, taken)
    {
      Xmit(aggSkb[..aggLen], heldFrames);
      aggSkb, aggCount, aggTime := null, 0, now;
    }

    /** The head of rmnet_usb_tx_agg: without aggregation the frame goes straight out. */
    method BeginTransmit(frame: Frame)
      requires Valid() && Enabled(Abs(), Submit(frame))
      modifies this
      ensures Valid() && Abs() == Step(old(Abs()), Submit(frame)) && aggSkb == old(aggSkb)
    {
      hide Inv;
      InvStep(Abs(), Submit(frame));
      submitted := submitted + [frame];
      if maxDatagrams == 1 {
        ConcatOne(frame);
        Xmit(frame, [frame]);
      } else {
        call := AtLock(frame, 0);
      }
    }

    // skb_put and memcpy at the end of the held data.
    method Append(frame: Frame)
      requires aggSkb != null && aggLen + |frame| <= aggSkb.Length && aggSkb[..aggLen] == Concat(heldFrames)
      modifies this`aggLen, this`heldFrames, aggSkb
      ensures aggLen == old(aggLen) + |frame| && heldFrames == old(heldFrames) + [frame]
      ensures aggSkb[..aggLen] == Concat(heldFrames)
    {
      ghost var before := aggSkb[..aggLen];
      Store(aggSkb, aggLen, frame);
      ConcatSnoc(heldFrames, frame);
      aggLen, heldFrames := aggLen + |frame|, heldFrames + [frame];
      assert aggSkb[..][..aggLen] == before + frame;
    }

    // alloc_skb, and the frame goes in first.
    method HoldNew(frame: Frame)
      requires |frame| <= maxSize
      modifies this`aggSkb, this`aggLen, this`heldFrames
      ensures aggSkb != null && fresh(aggSkb) && aggSkb.Length == maxSize && aggLen <= maxSize
      ensures heldFrames == [frame] && aggSkb[..aggLen] == Concat(heldFrames)
    {
      aggSkb, aggLen, heldFrames := new byte[maxSize](_ => 0), 0, [];
      assert aggSkb[..aggLen] == Concat(heldFrames);
      Append(frame);
    }

    /** The locked section of rmnet_usb_tx_agg, and the dev_queue_xmit behind it. */
    method TransmitLocked(now: int, xmitMore: bool, urgent: bool, allocOk: bool)
      requires Valid() && Enabled(Abs(), Lock(now, xmitMore, urgent, allocOk))
      modifies this, aggSkb
      ensures Valid() && Abs() == Step(old(Abs()), Lock(now, xmitMore, urgent, allocOk))
      ensures aggSkb == null || aggSkb == old(aggSkb) || fresh(aggSkb)
    {
      InvStep(Abs(), Lock(now, xmitMore, urgent, allocOk));
      if aggSkb != null {
        HeldLocked(now, xmitMore, urgent);
      } else {
        EmptyLocked(now, xmitMore, urgent, allocOk);
      }
    }

    method HeldLocked(now: int, xmitMore: bool, urgent: bool)
      requires Valid() && call.AtLock? && aggSkb != null
      requires Inv(Locked(Abs(), now, xmitMore, urgent, true))
      modifies this, aggSkb
      ensures Valid() && Abs() == Locked(old(Abs()), now, xmitMore, urgent, true)
      ensures aggSkb == null || aggSkb == old(aggSkb)
    {
      hide Late, Inv, Concat, AsBytes;
      var frame, round := call.frame, call.round;
      var ready2send := false;
      if aggLen + |frame| < maxSize {
        Append(frame);
        aggCount := aggCount + 1;
        if Late(now, aggTime, AGG_TIME_LIMIT) {
          ready2send := true;
        } else if aggCount == maxDatagrams {
          ready2send := true;
        } else if !xmitMore {
          ready2send := urgent;
        }
        call := AtTail;
      } else {
        ready2send := true;
        call := AtLock(frame, round + 1);
      }
      if ready2send {
        SendHeld(now);
      }
    }

    method EmptyLocked(now: int, xmitMore: bool, urgent: bool, allocOk: bool)
      requires Valid() && call.AtLock? && aggSkb == null
      requires Inv(Locked(Abs(), now, xmitMore, urgent, allocOk)) && aggCount == 0
      requires |call.frame| <= maxSize || GoesOut(Abs(), now, xmitMore, urgent, allocOk)
      modifies this
      ensures Valid() && Abs() == Locked(old(Abs()), now, xmitMore, urgent, allocOk)
      ensures aggSkb == null || fresh(aggSkb)
    {
      hide Late, Inv, Concat, AsBytes;
      var frame := call.frame;
      var ready2send := false;
      if Late(now, aggTime, AGG_BYPASS_TIME) {
        ready2send := true;
      } else if !xmitMore {
        ready2send := urgent;
      }
      if !ready2send {
        if allocOk {
          HoldNew(frame);
          aggCount := aggCount + 1;
        } else {
          ready2send := true;
        }
      }
      call := AtTail;
      if ready2send {
        ConcatOne(frame);
        Xmit(frame, [frame]);
        aggTime := now;
      }
    }

    /** The end of rmnet_usb_tx_agg. */
    method EndTransmit()
      requires Valid() && call.AtTail?
      modifies this
      ensures Valid() && Abs() == Step(old(Abs()), Tail)
    {
      InvStep(Abs(), Tail);
      if aggSkb != null {
        if !armed {
          armed := true;
        }
      }
      call := Idle;
    }

    /** rmnet_usb_tx_agg_timer_cb. */
    method TimerCallback()
      requires Valid() && firing
      modifies this
      ensures Valid() && Abs() == Step(old(Abs()), Event.TimerCallback)
    {
      InvStep(Abs(), Event.TimerCallback);
      firing, pending := false, true;
    }

    /** rmnet_usb_tx_agg_work, from the lock on. */
    method Work(now: int)
      requires Valid() && working
      modifies this
      ensures Valid() && Abs() == Step(old(Abs()), WorkLocks(now))
    {
      hide Inv;
      InvStep(Abs(), WorkLocks(now));
      working := false;
      if aggSkb != null {
        SendHeld(now);
      }
    }

    /** qma_setting_store. */
    method StoreSettings(sizeMatches: bool, datagrams: nat, size: nat)
      requires Valid()
      modifies this
      ensures Valid() && Abs() == Step(old(Abs()), Settings(sizeMatches, datagrams, size))
    {
      InvStep(Abs(), Settings(sizeMatches, datagrams, size));
      if sizeMatches && maxDatagrams == 1 && datagrams > 1 {
        maxDatagrams, maxSize := datagrams, size;
      }
    }

    /** rmnet_usb_tx_agg as one piece, undisturbed: one step if frames are not aggregated, else one or two
        in the locked section, the second only when the held buffer had no room, and the end. */
    method Transmit(frame: Frame, now0: int, now1: int, xmitMore: bool, urgent: bool, allocOk: bool)
      returns (ghost es: seq<Event>)
      requires Valid() && Enabled(Abs(), Submit(frame))
      requires maxDatagrams != 1 ==> Passes(Abs(), frame, now0, now1, xmitMore, urgent, allocOk)
      modifies this, aggSkb
      ensures Valid() && call.Idle?
      ensures CanRun(old(Abs()), es) && Abs() == Run(old(Abs()), es)
      ensures es == if old(maxDatagrams) == 1 then [Submit(frame)]
                    else if old(HasRoom(Abs(), frame)) then [Submit(frame), Lock(now0, xmitMore, urgent, allocOk), Tail]
                    else [Submit(frame), Lock(now0, xmitMore, urgent, allocOk), Lock(now1, xmitMore, urgent, allocOk), Tail]
    {
      ghost var first, second := Lock(now0, xmitMore, urgent, allocOk), Lock(now1, xmitMore, urgent, allocOk);
      ghost var s0 := Abs();
      CallBegins(s0, first, second, frame);
      hide Inv, Step, Enabled, Passes, Progress, HasRoom;
      BeginTransmit(frame);
      es := [Submit(frame)];
      while call.AtLock?
        invariant Valid() && Progress(s0, first, second, frame, es, Abs())
        invariant aggSkb == null || aggSkb == old(aggSkb) || fresh(aggSkb)
        decreases if call.AtLock? then 2 - call.round else -1
      {
        es := PassLock(s0, first, second, frame, es, now0, now1, xmitMore, urgent, allocOk);
      }
      CallEnds(s0, first, second, frame, es, Abs());
      if call.AtTail? {
        es := es + [Tail];
        EndTransmit();
      }
    }

    // One turn from new_packet on.
    method PassLock(ghost s0: State, ghost first: Event, ghost second: Event, ghost frame: Frame, ghost es: seq<Event>,
                    now0: int, now1: int, xmitMore: bool, urgent: bool, allocOk: bool)
      returns (ghost es': seq<Event>)
      requires first == Lock(now0, xmitMore, urgent, allocOk) && second == Lock(now1, xmitMore, urgent, allocOk)
      requires Valid() && call.AtLock? && Progress(s0, first, second, frame, es, Abs())
      modifies this, aggSkb
      ensures Valid() && Progress(s0, first, second, frame, es', Abs())
      ensures aggSkb == null || aggSkb == old(aggSkb) || fresh(aggSkb)
      ensures old(call).round <= 1 && (call.AtLock? ==> call.round == old(call).round + 1)
    {
      hide Inv, Step, Enabled, Progress;
      CallGoesOn(s0, first, second, frame, es, Abs());
      es' := es + [if call.round == 0 then first else second];
      TransmitLocked(if call.round == 0 then now0 else now1, xmitMore, urgent, allocOk);
    }
  }

  lemma {:induction false} RunSnoc(s: State, es: seq<Event>, e: Event)
    requires CanRun(s, es) && Enabled(Run(s, es), e)
    ensures CanRun(s, es + [e]) && Run(s, es + [e]) == Step(Run(s, es), e)
    decreases |es|
  {
    if es == [] {
      assert es + [e] == [e];
    } else {
      RunSnoc(Step(s, es[0]), es[1..], e);
      assert (es + [e])[1..] == es[1..] + [e];
    }
  }

  /** Whether a frame that comes to the lock is done with the first time. */
  predicate HasRoom(s: State, frame: Frame) { s.held.None? || |Concat(s.held.value)| + |frame| < s.maxSize }

  /** Whether a whole call gets through with these clock readings: the frame fits, or it goes out when
      it finds nothing held. That is the second time it takes the lock if something is held now. */
  predicate Passes(s: State, frame: Frame, now0: int, now1: int, xmitMore: bool, urgent: bool, allocOk: bool) {
    || |frame| <= s.maxSize || (!xmitMore && urgent) || !allocOk
    || (if s.held.None? then Late(now0, s.aggTime, AGG_BYPASS_TIME) else Late(now1, now0, AGG_BYPASS_TIME))
  }

  /** Where a call stands that has taken the steps es from s0, and that it can go on. */
  ghost predicate Progress(s0: State, first: Event, second: Event, frame: Frame, es: seq<Event>, s: State)
    requires first.Lock? && second.Lock?
  {
    && CanRun(s0, es) && s == Run(s0, es)
    && match s.call
       case Idle => s0.maxDatagrams == 1 && es == [Submit(frame)]
       case AtLock(f, round) =>
         && s0.maxDatagrams != 1 && f == frame
         && (if round == 0 then es == [Submit(frame)] && Enabled(s, first) && HasRoom(s, frame) == HasRoom(s0, frame)
             else round == 1 && es == [Submit(frame), first] && Enabled(s, second) && HasRoom(s, frame) && !HasRoom(s0, frame))
         && (round == 0 && !HasRoom(s, frame) ==> Enabled(Step(s, first), second))
       case AtTail =>
         s0.maxDatagrams != 1 && es == [Submit(frame), first] + if HasRoom(s0, frame) then [] else [second]
  }

  lemma CallBegins(s: State, first: Event, second: Event, frame: Frame)
    requires first.Lock? && second.Lock? && second == Lock(second.now, first.xmitMore, first.urgent, first.allocOk)
    requires Enabled(s, Submit(frame))
    requires s.maxDatagrams != 1 ==> Passes(s, frame, first.now, second.now, first.xmitMore, first.urgent, first.allocOk)
    ensures Progress(s, first, second, frame, [Submit(frame)], Step(s, Submit(frame)))
  {
    hide Late, Concat;
    assert [Submit(frame)][1..] == [];
    var s' := Step(s, Submit(frame));
    assert CanRun(s', []) && Run(s', []) == s';
  }

  lemma LockGoes(s: State, e: Event)
    requires e.Lock? && Enabled(s, e)
    ensures var s' := Step(s, e);
            if HasRoom(s, s.call.frame) then s'.call == AtTail
            else s'.call == AtLock(s.call.frame, s.call.round + 1) && HasRoom(s', s.call.frame)
  {
    hide Concat, Late;
  }

  lemma CallGoesOn(s0: State, first: Event, second: Event, frame: Frame, es: seq<Event>, s: State)
    requires first.Lock? && second.Lock? && Progress(s0, first, second, frame, es, s) && s.call.AtLock?
    ensures var e := if s.call.round == 0 then first else second;
            && Enabled(s, e) && Progress(s0, first, second, frame, es + [e], Step(s, e))
            && (s.call.round <= 1 && (Step(s, e).call.AtLock? ==> Step(s, e).call.round == s.call.round + 1))
  {
    var e := if s.call.round == 0 then first else second;
    RunSnoc(s0, es, e);
    LockGoes(s, e);
    hide Step, Enabled, HasRoom, Run, CanRun;
  }

  lemma CallEnds(s0: State, first: Event, second: Event, frame: Frame, es: seq<Event>, s: State)
    requires first.Lock? && second.Lock? && Progress(s0, first, second, frame, es, s) && !s.call.AtLock?
    ensures CanRun(s0, es) && s == Run(s0, es)
    ensures s.call.Idle? ==> s0.maxDatagrams == 1 && es == [Submit(frame)]
    ensures s.call.AtTail? ==>
              && CanRun(s0, es + [Tail]) && Run(s0, es + [Tail]) == Step(s, Tail) && Step(s, Tail).call.Idle?
              && s0.maxDatagrams != 1
              && es + [Tail] == if HasRoom(s0, frame) then [Submit(frame), first, Tail] else [Submit(frame), first, second, Tail]
  {
    if s.call.AtTail? {
      RunSnoc(s0, es, Tail);
    }
    hide HasRoom, Run, CanRun;
  }
}
