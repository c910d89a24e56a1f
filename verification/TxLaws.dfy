/**
 What the transmit aggregator decides, in plain numbers: when a frame is held, when a buffer goes
 out, and that frames that come in time leave together.
 */
module TxLaws {
  import opened Bytes
  import opened Wrappers
  import opened TxAggregator

  // ----- one step. A clock that ran back counts by the nanoseconds of its normalised difference.

  lemma ElapsedTime(now: int, since: int, limit: nat)
    requires limit < 1000000000
    ensures Late(now, since, limit)
            <==> (if since <= now then now - since else (now - since) % 1000000000) > limit
  {
  }

  /** Nothing held: a frame opens a new buffer exactly when the last aggregate left at most 10 ms ago,
      there is memory, and the frame is not an urgent one with no more to come. */
  lemma NothingHeld(s: State, now: int, xmitMore: bool, urgent: bool, allocOk: bool)
    requires s.call.AtLock? && s.held.None?
    ensures var ago := if s.aggTime <= now then now - s.aggTime else (now - s.aggTime) % 1000000000;
            var holds := ago <= 10000000 && allocOk && !(urgent && !xmitMore);
            var e, frame := Lock(now, xmitMore, urgent, allocOk), s.call.frame;
            && (Enabled(s, e) <==> !holds || |frame| <= s.maxSize)
            && (Enabled(s, e) ==>
                  Step(s, e) == if holds then s.(held := Some([frame]), count := s.count + 1, call := AtTail)
                                else s.(taken := s.taken + [[frame]], aggTime := now, call := AtTail))
  {
    hide Late;
    ElapsedTime(now, s.aggTime, AGG_BYPASS_TIME);
  }

  /** A buffer held and room in it: the frame joins, and the buffer goes out exactly when the last
      aggregate left more than 1 ms ago, the limit of datagrams is reached, or the frame is urgent with
      no more to come. */
  lemma RoomInBuffer(s: State, now: int, xmitMore: bool, urgent: bool, allocOk: bool)
    requires s.call.AtLock? && s.held.Some? && |Concat(s.held.value)| + |s.call.frame| < s.maxSize
    ensures var ago := if s.aggTime <= now then now - s.aggTime else (now - s.aggTime) % 1000000000;
            var goes := ago > 1000000 || s.count + 1 == s.maxDatagrams || (urgent && !xmitMore);
            var e, longer := Lock(now, xmitMore, urgent, allocOk), s.held.value + [s.call.frame];
            && Enabled(s, e)
            && Step(s, e) == if goes then s.(held := None, count := 0, aggTime := now,
                                             taken := s.taken + [longer], call := AtTail)
                             else s.(held := Some(longer), count := s.count + 1, call := AtTail)
  {
    hide Late, Concat;
    ElapsedTime(now, s.aggTime, AGG_TIME_LIMIT);
  }

  /** A buffer held and no room: it goes out without the frame, which comes back to the lock. */
  lemma NoRoom(s: State, now: int, xmitMore: bool, urgent: bool, allocOk: bool)
    requires s.call.AtLock? && s.held.Some? && |Concat(s.held.value)| + |s.call.frame| >= s.maxSize
    ensures var e := Lock(now, xmitMore, urgent, allocOk);
            && Enabled(s, e)
            && Step(s, e) == s.(held := None, count := 0, aggTime := now, taken := s.taken + [s.held.value],
                                call := AtLock(s.call.frame, s.call.round + 1))
  {
    hide Late, Concat;
  }

  /** The other steps: with a limit of one datagram a frame goes straight out, the end of a call starts
      the timer for what is held, the callbacks pass on, the work item takes what is held, and the
      limits are set once. */
  lemma OtherSteps(s: State, frame: Frame, now: int, sizeMatches: bool, datagrams: nat, size: nat)
    ensures s.call.Idle? ==>
              Step(s, Submit(frame))
              == if s.maxDatagrams == 1
                 then s.(submitted := s.submitted + [frame], taken := s.taken + [[frame]])
                 else s.(submitted := s.submitted + [frame], call := AtLock(frame, 0))
    ensures s.call.AtTail? ==> Step(s, Tail) == s.(call := Idle, armed := s.armed || s.held.Some?)
    ensures s.armed ==> Step(s, TimerExpires) == s.(armed := false, firing := true)
    ensures s.firing ==> Step(s, TimerCallback) == s.(firing := false, pending := true)
    ensures s.pending ==> Step(s, WorkStarts) == s.(pending := false, working := true)
    ensures s.working ==>
              Step(s, WorkLocks(now))
              == if s.held.None? then s.(working := false)
                 else s.(working := false, held := None, count := 0, aggTime := now,
                         taken := s.taken + [s.held.value])
    ensures Step(s, Settings(sizeMatches, datagrams, size))
            == if sizeMatches && s.maxDatagrams == 1 && datagrams > 1
               then s.(maxDatagrams := datagrams, maxSize := size) else s
  {
  }

  // ----- runs

  function Frames(es: seq<Event>): seq<Frame> {
    if es == [] then []
    else
      var e := es[|es| - 1];
      Frames(es[..|es| - 1]) + if e.Submit? then [e.frame] else []
  }

  /** No frame comes too late or is urgent with no more to come, memory is there, and the work item
      does not get the lock. The timer and the callbacks may run in between. */
  predicate InTime(since: int, es: seq<Event>) {
    forall i :: 0 <= i < |es| ==> Timely(since, es[i])
  }

  predicate Timely(since: int, e: Event) {
    && !e.WorkLocks? && !e.Settings?
    && (e.Lock? ==> since <= e.now <= since + 1000000 && e.allocOk && !(e.urgent && !e.xmitMore))
  }

  /** After the frames given: one aggregate if they make the limit, else a held buffer. The frame of a
      call that stands before the lock does not count yet. */
  predicate Gathered(s: State, frames: seq<Frame>, s': State) {
    && s'.maxDatagrams == s.maxDatagrams && s'.maxSize == s.maxSize
    && s'.submitted == s.submitted + frames
    && (s'.call.AtLock? ==> frames != [] && s'.call.frame == frames[|frames| - 1])
    && var inside := if s'.call.AtLock? then frames[..|frames| - 1] else frames;
       if |inside| == s.maxDatagrams
       then s'.taken == s.taken + [inside] && s'.held == None && s'.count == 0
       else s'.taken == s.taken && s'.aggTime == s.aggTime && s'.count == |inside|
            && s'.held == if inside == [] then None else Some(inside)
  }

  /** Frames that come in time leave together: as many as the limit allows go out as one aggregate,
      in order, and fewer are held, all in one buffer, with nothing sent. */
  lemma LeaveTogether(s: State, es: seq<Event>)
    requires s.call.Idle? && s.held.None? && s.count == 0 && s.maxDatagrams >= 2
    requires CanRun(s, es) && InTime(s.aggTime, es)
    requires |Frames(es)| <= s.maxDatagrams && |Concat(Frames(es))| < s.maxSize
    ensures var s', frames := Run(s, es), Frames(es);
            s'.call.Idle? ==>
              if |frames| == s.maxDatagrams then s'.taken == s.taken + [frames] && s'.held == None
              else s'.taken == s.taken && s'.held == if frames == [] then None else Some(frames)
  {
    GatheredAlways(s, es);
  }

  lemma {:induction false} GatheredAlways(s: State, es: seq<Event>)
    requires s.call.Idle? && s.held.None? && s.count == 0 && s.maxDatagrams >= 2
    requires CanRun(s, es) && InTime(s.aggTime, es)
    requires |Frames(es)| <= s.maxDatagrams && |Concat(Frames(es))| < s.maxSize
    ensures Gathered(s, Frames(es), Run(s, es))
    decreases |es|
  {
    if es != [] {
      hide Gathered, CanRun, Run, Concat, Step, Enabled;
      var before, e := es[..|es| - 1], es[|es| - 1];
      assert before + [e] == es;
      RunSplits(s, before, e);
      if e.Submit? {
        ConcatSnoc(Frames(before), e.frame);
      } else {
        assert Frames(es) == Frames(before);
      }
      GatheredAlways(s, before);
      GatheredStep(s, Frames(before), Run(s, before), e);
    } else {
      assert Run(s, es) == s && s.submitted + [] == s.submitted;
    }
  }

  lemma {:induction false} RunSplits(s: State, es: seq<Event>, e: Event)
    requires CanRun(s, es + [e])
    ensures CanRun(s, es) && Enabled(Run(s, es), e) && Run(s, es + [e]) == Step(Run(s, es), e)
    decreases |es|
  {
    if es == [] {
      assert es + [e] == [e];
    } else {
      assert (es + [e])[1..] == es[1..] + [e];
      RunSplits(Step(s, es[0]), es[1..], e);
    }
  }

  lemma GatheredStep(s: State, frames: seq<Frame>, s': State, e: Event)
    requires s.maxDatagrams >= 2 && Gathered(s, frames, s') && Enabled(s', e) && Timely(s.aggTime, e)
    requires var all := if e.Submit? then frames + [e.frame] else frames;
             |all| <= s.maxDatagrams && |Concat(all)| < s.maxSize
    ensures Gathered(s, if e.Submit? then frames + [e.frame] else frames, Step(s', e))
  {
    hide Concat;
    if e.Lock? {
      EnabledAtLock(s', e);
      hide Step, Enabled;
      GatheredLock(s, frames, s', e);
    } else if e.Submit? {
      assert (frames + [e.frame])[..|frames|] == frames;
    }
  }

  lemma OpensBuffer(s: State, e: Event)
    requires s.call.AtLock? && s.held.None? && Enabled(s, e) && e.Lock? && Timely(s.aggTime, e)
    ensures Step(s, e) == s.(held := Some([s.call.frame]), count := s.count + 1, call := AtTail)
  {
    hide Step, Enabled;
    NothingHeld(s, e.now, e.xmitMore, e.urgent, e.allocOk);
  }

  lemma JoinsBuffer(s: State, e: Event)
    requires s.call.AtLock? && s.held.Some? && e.Lock? && Timely(s.aggTime, e)
    requires |Concat(s.held.value)| + |s.call.frame| < s.maxSize
    ensures Enabled(s, e)
    ensures var longer := s.held.value + [s.call.frame];
            Step(s, e) == if s.count + 1 == s.maxDatagrams
                          then s.(held := None, count := 0, aggTime := e.now, taken := s.taken + [longer], call := AtTail)
                          else s.(held := Some(longer), count := s.count + 1, call := AtTail)
  {
    hide Step, Enabled, Concat;
    RoomInBuffer(s, e.now, e.xmitMore, e.urgent, e.allocOk);
  }

  lemma EnabledAtLock(s: State, e: Event)
    requires Enabled(s, e) && e.Lock?
    ensures s.call.AtLock?
  {
  }

  lemma GatheredLock(s: State, frames: seq<Frame>, s': State, e: Event)
    requires s.maxDatagrams >= 2 && Gathered(s, frames, s') && Enabled(s', e) && e.Lock? && Timely(s.aggTime, e)
    requires s'.call.AtLock? && |frames| <= s.maxDatagrams && |Concat(frames)| < s.maxSize
    ensures Gathered(s, frames, Step(s', e))
  {
    hide Concat, Step, Enabled, Timely;
    var inside, frame := frames[..|frames| - 1], frames[|frames| - 1];
    ConcatSnoc(inside, frame);
    assert inside + [frame] == frames;
    if inside == [] {
      OpensBuffer(s', e);
      GatheredOpened(s, frames, s', Step(s', e));
    } else {
      JoinsBuffer(s', e);
      GatheredJoined(s, frames, s', Step(s', e), e.now);
    }
  }

  lemma GatheredOpened(s: State, frames: seq<Frame>, s': State, s'': State)
    requires s.maxDatagrams >= 2 && Gathered(s, frames, s') && s'.call.AtLock? && |frames| == 1
    requires s'' == s'.(held := Some([s'.call.frame]), count := s'.count + 1, call := AtTail)
    ensures Gathered(s, frames, s'')
  {
    assert frames == [s'.call.frame];
  }

  lemma GatheredJoined(s: State, frames: seq<Frame>, s': State, s'': State, now: int)
    requires s.maxDatagrams >= 2 && Gathered(s, frames, s') && s'.call.AtLock? && 1 < |frames| <= s.maxDatagrams
    requires s'.held.Some?
    requires var longer := s'.held.value + [s'.call.frame];
             s'' == if s'.count + 1 == s'.maxDatagrams
                    then s'.(held := None, count := 0, aggTime := now, taken := s'.taken + [longer], call := AtTail)
                    else s'.(held := Some(longer), count := s'.count + 1, call := AtTail)
    ensures Gathered(s, frames, s'')
  {
    assert s'.held.value + [s'.call.frame] == frames;
  }
}
