/**
 Requests and their responses (QMIThread.c): transaction ids from a counter that wraps, one
 outstanding request, and a receive thread that hands over the response that matches it.
 */
module QmiTransactions {
  import opened Bytes
  import opened Wrappers

  const CTL: byte := 0    // QMUX_TYPE_CTL

  /** Control messages carry a one-byte id, all others a two-byte one; 0 is never used. */
  function Period(qmiType: byte): nat { if qmiType == CTL then 0xFF else 0xFFFF }

  /** GetQMUXTransactionId and GetQCTLTransactionId: count up, and start over at 1. */
  function NextId(qmiType: byte, id: nat): nat { if id + 1 > Period(qmiType) then 1 else id + 1 }

  /** The id after n + 1 calls. */
  function IdAt(qmiType: byte, n: nat): nat
  {
    if n == 0 then NextId(qmiType, 0) else NextId(qmiType, IdAt(qmiType, n - 1))
  }

  /** Ids stay between 1 and the period, and count the calls modulo the period. */
  lemma {:induction false} IdCounts(qmiType: byte, n: nat)
    ensures IdAt(qmiType, n) == n % Period(qmiType) + 1
  {
    if n > 0 {
      IdCounts(qmiType, n - 1);
    }
  }

  // Equal remainders, as a distance.
  lemma SameRemainder(i: nat, j: nat, p: nat)
    requires i <= j && p > 0
    ensures i % p == j % p <==> (j - i) % p == 0
  {
    var qi, qj, qd := i / p, j / p, (j - i) / p;
    var ri, rj, rd := i % p, j % p, (j - i) % p;
    assert i == qi * p + ri && j == qj * p + rj && j - i == qd * p + rd;
    if ri == rj {
      assert rd == (qj - qi - qd) * p;
      Multiple(rd, qj - qi - qd, p);
    }
    if rd == 0 {
      assert rj - ri == (qd - qj + qi) * p;
      if rj >= ri { Multiple(rj - ri, qd - qj + qi, p); } else { Multiple(ri - rj, qj - qi - qd, p); }
    }
  }

  lemma Multiple(r: nat, k: int, p: nat)
    requires r < p && r == k * p
    ensures r == 0
  {
  }

  /** Two calls give the same id exactly when a multiple of the period lies between them; so any
      65535 consecutive ids are distinct. */
  lemma IdsRepeat(qmiType: byte, i: nat, j: nat)
    requires i <= j
    ensures 1 <= IdAt(qmiType, i) <= Period(qmiType)
    ensures IdAt(qmiType, i) == IdAt(qmiType, j) <==> (j - i) % Period(qmiType) == 0
    ensures i < j && j - i < Period(qmiType) ==> IdAt(qmiType, i) != IdAt(qmiType, j)
  {
    IdCounts(qmiType, i);
    IdCounts(qmiType, j);
    SameRemainder(i, j, Period(qmiType));
  }

  /** A request; serial counts the requests that drew their id from the same counter. */
  datatype Request = Request(qmiType: byte, clientId: byte, tid: nat, serial: nat)

  /** A message from the device: the answer to a request, or an indication. */
  datatype Message = Message(qmiType: byte, clientId: byte, tid: nat, answers: Option<Request>)

  /** is_response */
  predicate IsResponse(r: Request, m: Message) {
    r.qmiType == m.qmiType && r.clientId == m.clientId && r.tid == m.tid
  }

  datatype State = State(
    muxId: nat, ctlId: nat,            // the two static counters
    muxCount: nat, ctlCount: nat,      // history: how often they were used
    request: Option<Request>,          // s_pRequest
    response: Option<Message>,         // s_pResponse
    waiting: Option<Request>,          // the sender inside the wait
    sent: seq<Request>,                // history
    returned: seq<(Request, Option<Message>)>)

  datatype Event =
    | Send(qmiType: byte, clientId: byte, accepted: bool)  // compose, send, start to wait
    | Recv(m: Message, allocOk: bool)
    | Wake                                                 // the wait ends, signalled or not
    | Timeout
    | Quit

  /** The device echoes the ids of requests that were sent, and sends indications with id 0. */
  predicate Echoes(s: State, m: Message) {
    match m.answers
    case Some(r) => r in s.sent && IsResponse(r, m)
    case None => m.tid == 0
  }

  predicate Enabled(s: State, e: Event) {
    match e
    case Send(_, _, _) => s.waiting.None?
    case Recv(m, _) => Echoes(s, m)
    case Wake => s.waiting.Some?
    case Timeout => s.waiting.Some?
    case Quit => true
  }

  function NewRequest(s: State, qmiType: byte, clientId: byte): Request {
    if qmiType == CTL then Request(CTL, clientId, NextId(CTL, s.ctlId), s.ctlCount)
    else Request(qmiType, clientId, NextId(qmiType, s.muxId), s.muxCount)
  }

  function Step(s: State, e: Event): State
    requires Enabled(s, e)
  {
    match e
    case Send(qmiType, clientId, accepted) =>
      var r := NewRequest(s, qmiType, clientId);
      var s1 := if qmiType == CTL then s.(ctlId := r.tid, ctlCount := s.ctlCount + 1)
                else s.(muxId := r.tid, muxCount := s.muxCount + 1);
      var s2 := s1.(request := Some(r), response := None, sent := s.sent + [r]);
      if accepted then s2.(waiting := Some(r)) else s2.(returned := s.returned + [(r, None)])
    case Recv(m, allocOk) =>
      if s.request.Some? && IsResponse(s.request.value, m)
      then s.(request := None, response := if allocOk then Some(m) else None)
      else s
    case Wake => s.(waiting := None, returned := s.returned + [(s.waiting.value, s.response)])
    case Timeout => s.(waiting := None, returned := s.returned + [(s.waiting.value, None)])
    case Quit => if s.request.Some? then s.(request := None, response := None) else s
  }

  // How many requests drew their id from the counter of this service.
  function Count(s: State, qmiType: byte): nat { if qmiType == CTL then s.ctlCount else s.muxCount }

  // Requests sent carry the ids and numbers that their counter gave them, in order.
  predicate Numbered(s: State) {
    && (s.muxId == if s.muxCount == 0 then 0 else (s.muxCount - 1) % 0xFFFF + 1)
    && (s.ctlId == if s.ctlCount == 0 then 0 else (s.ctlCount - 1) % 0xFF + 1)
    && (forall r :: r in s.sent ==> r.tid == r.serial % Period(r.qmiType) + 1 && r.serial < Count(s, r.qmiType))
  }

  /** The answer belongs to the request itself, or to one a whole number of periods before it. */
  predicate Belongs(s: State, r: Request, m: Message) {
    && m.answers.Some?
    && var q := m.answers.value;
    && q in s.sent && q.qmiType == r.qmiType && q.clientId == r.clientId
    && q.serial <= r.serial && (r.serial - q.serial) % Period(r.qmiType) == 0
  }

  predicate Latest(s: State, r: Request) {
    r in s.sent && r.serial + 1 == Count(s, r.qmiType)
  }

  predicate Inv(s: State) {
    && Numbered(s)
    && (s.request.Some? ==> Latest(s, s.request.value))
    && (s.waiting.Some? ==>
          && Latest(s, s.waiting.value)
          && (s.request.Some? ==> s.request == s.waiting && s.response.None?)
          && (s.response.Some? ==> Belongs(s, s.waiting.value, s.response.value)))
    && (forall i :: 0 <= i < |s.returned| ==> Sound(s, s.returned[i]))
  }

  predicate Sound(s: State, x: (Request, Option<Message>)) { x.1.Some? ==> Belongs(s, x.0, x.1.value) }

  // The next id of a counter is the one of the next number.
  lemma NextOfCount(qmiType: byte, count: nat)
    ensures NextId(qmiType, if count == 0 then 0 else (count - 1) % Period(qmiType) + 1) == count % Period(qmiType) + 1
  {
    IdCounts(qmiType, count);
    if count > 0 {
      IdCounts(qmiType, count - 1);
    }
  }

  // An accepted message belongs to the request that is waiting for it.
  lemma AcceptedBelongs(s: State, r: Request, m: Message)
    requires Numbered(s) && Latest(s, r) && Echoes(s, m) && IsResponse(r, m)
    ensures Belongs(s, r, m)
  {
    if m.answers.Some? {
      var q := m.answers.value;
      SameRemainder(q.serial, r.serial, Period(r.qmiType));
    }
  }

  lemma SendStep(s: State, qmiType: byte, clientId: byte, accepted: bool)
    requires Inv(s) && Enabled(s, Send(qmiType, clientId, accepted))
    ensures Inv(Step(s, Send(qmiType, clientId, accepted)))
  {
    hide NextId;
    NextOfCount(qmiType, Count(s, qmiType));
    var s' := Step(s, Send(qmiType, clientId, accepted));
    assert Numbered(s');
    forall i | 0 <= i < |s'.returned| ensures Sound(s', s'.returned[i]) {
      if i < |s.returned| {
        assert Sound(s, s.returned[i]);
      }
    }
  }

  lemma InvStep(s: State, e: Event)
    requires Inv(s) && Enabled(s, e)
    ensures Inv(Step(s, e))
  {
    var s' := Step(s, e);
    if e.Send? {
      SendStep(s, e.qmiType, e.clientId, e.accepted);
    } else {
      if e.Recv? && s.request.Some? && IsResponse(s.request.value, e.m) {
        AcceptedBelongs(s, s.request.value, e.m);
      }
      forall i | 0 <= i < |s'.returned| ensures Sound(s', s'.returned[i]) {
        if i < |s.returned| {
          assert Sound(s, s.returned[i]);
        }
      }
    }
  }

  predicate CanRun(s: State, es: seq<Event>)
    decreases |es|
  {
    es == [] || (Enabled(s, es[0]) && CanRun(Step(s, es[0]), es[1..]))
  }

  function Run(s: State, es: seq<Event>): State
    requires CanRun(s, es)
    decreases |es|
  {
    if es == [] then s else Run(Step(s, es[0]), es[1..])
  }

  predicate Initial(s: State) {
    && s.muxId == 0 && s.ctlId == 0 && s.muxCount == 0 && s.ctlCount == 0
    && s.request.None? && s.response.None? && s.waiting.None? && s.sent == [] && s.returned == []
  }

  lemma {:induction false} InvAlways(s: State, es: seq<Event>)
    requires Inv(s) && CanRun(s, es)
    ensures Inv(Run(s, es))
    decreases |es|
  {
    hide Inv, Step, Enabled;
    if es != [] {
      InvStep(s, es[0]);
      InvAlways(Step(s, es[0]), es[1..]);
    }
  }

  /** Over every interleaving of send, receive, wake-up, timeout and quit: a response that a send
      returns answers that very request, or one at least a whole period of ids before it. */
  lemma NoStaleResponse(s: State, es: seq<Event>, i: nat)
    requires Initial(s) && CanRun(s, es) && i < |Run(s, es).returned|
    requires Run(s, es).returned[i].1.Some?
    ensures var x := Run(s, es).returned[i];
            var r, m := x.0, x.1.value;
            && m.answers.Some? && m.answers.value.qmiType == r.qmiType && m.answers.value.clientId == r.clientId
            && var q := m.answers.value;
               q.serial == r.serial || q.serial + Period(r.qmiType) <= r.serial
  {
    InvAlways(s, es);
    assert Sound(Run(s, es), Run(s, es).returned[i]);
  }

  /** And the period is the exact bound: while r waits, the answer to any earlier request of the same
      service and client is taken for its own if and only if a multiple of the period lies between. */
  lemma TakenIff(s: State, r: Request, m: Message)
    requires Inv(s) && s.waiting == Some(r) && s.request == Some(r)
    requires Echoes(s, m) && m.answers.Some?
    ensures var q := m.answers.value;
            Step(s, Recv(m, true)).response == Some(m)
            <==> q.qmiType == r.qmiType && q.clientId == r.clientId && (r.serial - q.serial) % Period(r.qmiType) == 0
  {
    var q := m.answers.value;
    if q.qmiType == r.qmiType {
      SameRemainder(q.serial, r.serial, Period(r.qmiType));
    }
  }

  /** The command mutex's data. The sender waits between BeginSend and one of the two ways its wait
      can end; the receive thread comes in between. */
  class Commands {
    var muxId: nat
    var ctlId: nat
    var request: Option<Request>
    var response: Option<Message>
    var waiting: Option<Request>
    var muxCount: nat
    var ctlCount: nat
    ghost var sent: seq<Request>
    ghost var returned: seq<(Request, Option<Message>)>

    ghost function Abs(): State
      reads this
    {
      State(muxId, ctlId, muxCount, ctlCount, request, response, waiting, sent, returned)
    }

    constructor ()
      ensures Initial(Abs())
    {
      muxId, ctlId, muxCount, ctlCount := 0, 0, 0, 0;
      request, response, waiting := None, None, None;
      sent, returned := [], [];
    }

    /** GetQMUXTransactionId, or its counterpart for control messages */
    method GetTransactionId(qmiType: byte) returns (id: nat)
      modifies this`muxId, this`ctlId
      ensures id == NextId(qmiType, old(if qmiType == CTL then ctlId else muxId))
      ensures muxId == (if qmiType == CTL then old(muxId) else id) && ctlId == (if qmiType == CTL then id else old(ctlId))
    {
      if qmiType == CTL {
        ctlId := ctlId + 1;
        if ctlId > 0xFF {
          ctlId := 1;
        }
        id := ctlId;
      } else {
        muxId := muxId + 1;
        if muxId > 0xFFFF {
          muxId := 1;
        }
        id := muxId;
      }
    }

    /** A request is composed, and QmiThreadSendQMITimeout sends it; accepted is qmidev_send's result. */
    method BeginSend(qmiType: byte, clientId: byte, accepted: bool)
      requires Enabled(Abs(), Send(qmiType, clientId, accepted))
      modifies this
      ensures Abs() == Step(old(Abs()), Send(qmiType, clientId, accepted))
    {
      var tid := GetTransactionId(qmiType);
      var r := Request(qmiType, clientId, tid, if qmiType == CTL then ctlCount else muxCount);
      if qmiType == CTL {
        ctlCount := ctlCount + 1;
      } else {
        muxCount := muxCount + 1;
      }
      request, response := Some(r), None;
      sent := sent + [r];
      if accepted {
        waiting := Some(r);
      } else {
        returned := returned + [(r, None)];
      }
    }

    /** The wait of QmiThreadSendQMITimeout ends: with whatever response is there, or timed out. */
    method EndSend(timedOut: bool) returns (r: Option<Message>)
      requires waiting.Some?
      modifies this
      ensures Abs() == Step(old(Abs()), if timedOut then Timeout else Wake)
      ensures returned == old(returned) + [(old(waiting).value, r)]
    {
      r := None;
      if !timedOut && response.Some? {
        r := response;
      }
      returned := returned + [(waiting.value, r)];
      waiting := None;
    }

    /** QmiThreadRecvQMI with a message */
    method Receive(m: Message, allocOk: bool)
      requires Enabled(Abs(), Recv(m, allocOk))
      modifies this
      ensures Abs() == Step(old(Abs()), Recv(m, allocOk))
    {
      if request.Some? && IsResponse(request.value, m) {
        request := None;
        response := None;
        if allocOk {
          response := Some(m);
        }
      }
    }

    /** QmiThreadRecvQMI with NULL: whoever waits is let go */
    method ReceiveNull()
      modifies this
      ensures Abs() == Step(old(Abs()), Quit)
    {
      if request.Some? {
        request, response := None, None;
      }
    }
  }
}
