/**
 The QMI proxy (fibo_qmimsg_server): many clients share one device. Control requests are queued
 and sent one at a time; the responses teach the proxy which connection owns which client id, and
 service messages are routed by that table. Modelled once the local server is up.
 */
module QmiProxy {
  import opened Bytes

  /** A client id of a service, as granted by the device. */
  datatype Client = Client(svc: byte, id: byte)

  datatype Conn = Conn(fd: nat, clients: seq<Client>)

  /** A control request; its number tells it apart from the sender's other requests. */
  datatype Req = Req(fd: nat, number: nat)

  /** What a control response says, as far as the proxy looks: a successful grant or release. */
  datatype Reply = Granted(client: Client) | Released(client: Client) | Other

  datatype Event =
    | Accept(fd: nat)
    | ClientRequest(fd: nat)                 // control request from a client
    | DeviceResponse(reply: Reply)           // the device answers its oldest outstanding request
    | DeviceIndication                       // any other control message from the device
    | DeviceService(svc: byte, id: byte)
    | Cleanup(fd: nat)

  datatype State = State(
    conns: seq<Conn>,            // qmi_proxy_connection
    queue: seq<Req>,             // qmi_proxy_ctl_msg
    outstanding: seq<Req>,       // control requests the device has not answered yet
    granted: set<Client>,        // client ids allocated at the device
    issued: seq<Req>,            // history: control requests received
    served: seq<Req>,            // history: queue heads removed by a response
    replies: seq<seq<nat>>,      // history: where each response was forwarded
    routed: seq<seq<nat>>)       // history: where each service message was forwarded

  function Fds(conns: seq<Conn>): seq<nat> { seq(|conns|, i requires 0 <= i < |conns| => conns[i].fd) }

  /** What is left of a failed accept: -1 in an unsigned byte. Such a connection sends nothing. */
  const DEAD: nat := 255

  /** Only the dead descriptor can be there twice. */
  predicate NoDup(fds: seq<nat>) { forall i, j :: 0 <= i < j < |fds| && fds[i] != DEAD ==> fds[i] != fds[j] }

  function RemoveFirst<T(==)>(s: seq<T>, x: T): seq<T> {
    if s == [] then [] else if s[0] == x then s[1..] else [s[0]] + RemoveFirst(s[1..], x)
  }

  // get_client_id, release_client_id.
  function Learn(clients: seq<Client>, reply: Reply): seq<Client> {
    match reply
    case Granted(c) => clients + [c]
    case Released(c) => RemoveFirst(clients, c)
    case Other => clients
  }

  // The loop over all connections: each one whose descriptor is fd learns from the reply.
  function LearnAt(conns: seq<Conn>, fd: nat, reply: Reply): seq<Conn> {
    if conns == [] then []
    else
      var c := conns[0];
      [if c.fd == fd then c.(clients := Learn(c.clients, reply)) else c] + LearnAt(conns[1..], fd, reply)
  }

  // The same loop seen from outside: one message for each connection whose descriptor is fd.
  function Hits(conns: seq<Conn>, fd: nat): seq<nat> {
    if conns == [] then [] else (if conns[0].fd == fd then [fd] else []) + Hits(conns[1..], fd)
  }

  function Repeat(r: Req, n: nat): seq<Req> { if n == 0 then [] else [r] + Repeat(r, n - 1) }

  // The queue head is sent to the device, once for each connection that has its descriptor.
  function SentHead(conns: seq<Conn>, queue: seq<Req>): seq<Req> {
    if queue == [] then [] else Repeat(queue[0], |Hits(conns, queue[0].fd)|)
  }

  predicate Matches(svc: byte, id: byte, c: Client) { svc == c.svc && (id == 0 || id == c.id) }

  function RouteTo(clients: seq<Client>, fd: nat, svc: byte, id: byte): seq<nat> {
    if clients == [] then []
    else (if Matches(svc, id, clients[0]) then [fd] else []) + RouteTo(clients[1..], fd, svc, id)
  }

  function Route(conns: seq<Conn>, svc: byte, id: byte): seq<nat> {
    if conns == [] then [] else RouteTo(conns[0].clients, conns[0].fd, svc, id) + Route(conns[1..], svc, id)
  }

  /** The position of the first element with this descriptor, or the length. */
  function FindConn(conns: seq<Conn>, fd: nat): (k: nat)
    ensures k <= |conns| && (forall i :: 0 <= i < k ==> conns[i].fd != fd) && (k < |conns| ==> conns[k].fd == fd)
  {
    if conns == [] || conns[0].fd == fd then 0 else 1 + FindConn(conns[1..], fd)
  }

  function FindReq(queue: seq<Req>, fd: nat): (k: nat)
    ensures k <= |queue| && (forall i :: 0 <= i < k ==> queue[i].fd != fd) && (k < |queue| ==> queue[k].fd == fd)
  {
    if queue == [] || queue[0].fd == fd then 0 else 1 + FindReq(queue[1..], fd)
  }

  function Without<T>(s: seq<T>, k: nat): seq<T> { if k < |s| then s[..k] + s[k + 1..] else s }

  /** The kernel hands out descriptors that are not in use, or fails to; only open connections send or
      are cleaned up, and the device answers only what it was asked. */
  predicate Enabled(s: State, e: Event) {
    match e
    case Accept(fd) => fd == DEAD || fd !in Fds(s.conns)
    case ClientRequest(fd) => fd != DEAD && fd in Fds(s.conns)
    case DeviceResponse(_) => s.outstanding != []
    case Cleanup(fd) => fd in Fds(s.conns)
    case _ => true
  }

  function Grants(granted: set<Client>, reply: Reply): set<Client> {
    match reply
    case Granted(c) => granted + {c}
    case Released(c) => granted - {c}
    case Other => granted
  }

  function Step(s: State, e: Event): State
    requires Enabled(s, e)
  {
    match e
    case Accept(fd) => s.(conns := s.conns + [Conn(fd, [])])
    case ClientRequest(fd) =>
      var r := Req(fd, |s.issued|);
      s.(queue := s.queue + [r], issued := s.issued + [r],
         outstanding := if s.queue == [] then s.outstanding + [r] else s.outstanding)
    case DeviceResponse(reply) =>
      var s1 := s.(outstanding := s.outstanding[1..], granted := Grants(s.granted, reply));
      if s.queue == [] then s1
      else
        var fd := s.queue[0].fd;
        var conns := LearnAt(s.conns, fd, reply);
        s1.(conns := conns, queue := s.queue[1..], served := s.served + [s.queue[0]],
            replies := s.replies + [Hits(s.conns, fd)],
            outstanding := s1.outstanding + SentHead(conns, s.queue[1..]))
    case DeviceIndication => s.(outstanding := s.outstanding + SentHead(s.conns, s.queue))
    case DeviceService(svc, id) => s.(routed := s.routed + [Route(s.conns, svc, id)])
    case Cleanup(fd) => 
      s.(conns := Without(s.conns, FindConn(s.conns, fd)), queue := Without(s.queue, FindReq(s.queue, fd)))
  }

  // ----- one control request at a time

  function Head(queue: seq<Req>): seq<Req> { if queue == [] then [] else [queue[0]] }

  predicate Ordered(queue: seq<Req>) { forall i, j :: 0 <= i < j < |queue| ==> queue[i].number < queue[j].number }

  predicate Live(conns: seq<Conn>, queue: seq<Req>) { forall r :: r in queue ==> r.fd != DEAD && r.fd in Fds(conns) }

  /** The queue is non-empty exactly when one control request is outstanding, and that one is the
      queue head; every queued request still has its connection. */
  predicate Serial(s: State) {
    && NoDup(Fds(s.conns)) && Live(s.conns, s.queue)
    && Ordered(s.queue) && (forall r :: r in s.queue ==> r.number < |s.issued|)
    && s.outstanding == Head(s.queue)
  }

  predicate AtMostOne(queue: seq<Req>, fd: nat) {
    forall i, j :: 0 <= i < j < |queue| ==> !(queue[i].fd == fd && queue[j].fd == fd)
  }

  /** What the proxy copes with: no other control message while requests are queued, and no
      cleanup of a connection whose request is outstanding or that has several in the queue. */
  predicate Benign(s: State, e: Event) {
    match e
    case DeviceIndication => s.queue == []
    case Cleanup(fd) => AtMostOne(s.queue, fd) && (s.queue != [] ==> s.queue[0].fd != fd)
    case _ => true
  }

  lemma FdsTail(conns: seq<Conn>)
    requires conns != []
    ensures Fds(conns) == [conns[0].fd] + Fds(conns[1..])
    ensures NoDup(Fds(conns)) ==> NoDup(Fds(conns[1..])) && (conns[0].fd != DEAD ==> conns[0].fd !in Fds(conns[1..]))
  {
    var fds := Fds(conns);
    assert fds[1..] == Fds(conns[1..]);
    assert NoDup(fds) && fds[0] != DEAD ==> fds[0] !in fds[1..];
  }

  lemma {:induction false} HitsOnce(conns: seq<Conn>, fd: nat)
    requires NoDup(Fds(conns)) && fd != DEAD
    ensures Hits(conns, fd) == if fd in Fds(conns) then [fd] else []
  {
    if conns != [] {
      FdsTail(conns);
      HitsOnce(conns[1..], fd);
    }
  }

  lemma {:induction false} LearnKeepsFds(conns: seq<Conn>, fd: nat, reply: Reply)
    ensures Fds(LearnAt(conns, fd, reply)) == Fds(conns)
  {
    if conns != [] {
      LearnKeepsFds(conns[1..], fd, reply);
      FdsTail(conns);
      FdsTail(LearnAt(conns, fd, reply));
    }
  }

  lemma DropConnFds(conns: seq<Conn>, fd: nat)
    requires NoDup(Fds(conns))
    ensures var conns' := Without(conns, FindConn(conns, fd));
            NoDup(Fds(conns')) && forall x :: x != DEAD ==> (x in Fds(conns') <==> x in Fds(conns) && x != fd)
  {
    var k := FindConn(conns, fd);
    var fds, fds' := Fds(conns), Fds(Without(conns, k));
    assert forall i :: 0 <= i < |fds'| ==> fds'[i] == fds[if i < k then i else i + 1];
    forall x | x in fds' && x != DEAD ensures x in fds && x != fd {
      var i :| 0 <= i < |fds'| && fds'[i] == x;
      var j := if i < k then i else i + 1;
      assert fds[j] == x;
      assert k < |fds| ==> fds[k] == fd && fds[j] != fds[k];
    }
    forall x | x in fds && x != fd ensures x in fds' {
      var i :| 0 <= i < |fds| && fds[i] == x;
      assert fds'[if i < k then i else i - 1] == x;
    }
  }

  lemma LiveAfterCleanup(conns: seq<Conn>, queue: seq<Req>, fd: nat)
    requires NoDup(Fds(conns)) && Live(conns, queue)
    ensures Live(Without(conns, FindConn(conns, fd)), Without(queue, FindReq(queue, fd))) <==> AtMostOne(queue, fd)
  {
    DropConnFds(conns, fd);
    NoneLeft(queue, fd);
    hide Fds, NoDup, Without, FindConn, FindReq, AtMostOne;
  }

  // The first request of a descriptor is taken: none is left exactly when there was at most one.
  lemma NoneLeft(queue: seq<Req>, fd: nat)
    ensures var queue' := Without(queue, FindReq(queue, fd));
            && (forall r :: r in queue' ==> r in queue)
            && (AtMostOne(queue, fd) <==> forall r :: r in queue' ==> r.fd != fd)
  {
    var k := FindReq(queue, fd);
    var queue' := Without(queue, k);
    assert forall i :: 0 <= i < |queue'| ==> queue'[i] == queue[if i < k then i else i + 1];
    if AtMostOne(queue, fd) {
      forall r | r in queue' ensures r.fd != fd {
        var i :| 0 <= i < |queue'| && queue'[i] == r;
      }
    } else {
      var i, j :| 0 <= i < j < |queue| && queue[i].fd == fd && queue[j].fd == fd;
      assert queue'[j - 1] == queue[j];
    }
  }

  // The head stays the head unless it is the one that the cleanup takes.
  lemma HeadAfterCleanup(queue: seq<Req>, fd: nat)
    requires Ordered(queue)
    ensures var queue' := Without(queue, FindReq(queue, fd));
            && Ordered(queue') && (forall r :: r in queue' ==> r in queue)
            && (Head(queue') == Head(queue) <==> (queue != [] ==> queue[0].fd != fd))
  {
  }

  lemma SerialAfterCleanup(s: State, fd: nat)
    requires Serial(s) && Enabled(s, Cleanup(fd))
    ensures Serial(Step(s, Cleanup(fd))) <==> Benign(s, Cleanup(fd))
  {
    DropConnFds(s.conns, fd);
    LiveAfterCleanup(s.conns, s.queue, fd);
    HeadAfterCleanup(s.queue, fd);
    hide NoDup, Fds, Live, Ordered, Head, Without, FindConn, FindReq, AtMostOne;
  }

  lemma SerialAfterResponse(s: State, reply: Reply)
    requires Serial(s) && Enabled(s, DeviceResponse(reply))
    ensures var s' := Step(s, DeviceResponse(reply));
            && Serial(s') && s.queue != []
            && s'.replies == s.replies + [[s.queue[0].fd]]
  {
    hide LearnAt, Hits, Grants, Fds, NoDup;
    assert s.queue[0] in s.queue;
    var fd := s.queue[0].fd;
    HitsOnce(s.conns, fd);
    LearnKeepsFds(s.conns, fd, reply);
    var conns := LearnAt(s.conns, fd, reply);
    if |s.queue| > 1 {
      var r := s.queue[1];
      assert r in s.queue;
      HitsOnce(conns, r.fd);
      assert Repeat(r, 1) == [r] + Repeat(r, 0) == [r];
    }
  }

  /** A step keeps control requests serialised if and only if it is benign. */
  lemma SerialStep(s: State, e: Event)
    requires Serial(s) && Enabled(s, e)
    ensures Serial(Step(s, e)) <==> Benign(s, e)
  {
    match e
    case Accept(fd) =>
      assert Fds(s.conns + [Conn(fd, [])]) == Fds(s.conns) + [fd];
    case ClientRequest(fd) =>
    case DeviceResponse(reply) => SerialAfterResponse(s, reply);
    case DeviceIndication =>
      if s.queue != [] {
        assert s.queue[0] in s.queue;
        HitsOnce(s.conns, s.queue[0].fd);
        assert Repeat(s.queue[0], 1) == [s.queue[0]] + Repeat(s.queue[0], 0);
      }
    case DeviceService(_, _) =>
    case Cleanup(fd) => SerialAfterCleanup(s, fd);
  }

  predicate CanRun(s: State, es: seq<Event>)
    decreases |es|
  {
    es == [] || (Enabled(s, es[0]) && CanRun(Step(s, es[0]), es[1..]))
  }

  function Run(s: State, es: seq<Event>): State
    requires CanRun(s, es)
    decreases |es|
  {
    if es == [] then s else Run(Step(s, es[0]), es[1..])
  }

  function Responses(es: seq<Event>): nat {
    if es == [] then 0 else (if es[0].DeviceResponse? then 1 else 0) + Responses(es[1..])
  }

  predicate Initial(s: State) {
    s.conns == [] && s.queue == [] && s.outstanding == [] && s.issued == [] && s.served == [] && s.replies == []
  }

  // ----- runs of benign steps

  predicate BenignRun(s: State, es: seq<Event>)
    requires CanRun(s, es)
    decreases |es|
  {
    es == [] || (Benign(s, es[0]) && BenignRun(Step(s, es[0]), es[1..]))
  }

  predicate Issued(issued: seq<Req>, r: Req) { r.number < |issued| && issued[r.number] == r }

  /** Requests are numbered as they come in; those served, and then those queued, are some of them, in
      the same order; and each response went to the one connection that had issued the request. */
  predicate Answered(s: State) {
    && (forall i :: 0 <= i < |s.issued| ==> s.issued[i].number == i)
    && Ordered(s.served + s.queue)
    && (forall r :: r in s.served + s.queue ==> Issued(s.issued, r))
    && |s.replies| == |s.served|
    && forall k :: 0 <= k < |s.served| ==> s.replies[k] == [s.served[k].fd]
  }

  lemma InitialIsSerial(s: State)
    requires Initial(s)
    ensures Serial(s) && Answered(s) && InOrder(s)
  {
  }

  // The queue loses its head to those served.
  lemma ServedNext(served: seq<Req>, queue: seq<Req>)
    requires queue != []
    ensures (served + [queue[0]]) + queue[1..] == served + queue
  {
  }

  lemma WithoutOrdered(served: seq<Req>, queue: seq<Req>, k: nat)
    requires Ordered(served + queue)
    ensures Ordered(served + Without(queue, k)) && forall r :: r in served + Without(queue, k) ==> r in served + queue
  {
    var all, rest := served + queue, served + Without(queue, k);
    forall i | 0 <= i < |rest| ensures rest[i] == all[if i < |served| + k then i else i + 1] {
    }
  }

  lemma RequestOrdered(served: seq<Req>, queue: seq<Req>, r: Req)
    requires Ordered(served + queue) && forall q :: q in served + queue ==> q.number < r.number
    ensures Ordered(served + (queue + [r])) && forall q :: q in served + (queue + [r]) ==> q == r || q in served + queue
  {
    var all := served + queue;
    assert served + (queue + [r]) == all + [r];
    assert forall i :: 0 <= i < |all| ==> all[i] in all;
  }

  lemma AnsweredStep(s: State, e: Event)
    requires Serial(s) && Answered(s) && Enabled(s, e) && Benign(s, e)
    ensures var s' := Step(s, e);
            && Answered(s') && s.issued <= s'.issued && s.served <= s'.served
            && |s'.served| == |s.served| + (if e.DeviceResponse? then 1 else 0)
  {
    hide LearnAt, SentHead, Hits, Grants, Route, Live, NoDup, Fds, Without, Ordered;
    match e
    case DeviceResponse(reply) =>
      SerialAfterResponse(s, reply);
      ServedNext(s.served, s.queue);
    case ClientRequest(fd) =>
      RequestOrdered(s.served, s.queue, Req(fd, |s.issued|));
    case Cleanup(fd) => WithoutOrdered(s.served, s.queue, FindReq(s.queue, fd));
    case _ =>
  }

  /** Over every benign run: requests stay serialised, as many are served as responses come, in the
      order in which they were issued, and each response goes to the one issuer of its request. */
  lemma {:induction false} AnsweredInOrder(s: State, es: seq<Event>)
    requires Serial(s) && Answered(s) && CanRun(s, es) && BenignRun(s, es)
    ensures var s' := Run(s, es);
            && Serial(s') && Answered(s') && s.issued <= s'.issued && s.served <= s'.served
            && |s'.served| == |s.served| + Responses(es)
    decreases |es|
  {
    hide Serial, Answered, Step, Enabled, Benign;
    if es != [] {
      SerialStep(s, es[0]);
      AnsweredStep(s, es[0]);
      AnsweredInOrder(Step(s, es[0]), es[1..]);
    }
  }

  // ----- runs in which nobody leaves while waiting

  /** A benign step that takes no request out of the queue unanswered. */
  predicate Gentle(s: State, e: Event) {
    match e
    case DeviceIndication => s.queue == []
    case Cleanup(fd) => forall r :: r in s.queue ==> r.fd != fd
    case _ => true
  }

  predicate GentleRun(s: State, es: seq<Event>)
    requires CanRun(s, es)
    decreases |es|
  {
    es == [] || (Gentle(s, es[0]) && GentleRun(Step(s, es[0]), es[1..]))
  }

  /** All requests are served, in the order received, and each response went to the one connection
      that had issued the request it answers. */
  predicate InOrder(s: State) {
    && s.issued == s.served + s.queue && |s.replies| == |s.served|
    && forall k :: 0 <= k < |s.served| ==> s.replies[k] == [s.served[k].fd]
  }

  lemma GentleStep(s: State, e: Event)
    requires Serial(s) && InOrder(s) && Enabled(s, e) && Gentle(s, e)
    ensures var s' := Step(s, e);
            && Serial(s') && InOrder(s') && s.issued <= s'.issued && s.served <= s'.served
            && |s'.served| == |s.served| + (if e.DeviceResponse? then 1 else 0)
  {
    hide LearnAt, SentHead, Hits, Grants, Route, Live, Ordered;
    SerialStep(s, e);
    match e
    case DeviceResponse(reply) =>
      SerialAfterResponse(s, reply);
      ServedNext(s.served, s.queue);
    case ClientRequest(fd) =>
      assert s.served + (s.queue + [Req(fd, |s.issued|)]) == (s.served + s.queue) + [Req(fd, |s.issued|)];
    case Cleanup(fd) =>
      assert s.queue != [] ==> s.queue[0] in s.queue;
    case _ =>
  }

  /** Over every run without other control messages in between and without cleanup of a waiting
      connection: at any time at most one request is outstanding, the queue head, and the k-th
      response goes to the connection that issued the k-th request. */
  lemma {:induction false} Serialised(s: State, es: seq<Event>)
    requires Serial(s) && InOrder(s) && CanRun(s, es) && GentleRun(s, es)
    ensures var s' := Run(s, es);
            && Serial(s') && InOrder(s') && s.issued <= s'.issued && s.served <= s'.served
            && |s'.served| == |s.served| + Responses(es)
            && forall k :: 0 <= k < |s'.replies| ==> s'.replies[k] == [s'.issued[k].fd]
    decreases |es|
  {
    if es != [] {
      GentleStep(s, es[0]);
      Serialised(Step(s, es[0]), es[1..]);
    }
  }

  /** A request at position n of the queue is at the device after exactly n further responses:
      not before, and after that it has been answered, to its own connection. */
  lemma SentAfterExactly(s: State, es: seq<Event>, n: nat)
    requires Serial(s) && InOrder(s) && CanRun(s, es) && GentleRun(s, es) && n < |s.queue|
    ensures var s', r, m := Run(s, es), s.queue[n], Responses(es);
            && (m < n ==> r in s'.queue && r !in s'.outstanding)
            && (m == n ==> s'.outstanding == [r])
            && (m > n ==> |s'.replies| == |s'.served| > |s.served| + n
                          && s'.served[|s.served| + n] == r && s'.replies[|s.served| + n] == [r.fd])
  {
    hide Serial, InOrder, Run, CanRun, GentleRun, Responses;
    Serialised(s, es);
    AtPosition(s, Run(s, es), n, Responses(es));
  }

  lemma AtPosition(s: State, s': State, n: nat, m: nat)
    requires InOrder(s) && Serial(s') && InOrder(s') && s.issued <= s'.issued
    requires |s'.served| == |s.served| + m && n < |s.queue|
    ensures var r := s.queue[n];
            && (m < n ==> r in s'.queue && r !in s'.outstanding)
            && (m == n ==> s'.outstanding == [r])
            && (m > n ==> |s'.replies| == |s'.served| > |s.served| + n
                          && s'.served[|s.served| + n] == r && s'.replies[|s.served| + n] == [r.fd])
  {
    hide NoDup, Fds, Live, Ordered;
    Position(s.served, s.queue, s'.served, s'.queue, n, m);
    if m < n {
      NotHead(s'.queue, n - m);
    }
  }

  // Where an element of the queue is after m of its elements were served.
  lemma Position(served: seq<Req>, queue: seq<Req>, served': seq<Req>, queue': seq<Req>, n: nat, m: nat)
    requires n < |queue| && |served'| == |served| + m && served + queue <= served' + queue'
    ensures m <= n ==> n - m < |queue'| && queue'[n - m] == queue[n]
    ensures m > n ==> |served'| > |served| + n && served'[|served| + n] == queue[n]
  {
    assert (served' + queue')[|served| + n] == (served + queue)[|served| + n] == queue[n];
  }

  lemma NotHead(queue: seq<Req>, i: nat)
    requires Ordered(queue) && 0 < i < |queue|
    ensures queue[i] in queue && queue[i] != queue[0]
  {
  }

  /** The same from the start of the proxy, with nothing assumed but what its clients and the device do. */
  lemma FromTheStart(s: State, es: seq<Event>)
    requires Initial(s) && CanRun(s, es) && BenignRun(s, es)
    ensures var s' := Run(s, es);
            && (s'.queue == [] <==> s'.outstanding == []) && (s'.queue != [] ==> s'.outstanding == [s'.queue[0]])
            && |s'.served| == |s'.replies| == Responses(es)
            && (forall k :: 0 <= k < |s'.served| ==> s'.replies[k] == [s'.served[k].fd] && s'.served[k] in s'.issued)
            && (GentleRun(s, es) ==> s'.issued == s'.served + s'.queue)
  {
    InitialIsSerial(s);
    AnsweredInOrder(s, es);
    if GentleRun(s, es) {
      Serialised(s, es);
    }
    var s' := Run(s, es);
    forall k | 0 <= k < |s'.served| ensures s'.served[k] in s'.issued {
      assert s'.served[k] in s'.served + s'.queue;
    }
  }

  // ----- where the serialisation breaks

  // The loops over one or two connections, for the concrete runs.
  lemma OneConn(a: Conn, fd: nat, reply: Reply)
    ensures Fds([a]) == [a.fd]
    ensures LearnAt([a], fd, reply) == [if a.fd == fd then a.(clients := Learn(a.clients, reply)) else a]
    ensures Hits([a], fd) == if a.fd == fd then [fd] else []
  {
    assert LearnAt([], fd, reply) == [] && Hits([], fd) == [];
  }

  lemma TwoConns(a: Conn, b: Conn, reply: Reply)
    requires a.fd != b.fd
    ensures Fds([a, b]) == [a.fd, b.fd]
    ensures LearnAt([a, b], a.fd, reply) == [a.(clients := Learn(a.clients, reply)), b]
    ensures Hits([a, b], a.fd) == [a.fd]
  {
    assert [a, b][1..] == [b];
    OneConn(b, a.fd, reply);
  }

  /** A control indication while a request is outstanding sends that request a second time. */
  lemma IndicationBreaks(granted: set<Client>)
    ensures var c := Conn(7, []);
            var s := State([c], [Req(7, 0)], [Req(7, 0)], granted, [Req(7, 0)], [], [], []);
            Serial(s) && Step(s, DeviceIndication).outstanding == [Req(7, 0), Req(7, 0)]
  {
    var s := State([Conn(7, [])], [Req(7, 0)], [Req(7, 0)], granted, [Req(7, 0)], [], [], []);
    assert Fds(s.conns) == [7];
    HitsOnce(s.conns, 7);
    assert Repeat(Req(7, 0), 1) == [Req(7, 0)] + Repeat(Req(7, 0), 0);
  }

  /** Cleaning up the connection whose request is outstanding leaves the next request waiting, with
      the device working on one that is no longer queued. */
  lemma CleanupBreaks(granted: set<Client>)
    ensures var q := [Req(7, 0), Req(8, 1)];
            var s := State([Conn(7, []), Conn(8, [])], q, [Req(7, 0)], granted, q, [], [], []);
            Serial(s) &&
            var s' := Step(s, Cleanup(7));
            s'.queue == [Req(8, 1)] && s'.outstanding == [Req(7, 0)]
  {
    var q := [Req(7, 0), Req(8, 1)];
    var s := State([Conn(7, []), Conn(8, [])], q, [Req(7, 0)], granted, q, [], [], []);
    assert Fds(s.conns) == [7, 8];
  }

  /** The queue is stuck: nothing is at the device, and the head's connection is gone. */
  predicate Stuck(s: State) {
    s.outstanding == [] && s.queue != [] && s.queue[0].fd !in Fds(s.conns)
  }

  lemma StuckStep(s: State, e: Event)
    requires Stuck(s) && Enabled(s, e) && e != Accept(s.queue[0].fd)
    ensures var s' := Step(s, e);
            && Stuck(s') && s'.queue[0] == s.queue[0] && s'.served == s.served && s'.replies == s.replies
  {
    hide NoDup;
    NoHits(s.conns, s.queue[0].fd);
    match e
    case Accept(fd) => assert Fds(s.conns + [Conn(fd, [])]) == Fds(s.conns) + [fd];
    case Cleanup(fd) => FewerFds(s.conns, FindConn(s.conns, fd));
    case _ =>
  }

  lemma {:induction false} NoHits(conns: seq<Conn>, fd: nat)
    requires fd !in Fds(conns)
    ensures Hits(conns, fd) == []
  {
    if conns != [] {
      FdsTail(conns);
      NoHits(conns[1..], fd);
    }
  }

  lemma FewerFds(conns: seq<Conn>, k: nat)
    ensures forall x :: x in Fds(Without(conns, k)) ==> x in Fds(conns)
  {
    var fds, fds' := Fds(conns), Fds(Without(conns, k));
    forall i | 0 <= i < |fds'| ensures fds'[i] == fds[if i < k then i else i + 1] {
    }
  }

  /** A stuck queue stays so over every run, whatever clients and device do, until a new connection
      gets the old descriptor: the device gets no control request and nobody gets an answer. */
  lemma {:induction false} StuckForever(s: State, es: seq<Event>)
    requires Stuck(s) && CanRun(s, es) && Accept(s.queue[0].fd) !in es
    ensures var s' := Run(s, es);
            && Stuck(s') && s'.queue[0] == s.queue[0] && s'.served == s.served && s'.replies == s.replies
    decreases |es|
  {
    hide Stuck, Step, Enabled;
    if es != [] {
      StuckHasHead(s);
      StuckStep(s, es[0]);
      StuckHasHead(Step(s, es[0]));
      StuckForever(Step(s, es[0]), es[1..]);
    }
  }

  lemma StuckHasHead(s: State)
    requires Stuck(s)
    ensures s.queue != []
  {
  }

  // Connection 8 is being served, connection 7 has two requests behind; and the same after 7 is gone.
  function TwoWaiting(granted: set<Client>): State {
    var q := [Req(8, 0), Req(7, 1), Req(7, 2)];
    State([Conn(8, []), Conn(7, [])], q, [Req(8, 0)], granted, q, [], [], [])
  }

  function OneLeft(granted: set<Client>): State {
    var s := TwoWaiting(granted);
    s.(conns := [Conn(8, [])], queue := [Req(8, 0), Req(7, 2)])
  }

  lemma OneStaysBehind(granted: set<Client>)
    ensures var s := TwoWaiting(granted);
            Serial(s) && Enabled(s, Cleanup(7)) && Step(s, Cleanup(7)) == OneLeft(granted)
  {
    var s := TwoWaiting(granted);
    TwoConns(Conn(8, []), Conn(7, []), Other);
    hide Fds;
    assert FindConn(s.conns, 7) == 1 && FindReq(s.queue, 7) == 1;
  }

  lemma HeadWithoutConn(granted: set<Client>)
    ensures var s' := Step(OneLeft(granted), DeviceResponse(Other)); s'.queue == [Req(7, 2)] && Stuck(s')
  {
    OneConn(Conn(8, []), 8, Other);
    OneConn(Conn(8, []), 7, Other);
    hide LearnAt, Hits, Fds;
  }

  /** How a queue gets stuck: connection 7 is cleaned up with two requests queued, and its second one
      stays behind. Once it is the head, the queue is stuck. */
  lemma LeftBehind(granted: set<Client>)
    ensures var s, es := TwoWaiting(granted), [Cleanup(7), DeviceResponse(Other)];
            && Serial(s) && CanRun(s, es)
            && Run(s, es).queue == [Req(7, 2)] && Stuck(Run(s, es))
  {
    OneStaysBehind(granted);
    HeadWithoutConn(granted);
    var es := [Cleanup(7), DeviceResponse(Other)];
    var s1 := OneLeft(granted);
    var s2 := Step(s1, es[1]);
    hide Step, Serial, Stuck;
    assert es[1..] == [es[1]] && [es[1]][1..] == [];
    assert CanRun(s2, []) && Run(s2, []) == s2;
    assert CanRun(s1, [es[1]]) && Run(s1, [es[1]]) == s2;
  }
}
