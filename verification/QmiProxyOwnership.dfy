/**
 Who owns a client id: the tables of different connections of the QMI proxy stay disjoint, and a
 service message reaches exactly its owner.
 */
module QmiProxyOwnership {
  import opened Bytes
  import opened QmiProxy

  /** All client ids in the connections' tables, with multiplicity. */
  function Table(conns: seq<Conn>): multiset<Client> {
    if conns == [] then multiset{} else multiset(conns[0].clients) + Table(conns[1..])
  }

  /** Every client id is in at most one table, once, and is allocated at the device. */
  ghost predicate OwnedIn(t: multiset<Client>, granted: set<Client>) {
    (forall c :: t[c] <= 1) && (forall c :: c in t ==> c in granted)
  }

  ghost predicate Own(s: State) {
    OwnedIn(Table(s.conns), s.granted)
  }

  function ClientsOf(conns: seq<Conn>, fd: nat): seq<Client> {
    var k := FindConn(conns, fd);
    if k < |conns| then conns[k].clients else []
  }

  lemma {:induction false} RemoveFirstCounts(s: seq<Client>, x: Client)
    ensures multiset(RemoveFirst(s, x)) == multiset(s) - multiset{x}
  {
    if s != [] {
      assert s == [s[0]] + s[1..];
      RemoveFirstCounts(s[1..], x);
    }
  }

  lemma {:induction false} LearnElsewhere(conns: seq<Conn>, fd: nat, reply: Reply)
    requires fd !in Fds(conns)
    ensures LearnAt(conns, fd, reply) == conns
  {
    if conns != [] {
      FdsTail(conns);
      LearnElsewhere(conns[1..], fd, reply);
    }
  }

  lemma {:induction false} OwnedIsInTable(conns: seq<Conn>, i: nat, c: Client)
    requires i < |conns| && c in conns[i].clients
    ensures c in Table(conns)
  {
    if i > 0 {
      OwnedIsInTable(conns[1..], i - 1, c);
    }
  }

  function LearntTable(t: multiset<Client>, own: seq<Client>, reply: Reply): multiset<Client> {
    match reply
    case Granted(c) => t + multiset{c}
    case Released(c) => if c in own then t - multiset{c} else t
    case Other => t
  }

  lemma LearntHere(own: seq<Client>, rest: multiset<Client>, reply: Reply)
    ensures multiset(Learn(own, reply)) + rest == LearntTable(multiset(own) + rest, own, reply)
  {
    if reply.Released? {
      RemoveFirstCounts(own, reply.client);
    }
  }

  lemma LearntPlus(more: multiset<Client>, t: multiset<Client>, own: seq<Client>, reply: Reply)
    requires reply.Released? && reply.client in own ==> reply.client in t
    ensures more + LearntTable(t, own, reply) == LearntTable(more + t, own, reply)
  {
  }

  lemma ClientsTail(conns: seq<Conn>, fd: nat)
    requires conns != [] && conns[0].fd != fd
    ensures ClientsOf(conns, fd) == ClientsOf(conns[1..], fd)
  {
  }

  // What the tables hold after the reply to the connection fd.
  lemma {:induction false} LearnTable(conns: seq<Conn>, fd: nat, reply: Reply)
    requires NoDup(Fds(conns)) && fd != DEAD && fd in Fds(conns)
    ensures Table(LearnAt(conns, fd, reply)) == LearntTable(Table(conns), ClientsOf(conns, fd), reply)
  {
    FdsTail(conns);
    var rest := LearnAt(conns[1..], fd, reply);
    assert conns == [conns[0]] + conns[1..];
    TableCons(conns[0], conns[1..]);
    TableCons(conns[0], rest);
    TableCons(conns[0].(clients := Learn(conns[0].clients, reply)), rest);
    hide Fds, NoDup, Learn, LearntTable, Table;
    if conns[0].fd == fd {
      LearnElsewhere(conns[1..], fd, reply);
      LearntHere(conns[0].clients, Table(conns[1..]), reply);
    } else {
      LearnTable(conns[1..], fd, reply);
      ClientsTail(conns, fd);
      if reply.Released? && reply.client in ClientsOf(conns, fd) {
        OwnedIsInTable(conns[1..], FindConn(conns[1..], fd), reply.client);
      }
      LearntPlus(multiset(conns[0].clients), Table(conns[1..]), ClientsOf(conns, fd), reply);
    }
  }

  lemma TableCons(c: Conn, rest: seq<Conn>)
    ensures Table([c] + rest) == multiset(c.clients) + Table(rest)
  {
    assert ([c] + rest)[1..] == rest;
  }

  lemma WithoutTail(conns: seq<Conn>, k: nat)
    requires 0 < k < |conns|
    ensures Without(conns, k) == [conns[0]] + Without(conns[1..], k - 1)
  {
  }

  lemma {:induction false} TableWithout(conns: seq<Conn>, k: nat)
    ensures Table(Without(conns, k)) <= Table(conns)
  {
    if k == 0 && conns != [] {
      assert Without(conns, 0) == conns[1..];
    } else if k < |conns| {
      hide Without;
      TableWithout(conns[1..], k - 1);
      WithoutTail(conns, k);
    }
  }

  lemma {:induction false} TableSnoc(conns: seq<Conn>, c: Conn)
    ensures Table(conns + [c]) == Table(conns) + multiset(c.clients)
  {
    if conns == [] {
      assert conns + [c] == [c];
    } else {
      TableSnoc(conns[1..], c);
      assert (conns + [c])[1..] == conns[1..] + [c];
    }
  }

  /** The device grants only ids that nobody has, and releases one only at its owner's request. */
  predicate Fair(s: State, e: Event) {
    match e
    case DeviceResponse(Granted(c)) => c !in Table(s.conns)
    case DeviceResponse(Released(c)) => c in Table(s.conns) ==> s.queue != [] && c in ClientsOf(s.conns, s.queue[0].fd)
    case _ => true
  }

  /** A step keeps the ownership of client ids if and only if it is fair. */
  lemma OwnStep(s: State, e: Event)
    requires Serial(s) && Own(s) && Enabled(s, e)
    ensures Own(Step(s, e)) <==> Fair(s, e)
  {
    hide Serial, Hits, SentHead;
    match e
    case Accept(fd) => TableSnoc(s.conns, Conn(fd, []));
    case DeviceResponse(reply) => OwnAfterResponse(s, reply);
    case Cleanup(fd) => TableWithout(s.conns, FindConn(s.conns, fd));
    case _ =>
  }

  // The same about the contents of the tables alone; own is the table of the queue head.
  lemma OwnedAfterReply(t: multiset<Client>, granted: set<Client>, own: seq<Client>, reply: Reply)
    requires OwnedIn(t, granted) && forall c :: c in own ==> c in t
    ensures OwnedIn(LearntTable(t, own, reply), Grants(granted, reply))
            <==> match reply
                 case Granted(c) => c !in t
                 case Released(c) => c in t ==> c in own
                 case Other => true
  {
    var t' := LearntTable(t, own, reply);
    match reply
    case Granted(c) => assert t'[c] == t[c] + 1;
    case Released(c) => assert c in t ==> (c in t' <==> c !in own);
    case Other =>
  }

  lemma OwnAfterResponse(s: State, reply: Reply)
    requires Serial(s) && Own(s) && Enabled(s, DeviceResponse(reply))
    ensures Own(Step(s, DeviceResponse(reply))) <==> Fair(s, DeviceResponse(reply))
  {
    assert s.queue != [] && s.queue[0] in s.queue;
    hide Hits, SentHead, LearnAt, Table, NoDup, Fds, Ordered, Head, LearntTable, Grants;
    var fd := s.queue[0].fd;
    LearnTable(s.conns, fd, reply);
    var k := FindConn(s.conns, fd);
    forall c | k < |s.conns| && c in s.conns[k].clients ensures c in Table(s.conns) {
      OwnedIsInTable(s.conns, k, c);
    }
    OwnedAfterReply(Table(s.conns), s.granted, ClientsOf(s.conns, fd), reply);
  }

  predicate FairRun(s: State, es: seq<Event>)
    requires CanRun(s, es)
    decreases |es|
  {
    es == [] || (Fair(s, es[0]) && FairRun(Step(s, es[0]), es[1..]))
  }

  /** Over every benign run with a fair device and clients, ownership is kept. */
  lemma {:induction false} OwnedAlways(s: State, es: seq<Event>)
    requires Serial(s) && Own(s) && CanRun(s, es) && BenignRun(s, es) && FairRun(s, es)
    ensures Serial(Run(s, es)) && Own(Run(s, es))
    decreases |es|
  {
    hide Own, Fair, Serial, Enabled, Benign, Step;
    if es != [] {
      SerialStep(s, es[0]);
      OwnStep(s, es[0]);
      OwnedAlways(Step(s, es[0]), es[1..]);
    }
  }

  lemma InitialIsOwned(s: State)
    requires Initial(s)
    ensures Own(s)
  {
  }

  /** From the start of the proxy: the tables of different connections are disjoint, and every id in a
      table is allocated. */
  lemma OwnedFromTheStart(s: State, es: seq<Event>)
    requires Initial(s) && CanRun(s, es) && BenignRun(s, es) && FairRun(s, es)
    ensures var s' := Run(s, es);
            && (forall i, j, c :: 0 <= i < j < |s'.conns| && c in s'.conns[i].clients ==> c !in s'.conns[j].clients)
            && (forall i, c :: 0 <= i < |s'.conns| && c in s'.conns[i].clients ==> c in s'.granted)
  {
    InitialIsSerial(s);
    InitialIsOwned(s);
    OwnedAlways(s, es);
    var s' := Run(s, es);
    forall i, j, c | 0 <= i < j < |s'.conns| && c in s'.conns[i].clients ensures c !in s'.conns[j].clients {
      TablesDisjoint(s', i, j, c);
    }
    forall i, c | 0 <= i < |s'.conns| && c in s'.conns[i].clients ensures c in s'.granted {
      OwnedIsInTable(s'.conns, i, c);
    }
  }

  lemma {:induction false} TableCounts(conns: seq<Conn>, i: nat, j: nat, c: Client)
    requires i < |conns| && j < |conns|
    ensures Table(conns)[c] >= multiset(conns[i].clients)[c]
    ensures i != j ==> Table(conns)[c] >= multiset(conns[i].clients)[c] + multiset(conns[j].clients)[c]
  {
    if i > 0 && j > 0 {
      TableCounts(conns[1..], i - 1, j - 1, c);
    } else if i > 0 {
      TableCounts(conns[1..], i - 1, i - 1, c);
    } else if j > 0 {
      TableCounts(conns[1..], j - 1, j - 1, c);
    }
  }

  /** The tables of different connections are disjoint. */
  lemma TablesDisjoint(s: State, i: nat, j: nat, c: Client)
    requires Own(s) && i < j < |s.conns|
    ensures !(c in s.conns[i].clients && c in s.conns[j].clients)
  {
    TableCounts(s.conns, i, j, c);
    assert c in s.conns[i].clients ==> c in multiset(s.conns[i].clients);
    assert c in s.conns[j].clients ==> c in multiset(s.conns[j].clients);
  }

  // ----- routing of service messages

  lemma {:induction false} RouteToOne(clients: seq<Client>, fd: nat, svc: byte, id: byte)
    requires id != 0
    ensures |RouteTo(clients, fd, svc, id)| == multiset(clients)[Client(svc, id)]
    ensures forall x :: x in RouteTo(clients, fd, svc, id) ==> x == fd
  {
    if clients != [] {
      assert clients == [clients[0]] + clients[1..];
      RouteToOne(clients[1..], fd, svc, id);
    }
  }

  // A message with a client id goes out once for each entry of that id in the tables.
  lemma {:induction false} RouteCounts(conns: seq<Conn>, svc: byte, id: byte)
    requires id != 0
    ensures |Route(conns, svc, id)| == Table(conns)[Client(svc, id)]
    ensures forall i :: 0 <= i < |conns| && Client(svc, id) in conns[i].clients ==> conns[i].fd in Route(conns, svc, id)
  {
    if conns != [] {
      RouteToOne(conns[0].clients, conns[0].fd, svc, id);
      RouteCounts(conns[1..], svc, id);
      assert conns == [conns[0]] + conns[1..];
      TableCons(conns[0], conns[1..]);
      hide Table, RouteTo;
      var here := RouteTo(conns[0].clients, conns[0].fd, svc, id);
      if Client(svc, id) in conns[0].clients {
        assert |here| > 0 && here[0] in here;
        assert Route(conns, svc, id)[0] == conns[0].fd;
      }
      forall i | 0 <= i < |conns| && Client(svc, id) in conns[i].clients
        ensures conns[i].fd in Route(conns, svc, id)
      {
        if i > 0 {
          assert conns[1..][i - 1] == conns[i];
        }
      }
    }
  }

  /** A service message with a client id reaches exactly the owner of that id, once. */
  lemma RoutedToOwner(s: State, svc: byte, id: byte, i: nat)
    requires Own(s) && id != 0 && i < |s.conns| && Client(svc, id) in s.conns[i].clients
    ensures Route(s.conns, svc, id) == [s.conns[i].fd]
  {
    RouteCounts(s.conns, svc, id);
  }

  /** A service message with a client id that nobody owns reaches nobody. */
  lemma UnownedGoesNowhere(s: State, svc: byte, id: byte)
    requires id != 0 && Client(svc, id) !in Table(s.conns)
    ensures Route(s.conns, svc, id) == []
  {
    RouteCounts(s.conns, svc, id);
  }

  function ClientsOfService(clients: seq<Client>, svc: byte): nat {
    if clients == [] then 0 else (if clients[0].svc == svc then 1 else 0) + ClientsOfService(clients[1..], svc)
  }

  lemma {:induction false} BroadcastTo(clients: seq<Client>, fd: nat, svc: byte)
    ensures multiset(RouteTo(clients, fd, svc, 0)) == multiset{}[fd := ClientsOfService(clients, svc)]
  {
    if clients != [] {
      BroadcastTo(clients[1..], fd, svc);
    }
  }

  lemma {:induction false} BroadcastMisses(conns: seq<Conn>, fd: nat, svc: byte)
    requires fd !in Fds(conns)
    ensures fd !in multiset(Route(conns, svc, 0))
  {
    if conns != [] {
      FdsTail(conns);
      BroadcastTo(conns[0].clients, conns[0].fd, svc);
      BroadcastMisses(conns[1..], fd, svc);
    }
  }

  /** A service message with id 0 goes to each connection once per client it has of that service. */
  lemma {:induction false} Broadcast(conns: seq<Conn>, i: nat, svc: byte)
    requires NoDup(Fds(conns)) && i < |conns| && conns[i].fd != DEAD
    ensures multiset(Route(conns, svc, 0))[conns[i].fd] == ClientsOfService(conns[i].clients, svc)
  {
    FdsTail(conns);
    BroadcastTo(conns[0].clients, conns[0].fd, svc);
    if i == 0 {
      BroadcastMisses(conns[1..], conns[0].fd, svc);
    } else {
      assert conns[i].fd == Fds(conns[1..])[i - 1];
      Broadcast(conns[1..], i - 1, svc);
    }
  }

  /** Why a release must be fair when it is answered, not only when it was asked for: a second
      release of an id that has meanwhile gone to another connection leaves that connection
      with an id that the device counts as free and may grant again. */
  lemma UnfairRelease(s: State, c: Client)
    requires Serial(s) && Own(s) && Enabled(s, DeviceResponse(Released(c))) && !Fair(s, DeviceResponse(Released(c)))
    ensures var s' := Step(s, DeviceResponse(Released(c))); c in Table(s'.conns) && c !in s'.granted
  {
    assert s.queue != [] && s.queue[0] in s.queue;
    LearnTable(s.conns, s.queue[0].fd, Released(c));
  }

  // Connection 7 waits for an answer; connection 8 owns c.
  function OneOwner(c: Client): State {
    State([Conn(7, []), Conn(8, [c])], [Req(7, 0)], [Req(7, 0)], {c}, [Req(7, 0)], [], [], [])
  }

  lemma ForeignRelease(c: Client)
    ensures var s, es := OneOwner(c), [DeviceResponse(Released(c)), ClientRequest(7)];
            && CanRun(s, es)
            && Run(s, es) == State(s.conns, [Req(7, 1)], [Req(7, 1)], {}, [Req(7, 0), Req(7, 1)], [Req(7, 0)], [[7]], [])
  {
    var s, es := OneOwner(c), [DeviceResponse(Released(c)), ClientRequest(7)];
    TwoConns(s.conns[0], s.conns[1], Released(c));
    hide LearnAt, Hits, Fds;
    var s1 := State(s.conns, [], [], {}, [Req(7, 0)], [Req(7, 0)], [[7]], []);
    assert Step(s, es[0]) == s1;
    var s2 := Step(s1, es[1]);
    assert es[1..] == [es[1]] && [es[1]][1..] == [];
    assert CanRun(s2, []) && Run(s2, []) == s2;
    assert CanRun(s1, [es[1]]) && Run(s1, [es[1]]) == s2;
  }

  lemma OneOwnerIsFine(c: Client)
    ensures Serial(OneOwner(c)) && Own(OneOwner(c))
  {
    var conns := OneOwner(c).conns;
    TwoConns(conns[0], conns[1], Other);
    TableOfTwo(conns[0], conns[1]);
    hide Fds, Table;
  }

  /** And what comes of it, with a device that grants only free ids: connection 7 gets an id released
      that is connection 8's, asks for an id, and gets the same one. Both tables hold it then. */
  lemma TwoOwners(c: Client)
    ensures var s, es := OneOwner(c), [DeviceResponse(Released(c)), ClientRequest(7)];
            && Serial(s) && Own(s) && CanRun(s, es)
            && var s' := Run(s, es);
               && Enabled(s', DeviceResponse(Granted(c))) && c !in s'.granted
               && var s'' := Step(s', DeviceResponse(Granted(c)));
                  s''.conns == [Conn(7, [c]), Conn(8, [c])] && !Own(s'')
  {
    OneOwnerIsFine(c);
    ForeignRelease(c);
    hide Serial, LearnAt, Hits, Table, SentHead, Run, CanRun;
    var conns, after := OneOwner(c).conns, [Conn(7, [c]), Conn(8, [c])];
    TwoConns(conns[0], conns[1], Granted(c));
    assert Learn([], Granted(c)) == [c];
    TableOfTwo(after[0], after[1]);
    assert Table(after)[c] == 2;
  }

  lemma TableOfTwo(a: Conn, b: Conn)
    ensures Table([a, b]) == multiset(a.clients) + multiset(b.clients)
  {
    assert [a, b][1..] == [b] && [b][1..] == [];
    assert Table([b]) == multiset(b.clients) + Table([]);
  }
}
