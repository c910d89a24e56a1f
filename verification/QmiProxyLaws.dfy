/**
 Which connection a step of the QMI proxy touches, place by place, and that a granted client id
 belongs to the connection that asked for it until it is released or the connection goes.
 */
module QmiProxyLaws {
  import opened Bytes
  import opened QmiProxy
  import opened QmiProxyOwnership

  /** What a client table is after a control response to its connection. */
  predicate Learnt(clients: seq<Client>, reply: Reply, clients': seq<Client>) {
    match reply
    case Granted(c) => clients' == clients + [c]
    case Released(c) =>
      if c in clients
      then exists k :: 0 <= k < |clients| && clients[k] == c && c !in clients[..k]
                       && clients' == clients[..k] + clients[k + 1..]
      else clients' == clients
    case Other => clients' == clients
  }

  lemma {:induction false} FirstIsRemoved(clients: seq<Client>, c: Client, k: nat)
    requires k < |clients| && clients[k] == c && c !in clients[..k]
    ensures RemoveFirst(clients, c) == clients[..k] + clients[k + 1..]
  {
    if k > 0 {
      assert clients[0] == clients[..k][0];
      assert clients[1..][..k - 1] == clients[..k][1..];
      FirstIsRemoved(clients[1..], c, k - 1);
      assert clients[..k] == [clients[0]] + clients[1..][..k - 1];
    }
  }

  lemma FirstOf(clients: seq<Client>, c: Client) returns (k: nat)
    requires c in clients
    ensures k < |clients| && clients[k] == c && c !in clients[..k]
  {
    k := 0;
    while clients[k] != c
      invariant k < |clients| && c !in clients[..k] && c in clients[k..]
      decreases |clients| - k
    {
      assert clients[..k + 1] == clients[..k] + [clients[k]];
      assert clients[k..] == [clients[k]] + clients[k + 1..];
      k := k + 1;
    }
  }

  lemma {:induction false} NothingRemoved(clients: seq<Client>, c: Client)
    requires c !in clients
    ensures RemoveFirst(clients, c) == clients
  {
    if clients != [] {
      NothingRemoved(clients[1..], c);
    }
  }

  lemma LearnIsLearnt(clients: seq<Client>, reply: Reply)
    ensures Learnt(clients, reply, Learn(clients, reply))
  {
    if reply.Released? {
      if reply.client in clients {
        var k := FirstOf(clients, reply.client);
        FirstIsRemoved(clients, reply.client, k);
      } else {
        NothingRemoved(clients, reply.client);
      }
    }
  }

  lemma {:induction false} LearnPlaces(conns: seq<Conn>, fd: nat, reply: Reply)
    ensures var conns' := LearnAt(conns, fd, reply);
            && |conns'| == |conns|
            && forall j :: 0 <= j < |conns| ==>
                 if conns[j].fd == fd then conns'[j].fd == fd && Learnt(conns[j].clients, reply, conns'[j].clients)
                 else conns'[j] == conns[j]
  {
    hide Learnt, Learn;
    if conns != [] {
      LearnPlaces(conns[1..], fd, reply);
      LearnIsLearnt(conns[0].clients, reply);
      var conns' := LearnAt(conns, fd, reply);
      assert conns'[1..] == LearnAt(conns[1..], fd, reply);
      forall j | 0 <= j < |conns|
        ensures if conns[j].fd == fd then conns'[j].fd == fd && Learnt(conns[j].clients, reply, conns'[j].clients)
                else conns'[j] == conns[j]
      {
        if j > 0 {
          assert conns[1..][j - 1] == conns[j] && conns'[1..][j - 1] == conns'[j];
        }
      }
    }
  }

  /** A control response while requests are serialised: the one connection whose request is at the head
      of the queue gets it, gets the id it grants or loses the id it releases, once, and no other
      connection changes. The request is done with, and the next one goes to the device. */
  lemma ResponseGoesToAsker(s: State, reply: Reply, i: nat)
    requires Serial(s) && s.outstanding != [] && i < |s.conns| && s.conns[i].fd == s.queue[0].fd
    ensures Enabled(s, DeviceResponse(reply))
    ensures var s' := Step(s, DeviceResponse(reply));
            && |s'.conns| == |s.conns|
            && s'.conns[i].fd == s.conns[i].fd && Learnt(s.conns[i].clients, reply, s'.conns[i].clients)
            && (forall j :: 0 <= j < |s.conns| && j != i ==> s'.conns[j] == s.conns[j])
            && s'.queue == s.queue[1..] && s'.replies == s.replies + [[s.conns[i].fd]]
            && s'.outstanding == (if |s.queue| > 1 then [s.queue[1]] else [])
            && s'.granted == match reply
                             case Granted(c) => s.granted + {c}
                             case Released(c) => s.granted - {c}
                             case Other => s.granted
  {
    SerialAfterResponse(s, reply);
    LearnPlaces(s.conns, s.queue[0].fd, reply);
    assert s.queue[0] in s.queue;
    OnlyPlace(s.conns, i);
    hide Learnt, LearnAt, Hits, Fds, NoDup;
  }

  lemma OnlyPlace(conns: seq<Conn>, i: nat)
    requires NoDup(Fds(conns)) && i < |conns| && conns[i].fd != DEAD
    ensures forall j :: 0 <= j < |conns| && j != i ==> conns[j].fd != conns[i].fd
  {
    var fds := Fds(conns);
    assert forall j :: 0 <= j < |conns| ==> fds[j] == conns[j].fd;
  }

  /** The connection of the request at the head of the queue is there. */
  lemma AskerIsThere(s: State) returns (i: nat)
    requires Serial(s) && s.outstanding != []
    ensures i < |s.conns| && s.conns[i].fd == s.queue[0].fd && s.queue[0].fd != DEAD
  {
    assert s.queue[0] in s.queue;
    i :| 0 <= i < |s.conns| && Fds(s.conns)[i] == s.queue[0].fd;
  }

  /** The other steps: a new connection comes last with an empty table; a request goes last into the
      queue, and to the device if the queue was empty; a cleanup takes out the first connection with
      the descriptor and the first request of it. */
  lemma OtherSteps(s: State, fd: nat, i: nat, k: nat)
    requires i < |s.conns| && s.conns[i].fd == fd && forall j :: 0 <= j < i ==> s.conns[j].fd != fd
    requires k <= |s.queue| && (forall j :: 0 <= j < k ==> s.queue[j].fd != fd)
    requires k < |s.queue| ==> s.queue[k].fd == fd
    ensures fd == DEAD ==> Step(s, Accept(fd)) == s.(conns := s.conns + [Conn(fd, [])])
    ensures fd != DEAD && Enabled(s, ClientRequest(fd)) ==>
              var r := Req(fd, |s.issued|);
              Step(s, ClientRequest(fd))
              == s.(queue := s.queue + [r], issued := s.issued + [r],
                    outstanding := s.outstanding + if s.queue == [] then [r] else [])
    ensures Enabled(s, Cleanup(fd))
    ensures Step(s, Cleanup(fd))
            == s.(conns := s.conns[..i] + s.conns[i + 1..],
                  queue := if k < |s.queue| then s.queue[..k] + s.queue[k + 1..] else s.queue)
  {
    assert Fds(s.conns)[i] == fd;
  }

  lemma NewConnection(s: State, fd: nat)
    requires forall j :: 0 <= j < |s.conns| ==> s.conns[j].fd != fd
    ensures Enabled(s, Accept(fd)) && Step(s, Accept(fd)) == s.(conns := s.conns + [Conn(fd, [])])
  {
  }

  /** Any other control message sends the head of the queue again; a response that nobody waits for
      only tells what the device now counts as allocated. */
  lemma OtherMessages(s: State, reply: Reply)
    requires NoDup(Fds(s.conns)) && Live(s.conns, s.queue)
    ensures Step(s, DeviceIndication)
            == s.(outstanding := s.outstanding + if s.queue == [] then [] else [s.queue[0]])
    ensures s.queue == [] && s.outstanding != [] ==>
              Step(s, DeviceResponse(reply))
              == s.(outstanding := s.outstanding[1..],
                    granted := match reply
                               case Granted(c) => s.granted + {c}
                               case Released(c) => s.granted - {c}
                               case Other => s.granted)
  {
    if s.queue != [] {
      assert s.queue[0] in s.queue;
      HitsOnce(s.conns, s.queue[0].fd);
      assert Repeat(s.queue[0], 1) == [s.queue[0]] + Repeat(s.queue[0], 0);
    } else {
      assert s.outstanding + [] == s.outstanding;
    }
  }

  lemma {:induction false} HitsExactly(conns: seq<Conn>, fd: nat)
    ensures |Hits(conns, fd)| == multiset(Fds(conns))[fd]
    ensures forall x :: x in Hits(conns, fd) ==> x == fd
  {
    if conns != [] {
      FdsTail(conns);
      HitsExactly(conns[1..], fd);
      hide Fds;
    } else {
      assert Fds(conns) == [];
    }
  }

  /** A response when requests are not serialised is still taken as the answer to the head of the queue:
      it goes once to each connection with that descriptor, to nobody if there is none, and the head is
      done with. The next request goes to the device once for each connection with its descriptor. */
  lemma AnyResponse(s: State, reply: Reply)
    requires s.queue != [] && s.outstanding != []
    ensures var s', fd := Step(s, DeviceResponse(reply)), s.queue[0].fd;
            && s'.served == s.served + [s.queue[0]] && s'.queue == s.queue[1..]
            && |s'.replies| == |s.replies| + 1 && s'.replies[..|s.replies|] == s.replies
            && |s'.replies[|s.replies|]| == multiset(Fds(s.conns))[fd]
            && (forall x :: x in s'.replies[|s.replies|] ==> x == fd)
            && |s'.outstanding| >= |s.outstanding| - 1 && s'.outstanding[..|s.outstanding| - 1] == s.outstanding[1..]
            && |s'.outstanding| == |s.outstanding| - 1
                 + (if |s.queue| == 1 then 0 else multiset(Fds(s.conns))[s.queue[1].fd])
            && (|s.queue| > 1 ==>
                  forall i :: |s.outstanding| - 1 <= i < |s'.outstanding| ==> s'.outstanding[i] == s.queue[1])
  {
    hide LearnAt, Hits, Repeat, Fds, Grants;
    var fd := s.queue[0].fd;
    HitsExactly(s.conns, fd);
    if |s.queue| > 1 {
      HitsAfterLearning(s.conns, fd, reply, s.queue[1].fd);
      HitsExactly(s.conns, s.queue[1].fd);
      Repeated(s.queue[1], |Hits(s.conns, s.queue[1].fd)|);
    }
  }

  lemma {:induction false} Repeated(r: Req, n: nat)
    ensures |Repeat(r, n)| == n && forall i :: 0 <= i < n ==> Repeat(r, n)[i] == r
  {
    if n > 0 {
      Repeated(r, n - 1);
    }
  }

  lemma {:induction false} HitsAfterLearning(conns: seq<Conn>, fd: nat, reply: Reply, at: nat)
    ensures Hits(LearnAt(conns, fd, reply), at) == Hits(conns, at)
  {
    if conns != [] {
      HitsAfterLearning(conns[1..], fd, reply, at);
    }
  }

  // ----- over runs

  /** The connection with this descriptor has the id in its table. */
  predicate Has(conns: seq<Conn>, fd: nat, c: Client) {
    exists i :: 0 <= i < |conns| && conns[i].fd == fd && c in conns[i].clients
  }

  lemma GrantedToAsker(s: State, c: Client)
    requires Serial(s) && s.outstanding != []
    ensures Has(Step(s, DeviceResponse(Granted(c))).conns, s.queue[0].fd, c)
  {
    var i := AskerIsThere(s);
    ResponseGoesToAsker(s, Granted(c), i);
    hide Step;
    var s' := Step(s, DeviceResponse(Granted(c)));
    assert c in s'.conns[i].clients;
  }

  lemma HasAfterLearning(conns: seq<Conn>, at: nat, reply: Reply, fd: nat, c: Client)
    requires Has(conns, fd, c) && reply != Released(c)
    ensures Has(LearnAt(conns, at, reply), fd, c)
  {
    LearnPlaces(conns, at, reply);
    var i :| 0 <= i < |conns| && conns[i].fd == fd && c in conns[i].clients;
    var conns' := LearnAt(conns, at, reply);
    if conns[i].fd == at {
      StillLearnt(conns[i].clients, reply, conns'[i].clients, c);
    }
    assert conns'[i].fd == fd && c in conns'[i].clients;
  }

  lemma StillLearnt(clients: seq<Client>, reply: Reply, clients': seq<Client>, c: Client)
    requires Learnt(clients, reply, clients') && c in clients && reply != Released(c)
    ensures c in clients'
  {
    if reply.Released? && reply.client in clients {
      var k :| 0 <= k < |clients| && clients[k] == reply.client && clients' == clients[..k] + clients[k + 1..];
      var j :| 0 <= j < |clients| && clients[j] == c;
      assert clients'[if j < k then j else j - 1] == c;
    }
  }

  lemma HasStep(s: State, e: Event, fd: nat, c: Client)
    requires Has(s.conns, fd, c) && Enabled(s, e) && e != DeviceResponse(Released(c)) && e != Cleanup(fd)
    ensures Has(Step(s, e).conns, fd, c)
  {
    hide LearnAt, Hits, SentHead, Route, Grants;
    var i :| 0 <= i < |s.conns| && s.conns[i].fd == fd && c in s.conns[i].clients;
    match e
    case Accept(newFd) => assert (s.conns + [Conn(newFd, [])])[i] == s.conns[i];
    case DeviceResponse(reply) =>
      if s.queue != [] {
        HasAfterLearning(s.conns, s.queue[0].fd, reply, fd, c);
      }
    case Cleanup(gone) =>
      var k := FindConn(s.conns, gone);
      assert Without(s.conns, k)[if i < k then i else i - 1] == s.conns[i];
    case _ =>
  }

  lemma {:induction false} HasAlways(s: State, es: seq<Event>, fd: nat, c: Client)
    requires Has(s.conns, fd, c) && CanRun(s, es) && DeviceResponse(Released(c)) !in es && Cleanup(fd) !in es
    ensures Has(Run(s, es).conns, fd, c)
    decreases |es|
  {
    hide Has, Step, Enabled;
    if es != [] {
      HasStep(s, es[0], fd, c);
      HasAlways(Step(s, es[0]), es[1..], fd, c);
    }
  }

  /** A client id belongs to the connection that asked for it: over any fair benign run that begins
      with the grant, in which the id is not released and the connection not cleaned up, a service
      message for the id goes to that connection, to no other, and once. */
  lemma GrantIsRouted(s: State, es: seq<Event>, c: Client)
    requires Serial(s) && Own(s) && s.queue != [] && c.id != 0
    requires CanRun(s, es) && BenignRun(s, es) && FairRun(s, es)
    requires es != [] && es[0] == DeviceResponse(Granted(c))
    requires DeviceResponse(Released(c)) !in es && Cleanup(s.queue[0].fd) !in es
    ensures Step(Run(s, es), DeviceService(c.svc, c.id)).routed == Run(s, es).routed + [[s.queue[0].fd]]
  {
    var fd, s1 := s.queue[0].fd, Step(s, es[0]);
    GrantedToAsker(s, c);
    OwnedAlways(s, es);
    hide Step, Enabled, Serial, Own, Fair, Benign, FairRun, BenignRun, Route, Has;
    HasAlways(s1, es[1..], fd, c);
    RoutedToHolder(Run(s, es), fd, c);
  }

  lemma RoutedToHolder(s: State, fd: nat, c: Client)
    requires Own(s) && Has(s.conns, fd, c) && c.id != 0
    ensures Step(s, DeviceService(c.svc, c.id)).routed == s.routed + [[fd]]
  {
    hide Own, Route;
    var i :| 0 <= i < |s.conns| && s.conns[i].fd == fd && c in s.conns[i].clients;
    RoutedToOwner(s, c.svc, c.id, i);
  }
}
