/**
 The proxy as it runs: lists that its callbacks update, with a loop wherever the source walks a
 list. Every callback is one step of the transition system.
 */
module QmiProxyServer {
  import opened Bytes
  import opened QmiProxy

  class Server {
    var conns: seq<Conn>
    var queue: seq<Req>
    var received: nat                    // number of control requests so far
    // The device, and what has happened so far.
    ghost var outstanding: seq<Req>
    ghost var granted: set<Client>
    ghost var issued: seq<Req>
    ghost var served: seq<Req>
    var replies: seq<seq<nat>>
    var routed: seq<seq<nat>>

    ghost function Abs(): State
      reads this
    {
      State(conns, queue, outstanding, granted, issued, served, replies, routed)
    }

    constructor ()
      ensures Initial(Abs()) && received == 0
    {
      conns, queue, received, replies, routed := [], [], 0, [], [];
      outstanding, granted, issued, served := [], {}, [], [];
    }

    // send_qmi_to_cdc_wdm.
    method SendToDevice(r: Req)
      modifies this`outstanding
      ensures outstanding == old(outstanding) + [r]
    {
      outstanding := outstanding + [r];
    }

    /** accept_qmi_connection: the descriptor, or the -1 of a failed accept, is kept in a byte. */
    method AcceptConnection(clientFd: int)
      requires clientFd == -1 || (0 <= clientFd < DEAD && clientFd !in Fds(conns))
      modifies this
      ensures Abs() == Step(old(Abs()), Accept(if clientFd == -1 then DEAD else clientFd))
      ensures received == old(received)
    {
      conns := conns + [Conn(clientFd % 256, [])];
    }

    /** send_qmi, for a control request */
    method SendControl(fd: nat)
      requires Enabled(Abs(), ClientRequest(fd)) && received == |issued|
      modifies this
      ensures Abs() == Step(old(Abs()), ClientRequest(fd)) && received == |issued|
    {
      var r := Req(fd, received);
      if queue == [] {
        SendToDevice(r);
      }
      queue := queue + [r];
      received, issued := received + 1, issued + [r];
    }

    // The head of the queue goes to the device, if its connection is still there.
    method SendHead()
      modifies this`outstanding
      ensures outstanding == old(outstanding) + SentHead(conns, queue)
    {
      if queue != [] {
        var r := queue[0];
        for i := 0 to |conns|
          invariant outstanding + Repeat(r, |Hits(conns[i..], r.fd)|) == old(outstanding) + SentHead(conns, queue)
        {
          assert conns[i..][1..] == conns[i + 1..];
          if conns[i].fd == r.fd {
            SendToDevice(r);
          }
        }
      }
    }

    // get_client_id and release_client_id.
    method UpdateClients(clients: seq<Client>, reply: Reply) returns (updated: seq<Client>)
      ensures updated == Learn(clients, reply)
    {
      match reply
      case Granted(c) => updated := clients + [c];
      case Released(c) =>
        for i := 0 to |clients|
          invariant RemoveFirst(clients, c) == clients[..i] + RemoveFirst(clients[i..], c)
        {
          assert clients[i..][1..] == clients[i + 1..] && clients[..i + 1] == clients[..i] + [clients[i]];
          Assoc(clients[..i], [clients[i]], RemoveFirst(clients[i + 1..], c));
          if clients[i] == c {
            return clients[..i] + clients[i + 1..];
          }
        }
        updated := clients;
      case Other => updated := clients;
    }

    // The loop that forwards a response: the connections of this descriptor get it and learn from it.
    method Forward(all: seq<Conn>, fd: nat, reply: Reply) returns (updated: seq<Conn>, hits: seq<nat>)
      ensures updated == LearnAt(all, fd, reply) && hits == Hits(all, fd)
    {
      updated, hits := [], [];
      for i := 0 to |all|
        invariant updated + LearnAt(all[i..], fd, reply) == LearnAt(all, fd, reply)
        invariant hits + Hits(all[i..], fd) == Hits(all, fd)
      {
        hide Learn;
        assert all[i..][1..] == all[i + 1..];
        var con := all[i];
        if con.fd == fd {
          Assoc(hits, [con.fd], Hits(all[i + 1..], fd));
          hits := hits + [con.fd];
          var clients := UpdateClients(con.clients, reply);
          con := con.(clients := clients);
        }
        Assoc(updated, [con], LearnAt(all[i + 1..], fd, reply));
        updated := updated + [con];
      }
      assert all[|all|..] == [] && hits + [] == hits;
    }

    // A response belongs to the queue head.
    method ForwardResponse(reply: Reply)
      requires queue != []
      modifies this
      ensures conns == LearnAt(old(conns), old(queue)[0].fd, reply) && queue == old(queue)[1..]
      ensures served == old(served) + [old(queue)[0]] && replies == old(replies) + [Hits(old(conns), old(queue)[0].fd)]
      ensures outstanding == old(outstanding) && granted == old(granted) && issued == old(issued)
      ensures routed == old(routed) && received == old(received)
    {
      var head := queue[0];
      var updated, hits := Forward(conns, head.fd, reply);
      conns, queue := updated, queue[1..];
      served, replies := served + [head], replies + [hits];
    }

    /** recv_qmi, for a control message: a response, or anything else */
    method RecvControl(isResponse: bool, reply: Reply)
      requires isResponse ==> Enabled(Abs(), DeviceResponse(reply))
      modifies this
      ensures Abs() == Step(old(Abs()), if isResponse then DeviceResponse(reply) else DeviceIndication)
      ensures received == old(received)
    {
      if isResponse {
        outstanding, granted := outstanding[1..], Grants(granted, reply);  // at the device
        if queue != [] {
          ForwardResponse(reply);
        }
      }
      SendHead();
    }

    // The inner loop of the routing.
    method RouteToClients(clients: seq<Client>, fd: nat, svc: byte, id: byte, out: seq<nat>) returns (out': seq<nat>)
      ensures out' == out + RouteTo(clients, fd, svc, id)
    {
      out' := out;
      for j := 0 to |clients|
        invariant out' + RouteTo(clients[j..], fd, svc, id) == out + RouteTo(clients, fd, svc, id)
      {
        assert clients[j..][1..] == clients[j + 1..];
        if Matches(svc, id, clients[j]) {
          Assoc(out', [fd], RouteTo(clients[j + 1..], fd, svc, id));
          out' := out' + [fd];
        }
      }
      assert out' + RouteTo([], fd, svc, id) == out';
    }

    // The outer loop of the routing.
    method RouteToAll(all: seq<Conn>, svc: byte, id: byte) returns (out: seq<nat>)
      ensures out == Route(all, svc, id)
    {
      hide RouteTo;
      out := [];
      for i := 0 to |all|
        invariant out + Route(all[i..], svc, id) == Route(all, svc, id)
      {
        assert all[i..][1..] == all[i + 1..];
        Assoc(out, RouteTo(all[i].clients, all[i].fd, svc, id), Route(all[i + 1..], svc, id));
        out := RouteToClients(all[i].clients, all[i].fd, svc, id, out);
      }
      assert all[|all|..] == [] && out + [] == out;
    }

    /** recv_qmi, for a service message: every matching entry of every connection gets it */
    method RecvService(svc: byte, id: byte)
      modifies this
      ensures Abs() == Step(old(Abs()), DeviceService(svc, id)) && received == old(received)
    {
      var out := RouteToAll(conns, svc, id);
      routed := routed + [out];
    }

    /** cleanup_qmi_connection */
    method CleanupConnection(fd: nat)
      requires Enabled(Abs(), Cleanup(fd))
      modifies this
      ensures Abs() == Step(old(Abs()), Cleanup(fd)) && received == old(received)
    {
      var i := 0;
      while i < |conns| && conns[i].fd != fd
        invariant i <= |conns| && forall k :: 0 <= k < i ==> conns[k].fd != fd
      {
        i := i + 1;
      }
      assert i == FindConn(conns, fd);
      if i < |conns| {
        var j := 0;
        while j < |queue| && queue[j].fd != fd
          invariant j <= |queue| && forall k :: 0 <= k < j ==> queue[k].fd != fd
        {
          j := j + 1;
        }
        assert j == FindReq(queue, fd);
        if j < |queue| {
          queue := queue[..j] + queue[j + 1..];
        }
        conns := conns[..i] + conns[i + 1..];
      }
    }
  }
}
