/**
 The record whitelist of the oaf module (fwx_client.c) and the flag each client keeps about it: the
 operations as interleaved steps under the two locks, and what holds over every run.
 */
module RecordWhitelist {
  import opened MacTable

  /** The operations. A request is an address that parses, and whether its node is allocated. */
  datatype Op =
    | Set(requests: seq<(Mac, bool)>)
    | Add(requests: seq<(Mac, bool)>)
    | Delete(mac: Mac)
    | Flush

  /** The addresses of a list that get a node, once each. */
  function Chosen(requests: seq<(Mac, bool)>): set<Mac> {
    set r | r in requests && r.1 :: r.0
  }

  function Updated(list: multiset<Mac>, op: Op): multiset<Mac> {
    match op
    case Set(requests) => multiset(Chosen(requests))
    case Add(requests) => list + Granted(requests)
    case Delete(mac) => list - multiset{mac}
    case Flush => multiset{}
  }

  /** A deletion that finds nothing returns without a sync. */
  predicate Syncs(list: multiset<Mac>, op: Op) { op.Delete? ==> op.mac in list }

  datatype Entry = Entry(mac: Mac, flag: bool)

  /** Who holds the client lock: nobody, a sync that has come to a place of the client list, or a
      thread that has read the flag of a client it is about to insert. */
  datatype Holder = Free | Syncing(at: nat) | Inserting(e: Entry)

  /** The whitelist, the clients, the client lock, how many operations have changed the list and not
      begun their sync, and (as history) whether the list changed since the last sync began. */
  datatype State = State(list: multiset<Mac>, clients: seq<Entry>, lock: Holder, pending: nat, stale: bool)

  datatype Event =
    | Update(op: Op)             // under the whitelist lock alone
    | BeginSync
    | Visit
    | EndSync
    | BeginInsert(mac: Mac)      // nf_client_add reads the whitelist
    | EndInsert(at: nat)         // and puts the client at the head of its bucket
    | Expire(at: nat)            // check_client_expire

  predicate Absent(clients: seq<Entry>, mac: Mac) { forall i :: 0 <= i < |clients| ==> clients[i].mac != mac }

  predicate Enabled(s: State, e: Event) {
    match e
    case Update(_) => true
    case BeginSync => s.lock == Free && s.pending > 0
    case Visit => s.lock.Syncing? && s.lock.at < |s.clients|
    case EndSync => s.lock.Syncing? && s.lock.at == |s.clients|
    case BeginInsert(mac) => s.lock == Free && Absent(s.clients, mac)
    case EndInsert(at) => s.lock.Inserting? && at <= |s.clients|
    case Expire(at) => s.lock == Free && at < |s.clients|
  }

  function Step(s: State, e: Event): State
    requires Enabled(s, e)
  {
    match e
    case Update(op) =>
      if Syncs(s.list, op) then s.(list := Updated(s.list, op), pending := s.pending + 1, stale := true) else s
    case BeginSync => s.(lock := Syncing(0), pending := s.pending - 1, stale := false)
    case Visit =>
      var c := s.clients[s.lock.at];
      s.(clients := s.clients[s.lock.at := Entry(c.mac, c.mac in s.list)], lock := Syncing(s.lock.at + 1))
    case EndSync => s.(lock := Free)
    case BeginInsert(mac) => s.(lock := Inserting(Entry(mac, mac in s.list)))
    case EndInsert(at) => s.(clients := s.clients[..at] + [s.lock.e] + s.clients[at..], lock := Free)
    case Expire(at) => s.(clients := s.clients[..at] + s.clients[at + 1..])
  }

  predicate Right(list: multiset<Mac>, e: Entry) { e.flag == (e.mac in list) }

  // The flags of the first n clients.
  predicate AllRight(list: multiset<Mac>, clients: seq<Entry>, n: nat) {
    n <= |clients| && forall i :: 0 <= i < n ==> Right(list, clients[i])
  }

  predicate DistinctMacs(clients: seq<Entry>) {
    forall i, j :: 0 <= i < j < |clients| ==> clients[i].mac != clients[j].mac
  }

  /** How many clients the running sync has visited; all, when none runs. */
  function Visited(s: State): nat { if s.lock.Syncing? then s.lock.at else |s.clients| }

  /** Unless the list changed since the last sync began, the flags that sync has visited are right,
      and so is that of a client about to be inserted; and every change has its sync to come. */
  ghost predicate Inv(s: State) {
    && (s.stale ==> s.pending > 0)
    && Visited(s) <= |s.clients|
    && (!s.stale ==> AllRight(s.list, s.clients, Visited(s)))
    && (!s.stale && s.lock.Inserting? ==> Right(s.list, s.lock.e))
    && DistinctMacs(s.clients)
    && (s.lock.Inserting? ==> Absent(s.clients, s.lock.e.mac))
  }

  lemma VisitKeeps(list: multiset<Mac>, clients: seq<Entry>, at: nat)
    requires at < |clients| && DistinctMacs(clients)
    ensures var after := clients[at := Entry(clients[at].mac, clients[at].mac in list)];
            DistinctMacs(after) && (AllRight(list, clients, at) ==> AllRight(list, after, at + 1))
  {
  }

  lemma InsertKeeps(list: multiset<Mac>, clients: seq<Entry>, at: nat, e: Entry)
    requires at <= |clients| && DistinctMacs(clients) && Absent(clients, e.mac)
    ensures var after := clients[..at] + [e] + clients[at..];
            && DistinctMacs(after)
            && (AllRight(list, clients, |clients|) && Right(list, e) ==> AllRight(list, after, |after|))
  {
    var after := clients[..at] + [e] + clients[at..];
    assert forall i :: 0 <= i < |after| ==>
        after[i] == if i < at then clients[i] else if i == at then e else clients[i - 1];
  }

  lemma RemoveKeeps(list: multiset<Mac>, clients: seq<Entry>, at: nat)
    requires at < |clients| && DistinctMacs(clients)
    ensures var after := clients[..at] + clients[at + 1..];
            DistinctMacs(after) && (AllRight(list, clients, |clients|) ==> AllRight(list, after, |after|))
  {
    var after := clients[..at] + clients[at + 1..];
    assert forall i :: 0 <= i < |after| ==> after[i] == clients[if i < at then i else i + 1];
  }

  lemma InvStep(s: State, e: Event)
    requires Inv(s) && Enabled(s, e)
    ensures Inv(Step(s, e))
  {
    assert AllRight(s.list, s.clients, 0);
    hide Updated, Syncs, DistinctMacs, Absent, AllRight;
    match e
    case Visit => VisitKeeps(s.list, s.clients, s.lock.at);
    case EndInsert(at) => InsertKeeps(s.list, s.clients, at, s.lock.e);
    case Expire(at) => RemoveKeeps(s.list, s.clients, at);
    case _ =>
  }

  ghost predicate CanRun(s: State, events: seq<Event>)
    decreases |events|
  {
    events == [] || (Enabled(s, events[0]) && CanRun(Step(s, events[0]), events[1..]))
  }

  function Run(s: State, events: seq<Event>): State
    requires CanRun(s, events)
    decreases |events|
  {
    if events == [] then s else Run(Step(s, events[0]), events[1..])
  }

  lemma {:induction false} InvAlways(s: State, events: seq<Event>)
    requires Inv(s) && CanRun(s, events)
    ensures Inv(Run(s, events))
    decreases |events|
  {
    if events != [] {
      InvStep(s, events[0]);
      InvAlways(Step(s, events[0]), events[1..]);
    }
  }

  const INITIAL := State(multiset{}, [], Free, 0, false)

  /** Over every run from the start: when no operation is between its change and the end of its
      sync, the flag of every client says whether its address is in the whitelist. */
  lemma FlagsAgree(events: seq<Event>)
    requires CanRun(INITIAL, events)
    ensures var s := Run(INITIAL, events);
            s.pending == 0 && !s.lock.Syncing? ==> forall i :: 0 <= i < |s.clients| ==> Right(s.list, s.clients[i])
  {
    InvAlways(INITIAL, events);
  }

  /** One finished sync is enough when the list has not changed since it began, whatever syncs are
      still to come: the flags are right after any steps that are not a change of the list. */
  lemma OneSyncIsEnough(s: State, events: seq<Event>)
    requires Inv(s) && Enabled(s, BeginSync) && CanRun(Step(s, BeginSync), events)
    requires forall e :: e in events ==> !e.Update?
    ensures var t := Run(Step(s, BeginSync), events);
            !t.lock.Syncing? ==> forall i :: 0 <= i < |t.clients| ==> Right(t.list, t.clients[i])
  {
    InvStep(s, BeginSync);
    InvAlways(Step(s, BeginSync), events);
    StaysFresh(Step(s, BeginSync), events);
  }

  lemma {:induction false} StaysFresh(s: State, events: seq<Event>)
    requires !s.stale && CanRun(s, events) && forall e :: e in events ==> !e.Update?
    ensures !Run(s, events).stale
    decreases |events|
  {
    if events != [] {
      assert events[0] in events;
      StaysFresh(Step(s, events[0]), events[1..]);
    }
  }

  /** Before the sync the flag of a client can be wrong. */
  lemma WrongInBetween(mac: Mac)
    ensures var events := [BeginInsert(mac), EndInsert(0), Update(Add([(mac, true)]))];
            && CanRun(INITIAL, events)
            && var s := Run(INITIAL, events);
               |s.clients| == 1 && !Right(s.list, s.clients[0])
  {
    var e := Entry(mac, false);
    var s1 := INITIAL.(lock := Inserting(e));
    var s2 := INITIAL.(clients := [e]);
    var add := Add([(mac, true)]);
    assert add.requests[..0] == [] && add.requests[..1] == add.requests;
    GrantedSnoc(add.requests, 0);
    assert Granted([]) == multiset{};
    assert Updated(multiset{}, add) == multiset{mac};
    var s3 := State(multiset{mac}, [e], Free, 1, true);
    assert Step(INITIAL, BeginInsert(mac)) == s1 && Step(s1, EndInsert(0)) == s2 && Step(s2, Update(add)) == s3;
    var events := [BeginInsert(mac), EndInsert(0), Update(add)];
    assert events[1..] == [EndInsert(0), Update(add)] && events[1..][1..] == [Update(add)] && events[1..][1..][1..] == [];
    assert [Update(add)][1..] == [] && CanRun(s3, []) && Run(s3, []) == s3;
    assert CanRun(s2, [Update(add)]) && Run(s2, [Update(add)]) == s3;
  }

  const CLIENT_HASH_SIZE := 64     // MAX_AF_CLIENT_HASH_SIZE

  /** get_mac_hash_code: the mask of a power of two */
  function ClientBucket(mac: Mac): nat { mac[5] % CLIENT_HASH_SIZE }

  class Client {
    const mac: Mac
    var recordWhitelist: bool

    constructor (mac: Mac, flag: bool)
      ensures this.mac == mac && recordWhitelist == flag
    {
      this.mac, recordWhitelist := mac, flag;
    }
  }

  /** The client table and the whitelist; each operation here runs undisturbed. */
  class ClientTable {
    var table: seq<seq<Client>>       // af_client_list_table
    const whitelist: MacConfig        // g_record_whitelist
    ghost var nodes: set<Client>

    /** Every client is in the bucket of its address, and no two have the same address. */
    ghost predicate Valid()
      reads this, whitelist
    {
      && whitelist.Valid()
      && |table| == CLIENT_HASH_SIZE
      && (forall b, c :: 0 <= b < |table| && c in table[b] ==> c in nodes && b == ClientBucket(c.mac))
      && (forall c :: c in nodes ==> c in table[ClientBucket(c.mac)])
      && (forall c, d :: c in nodes && d in nodes && c.mac == d.mac ==> c == d)
    }

    ghost predicate Coherent()
      reads this, whitelist, nodes
    {
      forall c :: c in nodes ==> c.recordWhitelist == (c.mac in whitelist.Contents())
    }

    constructor ()
      ensures Valid() && Coherent() && nodes == {} && whitelist.Contents() == multiset{} && fresh(whitelist)
    {
      table, nodes := seq(CLIENT_HASH_SIZE, _ => []), {};
      whitelist := new MacConfig();
    }

    /** fwx_sync_record_whitelist_clients */
    method Sync()
      requires Valid()
      modifies nodes
      ensures Valid() && Coherent()
    {
      for i := 0 to CLIENT_HASH_SIZE
        invariant forall c :: c in nodes && ClientBucket(c.mac) < i ==>
                    c.recordWhitelist == (c.mac in whitelist.Contents())
      {
        for k := 0 to |table[i]|
          invariant forall c :: c in nodes && ClientBucket(c.mac) < i ==>
                      c.recordWhitelist == (c.mac in whitelist.Contents())
          invariant forall c :: c in table[i][..k] ==> c.recordWhitelist == (c.mac in whitelist.Contents())
        {
          var node := table[i][k];
          var found, _, _ := whitelist.Find(node.mac);
          node.recordWhitelist := found;
        }
        assert table[i][..|table[i]|] == table[i];
      }
    }

    /** fwx_set_record_whitelist: afterwards the list holds each address once. */
    method SetWhitelist(requests: seq<(Mac, bool)>)
      requires Valid()
      modifies whitelist, nodes
      ensures Valid() && Coherent() && whitelist.Contents() == Updated(old(whitelist.Contents()), Set(requests))
    {
      whitelist.Flush();
      AddEachOnce(whitelist, requests);
      Sync();
    }

    /** fwx_api_add_record_whitelist: an address that is in the list is added again. */
    method AddWhitelist(requests: seq<(Mac, bool)>)
      requires Valid()
      modifies whitelist, nodes
      ensures Valid() && Coherent() && whitelist.Contents() == Updated(old(whitelist.Contents()), Add(requests))
    {
      whitelist.AddAll(requests);
      Sync();
    }

    /** fwx_api_del_record_whitelist: takes one occurrence; without one, it does not sync. */
    method DeleteWhitelist(mac: Mac) returns (ok: bool)
      requires Valid()
      modifies whitelist, nodes
      ensures Valid() && (ok <==> mac in old(whitelist.Contents())) && (ok || old(Coherent()) ==> Coherent())
      ensures whitelist.Contents() == Updated(old(whitelist.Contents()), Delete(mac))
    {
      ok := whitelist.Delete(mac);
      if ok {
        Sync();
      }
    }

    /** fwx_api_flush_record_whitelist */
    method FlushWhitelist()
      requires Valid()
      modifies whitelist, nodes
      ensures Valid() && Coherent() && whitelist.Contents() == Updated(old(whitelist.Contents()), Flush)
    {
      whitelist.Flush();
      Sync();
    }

    /** find_af_client: finds the client of the address, if the table holds one. */
    method FindClient(mac: Mac) returns (c: Client?)
      requires Valid()
      ensures c != null ==> c in nodes && c.mac == mac
      ensures c == null ==> forall d :: d in nodes ==> d.mac != mac
    {
      var bucket := table[ClientBucket(mac)];
      for i := 0 to |bucket|
        invariant forall d :: d in bucket[..i] ==> d.mac != mac
      {
        if bucket[i].mac == mac {
          return bucket[i];
        }
      }
      assert bucket[..|bucket|] == bucket;
      c := null;
    }

    /** find_and_add_af_client with nf_client_add */
    method FindAndAdd(mac: Mac, allocOk: bool) returns (c: Client?)
      requires Valid() && Coherent()
      modifies this
      ensures Valid() && Coherent()
      ensures c != null ==> c.mac == mac && nodes == old(nodes) + {c} && c in table[mac[5] % 64]
      ensures c == null ==> !allocOk && nodes == old(nodes) && forall d :: d in nodes ==> d.mac != mac
    {
      hide MacConfig.Valid, MacConfig.Contents;
      c := FindClient(mac);
      if c == null && allocOk {
        var flag, _, _ := whitelist.Find(mac);
        var node := new Client(mac, flag);
        var index := ClientBucket(mac);
        table, nodes := table[index := [node] + table[index]], nodes + {node};
        c := node;
      }
    }
  }

  /** The token loop of fwx_set_record_whitelist */
  method AddEachOnce(whitelist: MacConfig, requests: seq<(Mac, bool)>)
    requires whitelist.Valid() && whitelist.Contents() == multiset{}
    modifies whitelist
    ensures whitelist.Valid() && whitelist.Contents() == multiset(Chosen(requests))
  {
    hide MacConfig.Valid, MacConfig.Contents;
    assert Chosen([]) == {};
    for i := 0 to |requests|
      invariant whitelist.Valid() && whitelist.Contents() == multiset(Chosen(requests[..i]))
    {
      hide Chosen;
      OneMore(requests, i);
      WithOneMore(Chosen(requests[..i]), requests[i].0);
      var mac, allocOk := requests[i].0, requests[i].1;
      var found, _, _ := whitelist.Find(mac);
      if !found {
        whitelist.Add(mac, allocOk);
      }
    }
    assert requests[..|requests|] == requests;
  }

  lemma WithOneMore(macs: set<Mac>, mac: Mac)
    ensures mac in macs ==> macs + {mac} == macs
    ensures mac !in macs ==> multiset(macs + {mac}) == multiset(macs) + multiset{mac}
  {
  }

  lemma OneMore(requests: seq<(Mac, bool)>, i: nat)
    requires i < |requests|
    ensures Chosen(requests[..i + 1]) == Chosen(requests[..i]) + if requests[i].1 then {requests[i].0} else {}
  {
    assert requests[..i + 1] == requests[..i] + [requests[i]];
    forall m | m in Chosen(requests[..i]) ensures m in Chosen(requests[..i + 1]) {
      var r :| r in requests[..i] && r.1 && r.0 == m;
      assert r in requests[..i + 1];
    }
    if requests[i].1 {
      assert requests[i] in requests[..i + 1];
    }
  }
}
