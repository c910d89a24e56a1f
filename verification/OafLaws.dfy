/**
 The oaf tables in plain terms: what one call does to each address, id, rule and connection, and what
 a configured rule matches.
 */
module OafLaws {
  import opened Wrappers
  import opened MacTable
  import opened AppFilter
  import Rules = AppFilterRules
  import Whitelist = RecordWhitelist
  import Conn = Conntrack

  // ----- addresses

  /** How often an address occurs in a list with its node allocated. */
  function Times(requests: seq<(Mac, bool)>, mac: Mac): nat {
    |set i | 0 <= i < |requests| && requests[i] == (mac, true)|
  }

  lemma {:induction false} GrantedTimes(requests: seq<(Mac, bool)>, mac: Mac)
    ensures Granted(requests)[mac] == Times(requests, mac)
  {
    if requests != [] {
      var k := |requests| - 1;
      GrantedTimes(requests[..k], mac);
      TimesSnoc(requests[..k], requests[k], mac);
      assert requests[..k] + [requests[k]] == requests;
      hide Times;
    }
  }

  lemma TimesSnoc(requests: seq<(Mac, bool)>, r: (Mac, bool), mac: Mac)
    ensures Times(requests + [r], mac) == Times(requests, mac) + if r == (mac, true) then 1 else 0
  {
    var k, more := |requests|, requests + [r];
    var fewer := set i | 0 <= i < k && requests[i] == (mac, true);
    assert (set i | 0 <= i < |more| && more[i] == (mac, true)) == fewer + if r == (mac, true) then {k} else {};
  }

  /** The address list of a rule after a modification, address by address: action 1 puts the list given
      in place of the old one, action 2 adds it, action 3 adds one address, and any other action empties
      the list. Without an action, a list or an address, nothing changes. */
  lemma MacsModified(r: Rules.PlainRule, m: Rules.Modification, mac: Mac)
    ensures var before, after := r.macs[mac], Rules.Modified(r, m).macs[mac];
            match m.macAction
            case None => after == before
            case Some(1) => after == if m.macList.Some? then Times(m.macList.value, mac) else before
            case Some(2) => after == before + if m.macList.Some? then Times(m.macList.value, mac) else 0
            case Some(3) => after == before + if m.mac == Some((mac, true)) then 1 else 0
            case Some(_) => after == 0
  {
    if m.macList.Some? {
      GrantedTimes(m.macList.value, mac);
    }
  }

  // ----- application ids

  /** The ids a token stands for; a range that does not start above 0 stands for none. */
  predicate Names(token: Token, a: int) {
    match token
    case Number(n) => a == n > 0
    case Range(start, end) => 0 < start <= a <= end
    case Single(n) => a == n > 0
    case Malformed => false
  }

  /** A single id goes in exactly when it was in, or there is room below 1024 and memory. */
  lemma OneId(ids: set<int>, n: int, failing: set<int>)
    requires n > 0
    ensures var goes := n in ids || (|ids| < 1024 && n !in failing);
            && AfterToken(ids, Number(n), failing) == (if goes then ids + {n} else ids)
            && AfterToken(ids, Single(n), failing) == (if goes then ids + {n} else ids)
  {
  }

  lemma TokenBetween(ids: set<int>, token: Token, failing: set<int>)
    ensures var after := AfterToken(ids, token, failing);
            && ids <= after && (forall a :: a in after ==> a in ids || Names(token, a))
            && (|after| < 1024 && failing == {} ==> forall a :: Names(token, a) ==> a in after)
  {
    if token.Range? && 0 < token.start <= token.end {
      RangeWholeOrPrefix(ids, token.start, token.end, failing);
    }
  }

  predicate NamedByOne(requests: seq<(Token, set<int>)>, a: int) {
    exists i :: 0 <= i < |requests| && Names(requests[i].0, a)
  }

  /** After any tokens: no id is lost, none comes in that no token names, and if the set is not full in
      the end and memory was there, every id named is in. */
  lemma {:induction false} TokensBetween(ids: set<int>, requests: seq<(Token, set<int>)>)
    ensures var after := AfterTokens(ids, requests);
            && ids <= after && (forall a :: a in after ==> a in ids || NamedByOne(requests, a))
            && (|after| < 1024 && (forall i :: 0 <= i < |requests| ==> requests[i].1 == {}) ==>
                  forall a :: NamedByOne(requests, a) ==> a in after)
    decreases |requests|
  {
    if requests != [] {
      hide AfterToken, Names;
      var next, rest := AfterToken(ids, requests[0].0, requests[0].1), requests[1..];
      TokenBetween(ids, requests[0].0, requests[0].1);
      TokensBetween(next, rest);
      var after := AfterTokens(ids, requests);
      Smaller(next, after);
      forall a | NamedByOne(rest, a) ensures NamedByOne(requests, a) {
        var i :| 0 <= i < |rest| && Names(rest[i].0, a);
        assert Names(requests[i + 1].0, a);
      }
      forall a | NamedByOne(requests, a) ensures Names(requests[0].0, a) || NamedByOne(rest, a) {
        var i :| 0 <= i < |requests| && Names(requests[i].0, a);
        assert i > 0 ==> Names(rest[i - 1].0, a);
      }
    }
  }

  lemma Smaller<T>(a: set<T>, b: set<T>)
    requires a <= b
    ensures |a| <= |b|
  {
    assert b == a + (b - a);
  }

  /** The ids of a rule after a modification, where memory is there and the limit is not reached: action 1
      puts the ids named in place of the old ones, action 2 adds them, action 3 adds those of one token,
      and any other action empties the set. */
  lemma AppsModified(r: Rules.PlainRule, m: Rules.Modification, a: int)
    requires |Rules.Modified(r, m).apps| < 1024
    requires m.appList.Some? ==> forall i :: 0 <= i < |m.appList.value| ==> m.appList.value[i].1 == {}
    requires m.app.Some? ==> m.app.value.1 == {}
    ensures var before, after := a in r.apps, a in Rules.Modified(r, m).apps;
            match m.appAction
            case None => after == before
            case Some(1) => after == if m.appList.Some? then NamedByOne(m.appList.value, a) else before
            case Some(2) => after == (before || (m.appList.Some? && NamedByOne(m.appList.value, a)))
            case Some(3) => after == (before || (m.app.Some? && Names(m.app.value.0, a)))
            case Some(_) => !after
  {
    if m.appList.Some? {
      TokensBetween(r.apps, m.appList.value);
      TokensBetween({}, m.appList.value);
    }
    if m.app.Some? {
      TokenBetween(r.apps, m.app.value.0, m.app.value.1);
    }
  }

  /** The two switches: any number but 0 enables a rule, and only 1 makes it block QUIC. */
  lemma SwitchesModified(r: Rules.PlainRule, m: Rules.Modification)
    ensures var t := Rules.Modified(r, m);
            && t.id == r.id
            && (m.enable == None ==> t.enabled == r.enabled) && (m.quic == None ==> t.quic == r.quic)
            && (forall v :: m.enable == Some(v) ==> (t.enabled <==> v != 0))
            && (forall v :: m.quic == Some(v) ==> (t.quic <==> v == 1))
  {
  }

  /** Ids deleted from a rule: a number whatever it is, a range or a string only above 0; the rest of
      the rule stays. */
  lemma IdsRemoved(s: seq<Rules.PlainRule>, k: nat, token: Token, a: int)
    requires k < |s| && forall j :: 0 <= j < k ==> s[j].id != s[k].id
    ensures var t := Rules.After(s, Rules.DeleteApps(s[k].id, token));
            && |t| == |s| && (forall j :: 0 <= j < |s| && j != k ==> t[j] == s[j])
            && t[k].id == s[k].id && t[k].enabled == s[k].enabled && t[k].quic == s[k].quic && t[k].macs == s[k].macs
            && (a in t[k].apps <==> a in s[k].apps && !match token
                                                       case Number(n) => a == n
                                                       case Range(start, end) => 0 < start <= a <= end
                                                       case Single(n) => a == n > 0
                                                       case Malformed => false)
  {
    Rules.FirstIsIndex(s, s[k].id, k);
  }

  /** A rule is added in front, enabled and with nothing in it, if there are fewer than 64, none has its
      id and there is memory; a deletion takes out the first rule with the id. */
  lemma RulesChanged(s: seq<Rules.PlainRule>, id: int, k: nat, app: int)
    requires k <= |s| && (forall j :: 0 <= j < k ==> s[j].id != id) && (k < |s| ==> s[k].id == id)
    ensures Rules.After(s, Rules.AddRule(id, true))
            == if k == |s| < 64 then [Rules.PlainRule(id, true, false, multiset{}, {})] + s else s
    ensures Rules.After(s, Rules.AddRule(id, false)) == s && Rules.After(s, Rules.FlushRules) == []
    ensures Rules.After(s, Rules.DeleteRule(id)) == if k < |s| then s[..k] + s[k + 1..] else s
    ensures Rules.After(s, Rules.AddApp(id, app, true))
            == if k < |s|
               then s[k := s[k].(apps := if app in s[k].apps || |s[k].apps| < 1024 then s[k].apps + {app} else s[k].apps)]
               else s
  {
    Rules.FirstIsIndex(s, id, k);
  }

  // ----- what a configured rule matches

  /** A rule just added matches nothing. With an id added it matches exactly that id, from every address;
      id 10 is never matched by being listed. */
  lemma FreshRuleMatches(id: int, a: int, x: int, mac: Mac)
    ensures var s := Rules.After([], Rules.AddRule(id, true));
            |s| == 1 && !Rules.Matches(s[0], x, mac)
    ensures var s := Rules.After(Rules.After([], Rules.AddRule(id, true)), Rules.AddApp(id, a, true));
            |s| == 1 && (Rules.Matches(s[0], x, mac) <==> x == a && x != 10)
  {
  }

  /** Id 10 is matched exactly by the rules that block QUIC. */
  lemma QuicMatches(r: Rules.PlainRule, m: Rules.Modification, mac: Mac)
    requires r.enabled && r.macs == multiset{} && m.enable == None && m.macAction == None
    ensures m.quic == Some(1) ==> Rules.Matches(Rules.Modified(r, m), 10, mac)
    ensures m.quic == Some(0) ==> !Rules.Matches(Rules.Modified(r, m), 10, mac)
  {
  }

  /** A rule that is switched off matches nothing; one whose addresses are replaced matches only from
      those, and one whose list is emptied from all. */
  lemma SwitchedAndRestricted(r: Rules.PlainRule, m: Rules.Modification, x: int, mac: Mac, other: Mac)
    requires m.appAction == None && m.quic == None
    ensures m.enable == Some(0) ==> !Rules.Matches(Rules.Modified(r, m), x, mac)
    ensures m.enable == Some(1) && m.macAction == Some(1) && m.macList == Some([(other, true)]) ==>
              (Rules.Matches(Rules.Modified(r, m), x, mac) <==> mac == other && (if x == 10 then r.quic else x in r.apps))
    ensures m.enable == Some(1) && m.macAction == Some(0) ==>
              (Rules.Matches(Rules.Modified(r, m), x, mac) <==> if x == 10 then r.quic else x in r.apps)
  {
    var one := [(other, true)];
    assert one[..0] == [] && one[..1] == one;
    GrantedSnoc(one, 0);
    assert Granted([]) == multiset{};
  }

  // ----- the whitelist

  /** The whitelist after each operation, address by address. */
  lemma ListUpdated(list: multiset<Mac>, requests: seq<(Mac, bool)>, gone: Mac, mac: Mac)
    ensures Whitelist.Updated(list, Whitelist.Set(requests))[mac] == if (mac, true) in requests then 1 else 0
    ensures Whitelist.Updated(list, Whitelist.Add(requests))[mac] == list[mac] + Times(requests, mac)
    ensures Whitelist.Updated(list, Whitelist.Delete(gone))[mac]
            == if mac == gone && list[mac] > 0 then list[mac] - 1 else list[mac]
    ensures Whitelist.Updated(list, Whitelist.Flush)[mac] == 0
  {
    GrantedTimes(requests, mac);
    if mac in Whitelist.Chosen(requests) {
      var r :| r in requests && r.1 && r.0 == mac;
      assert r == (mac, true);
    }
    if (mac, true) in requests {
      var r := (mac, true);
      assert r in requests && r.1 && r.0 == mac;
    }
  }

  /** The clients after each step of a client's life and of a sync: one is put in with the flag read
      before, one is taken out, one flag is brought up to date; the others stay. */
  lemma ClientSteps(s: Whitelist.State, at: nat, mac: Mac)
    ensures Whitelist.Enabled(s, Whitelist.BeginInsert(mac)) ==>
              Whitelist.Step(s, Whitelist.BeginInsert(mac))
              == s.(lock := Whitelist.Inserting(Whitelist.Entry(mac, mac in s.list)))
    ensures forall e :: s.lock == Whitelist.Inserting(e) && at <= |s.clients| ==>
              Whitelist.Step(s, Whitelist.EndInsert(at))
              == s.(clients := s.clients[..at] + [e] + s.clients[at..], lock := Whitelist.Free)
    ensures s.lock == Whitelist.Free && at < |s.clients| ==>
              Whitelist.Step(s, Whitelist.Expire(at)) == s.(clients := s.clients[..at] + s.clients[at + 1..])
    ensures s.lock == Whitelist.Syncing(at) && at < |s.clients| ==>
              Whitelist.Step(s, Whitelist.Visit)
              == s.(clients := s.clients[at := Whitelist.Entry(s.clients[at].mac, s.clients[at].mac in s.list)],
                    lock := Whitelist.Syncing(at + 1))
    ensures s.lock == Whitelist.Syncing(|s.clients|) ==>
              Whitelist.Step(s, Whitelist.EndSync) == s.(lock := Whitelist.Free)
  {
  }

  // ----- connections

  /** What an event makes of the connection at a place of the table, apart from sweeps: a packet or an
      update refreshes the connection with that address, an update also marks it, and a new connection
      is put in front of its bucket, with no application and nothing dropped. */
  lemma PlacesAfter(c: Conn.Clock, s: Conn.State, b: nat, i: nat, id: nat, appId: nat, drop: nat, key: Conn.Key, d: nat)
    requires c.Valid() && c.word > 0 && Conn.WellSized(s) && b < 256 && i < |s.table[b]|
    ensures var x, t := s.table[b][i], Conn.Step(c, s, Conn.Update(id, appId, drop));
            && |t.table[b]| == |s.table[b]| && t.now == s.now && t.lastBucket == s.lastBucket
            && t.table[b][i] == if x.id == id then Conn.Conn(id, x.key, s.now % c.word, s.now, appId, drop) else x
    ensures var x, t := s.table[b][i], Conn.Step(c, s, Conn.Touch(id));
            && |t.table[b]| == |s.table[b]| && t.now == s.now && t.lastBucket == s.lastBucket
            && t.table[b][i] == if x.id == id then Conn.Conn(id, x.key, s.now % c.word, s.now, x.appId, x.drop) else x
    ensures var t := Conn.Step(c, s, Conn.Add(key, b));
            && t == s.(table := t.table, nextId := s.nextId + 1) && |t.table| == 256
            && t.table[b] == [Conn.Conn(s.nextId, key, s.now % c.word, s.now, 0, 0)] + s.table[b]
            && forall b' :: 0 <= b' < 256 && b' != b ==> t.table[b'] == s.table[b']
    ensures Conn.Step(c, s, Conn.Tick(d)) == s.(now := s.now + d)
  {
  }

  /** The limit of a connection lies behind the time, in jiffies that wrap: their difference, read as a
      signed number, is negative. */
  predicate Past(c: Conn.Clock, now: nat, last: nat)
    requires c.word > 0
  {
    ((last + c.timeout) % c.word - now % c.word) % c.word >= c.word / 2
  }

  /** A sweep call looks at the bucket where the last one stopped and up to five more, and drops from
      them the connections whose limit has passed. */
  lemma Swept(c: Conn.Clock, s: Conn.State, b: nat, x: Conn.Conn)
    requires c.Valid() && c.word > 0 && Conn.WellSized(s) && b < 256
    ensures var t := Conn.Step(c, s, Conn.Clean);
            && (x in t.table[b]
                <==> x in s.table[b] && !(s.lastBucket <= b <= s.lastBucket + 5 && Past(c, s.now, x.last)))
            && t.lastBucket == (if s.lastBucket + 5 >= 255 then 0 else s.lastBucket + 5)
            && t.now == s.now && t.nextId == s.nextId
  {
    hide Conn.Clock.Expired, Conn.Unexpired, Past;
    Conn.UnexpiredMembers(c, s.now, s.table[b], x);
    ExpiredIsPast(c, s.now, x.last);
  }

  lemma ExpiredIsPast(c: Conn.Clock, now: nat, last: nat)
    requires c.Valid() && c.word > 0
    ensures c.Expired(now, last) <==> Past(c, now, last)
  {
  }
}
