/**
 The application filter of the oaf module (fwx_app_filter.c): rules with a list of MAC addresses
 and a set of application ids, and the search for the rule that matches a packet.
 */
module AppFilter {
  import opened HashTable
  import opened MacTable

  const MAX_RULES := 64
  const MAX_APP_IDS := 1024
  const APPID_HASH_SIZE := 256
  const QUIC := 10           // FWX_QUIC_PROTO
  const INT_MAX := 0x7FFF_FFFF

  /** The application ids of a rule, in hash buckets, with a count. */
  class AppIdConfig {
    var table: seq<seq<int>>
    var count: int

    /** Ids are in the bucket of their remainder, at most once, and counted. */
    ghost predicate Valid()
      reads this
    {
      && |table| == APPID_HASH_SIZE
      && (forall b, a :: 0 <= b < |table| && a in table[b] ==> 0 <= a && b == a % APPID_HASH_SIZE)
      && (forall a :: Elems(table)[a] <= 1)
      && count == |Elems(table)| <= MAX_APP_IDS
    }

    /** The plain set of ids. */
    ghost function Ids(): set<int>
      reads this
    {
      set a | a in Elems(table)
    }

    lemma CountIsSize()
      requires Valid()
      ensures count == |Ids()| <= MAX_APP_IDS
    {
      MultisetAsSet(Elems(table));
    }

    constructor ()
      ensures Valid() && Ids() == {}
    {
      table, count := seq(APPID_HASH_SIZE, _ => []), 0;
      new;
      EmptyElems(table);
    }

    /** flush_app_id_list */
    method Flush()
      requires Valid()
      modifies this
      ensures Valid() && Ids() == {}
    {
      ghost var before := table;
      for i := 0 to APPID_HASH_SIZE
        invariant |table| == APPID_HASH_SIZE
        invariant forall b :: 0 <= b < APPID_HASH_SIZE ==> table[b] == if b < i then [] else before[b]
      {
        table := table[i := []];
      }
      count := 0;
      EmptyElems(table);
    }

    /** find_app_id_node: finds the id exactly when it is in the set. */
    method Find(appId: int) returns (found: bool, at: nat)
      requires Valid() && appId >= 0
      ensures found <==> appId in Ids()
      ensures found ==> at < |table[appId % APPID_HASH_SIZE]| && table[appId % APPID_HASH_SIZE][at] == appId
    {
      var hash := appId % APPID_HASH_SIZE;
      ElemsMember(table, appId);
      found, at := false, 0;
      while at < |table[hash]|
        invariant at <= |table[hash]| && appId !in table[hash][..at]
      {
        if table[hash][at] == appId {
          return true, at;
        }
        at := at + 1;
      }
      assert table[hash][..at] == table[hash];
    }

    /** add_app_id_node: the id is in the set afterwards, unless the set is full or memory is short. */
    method Add(appId: int, allocOk: bool) returns (ok: bool)
      requires Valid() && appId >= 0
      modifies this
      ensures Valid()
      ensures ok <==> appId in old(Ids()) || (old(|Ids()|) < MAX_APP_IDS && allocOk)
      ensures Ids() == if ok then old(Ids()) + {appId} else old(Ids())
    {
      hide Valid, Ids;
      CountIsSize();
      var found, at := Find(appId);
      if found {
        return true;
      }
      if count >= MAX_APP_IDS || !allocOk {
        return false;
      }
      Insert(appId);
      ok := true;
    }

    // A new node at the head of its bucket.
    method Insert(appId: int)
      requires Valid() && appId >= 0 && appId !in Ids() && count < MAX_APP_IDS
      modifies this
      ensures Valid() && Ids() == old(Ids()) + {appId}
    {
      hide Elems;
      var hash := appId % APPID_HASH_SIZE;
      PushElems(table, hash, appId);
      table := table[hash := [appId] + table[hash]];
      count := count + 1;
    }

    /** The loop of fwx_del_app_id_from_rule */
    method Delete(appId: int) returns (ok: bool)
      requires Valid() && appId >= 0
      modifies this
      ensures Valid() && (ok <==> appId in old(Ids())) && Ids() == old(Ids()) - {appId}
    {
      hide Valid, Ids;
      var at;
      ok, at := Find(appId);
      if ok {
        Remove(appId, at);
      }
    }

    // hlist_del of the node at this place of its bucket.
    method Remove(appId: int, at: nat)
      requires Valid() && appId >= 0
      requires var b := appId % APPID_HASH_SIZE; at < |table[b]| && table[b][at] == appId
      modifies this
      ensures Valid() && Ids() == old(Ids()) - {appId}
    {
      hide Elems;
      var hash := appId % APPID_HASH_SIZE;
      ghost var before := table[hash];
      RemoveElems(table, hash, at);
      ElemsMember(table, appId);
      var rest := table[hash][..at] + table[hash][at + 1..];
      assert forall a :: a in rest ==> a in before;
      table := table[hash := rest];
      count := count - 1;
    }

    /** The loop over a range token. A range that ends at the largest int and has more ids than fit
        fills the set before the counter can overflow. */
    method AddRange(start: int, end: int, failing: set<int>) returns (ok: bool)
      requires Valid() && Representable(Range(start, end)) && 0 < start <= end
      modifies this
      ensures Valid() && Ids() == AfterRange(old(Ids()), start, end, failing)
      ensures ok <==> Interval(start, end + 1) <= Ids()
    {
      hide Valid, Ids, Representable, Interval;
      var i := start;
      while i <= end
        invariant start <= i <= end + 1 && Valid()
        invariant Interval(start, i) <= Ids()
        invariant AfterRange(old(Ids()), start, end, failing) == AfterRange(Ids(), i, end, failing)
      {
        ok := Add(i, i !in failing);
        if !ok {
          assert i in Interval(start, end + 1);
          return false;
        }
        CountIsSize();
        NoOverflow(Ids(), start, end, i);
        assert i < INT_MAX;
        i := i + 1;
      }
      ok := true;
    }

    /** add_app_id_token_to_rule */
    method AddToken(token: Token, failing: set<int>) returns (ok: bool)
      requires Valid() && Representable(token)
      modifies this
      ensures Valid() && Ids() == AfterToken(old(Ids()), token, failing)
      ensures ok <==> match token
                      case Number(n) => n > 0 && n in Ids()
                      case Range(start, end) => 0 < start <= end && Interval(start, end + 1) <= Ids()
                      case Single(n) => n > 0 && n in Ids()
                      case Malformed => false
    {
      match token
      case Number(n) =>
        if n > 0 {
          ok := Add(n, n !in failing);
        } else {
          ok := false;
        }
      case Range(start, end) =>
        if start <= 0 || end < start {
          return false;
        }
        ok := AddRange(start, end, failing);
      case Single(n) =>
        if n > 0 {
          ok := Add(n, n !in failing);
        } else {
          ok := false;
        }
      case Malformed => ok := false;
    }

    /** The token loop of fwx_api_mod_app_filter_rule; a token that fails does not end it. */
    method AddTokens(requests: seq<(Token, set<int>)>)
      requires Valid() && forall r :: r in requests ==> Representable(r.0)
      modifies this
      ensures Valid() && Ids() == AfterTokens(old(Ids()), requests)
    {
      for i := 0 to |requests|
        invariant Valid() && AfterTokens(old(Ids()), requests) == AfterTokens(Ids(), requests[i..])
      {
        assert requests[i] in requests && requests[i..][1..] == requests[i + 1..];
        var _ := AddToken(requests[i].0, requests[i].1);
      }
    }
  }

  /** An app id token of the configuration: a number, or a string with a range or a single number. */
  datatype Token = Number(n: int) | Range(start: int, end: int) | Single(id: int) | Malformed

  /** Numbers are ints. A range that is not rejected, ends at the largest int and may fit into a set
      is left out: once all of it is in, the loop counter overflows. */
  predicate Representable(token: Token) {
    token.Range? && 0 < token.start <= token.end ==>
      token.end < INT_MAX || (token.end == INT_MAX && token.end - token.start >= MAX_APP_IDS)
  }

  function AfterId(ids: set<int>, id: int, failing: set<int>): set<int> {
    if id in ids || (|ids| < MAX_APP_IDS && id !in failing) then ids + {id} else ids
  }

  function AfterRange(ids: set<int>, i: int, end: int, failing: set<int>): set<int>
    decreases end - i
  {
    if i > end || i !in AfterId(ids, i, failing) then ids else AfterRange(AfterId(ids, i, failing), i + 1, end, failing)
  }

  function AfterToken(ids: set<int>, token: Token, failing: set<int>): set<int> {
    match token
    case Number(n) => if n > 0 then AfterId(ids, n, failing) else ids
    case Range(start, end) => if start <= 0 then ids else AfterRange(ids, start, end, failing)
    case Single(n) => if n > 0 then AfterId(ids, n, failing) else ids
    case Malformed => ids
  }

  function AfterTokens(ids: set<int>, requests: seq<(Token, set<int>)>): set<int>
    decreases |requests|
  {
    if requests == [] then ids else AfterTokens(AfterToken(ids, requests[0].0, requests[0].1), requests[1..])
  }

  /** The first id of the interval that does not go in, or the one behind it. */
  function StopsAt(ids: set<int>, i: int, end: int, failing: set<int>): (k: int)
    requires i <= end + 1
    ensures i <= k <= end + 1
    decreases end - i
  {
    if i > end || i !in AfterId(ids, i, failing) then i else StopsAt(AfterId(ids, i, failing), i + 1, end, failing)
  }

  /** A range token adds the whole interval, or the part of it before the first id that does not go
      in; and that happens only when the set is full or the allocation for that id fails. */
  lemma {:induction false} RangeWholeOrPrefix(ids: set<int>, i: int, end: int, failing: set<int>)
    requires i <= end + 1
    ensures var after, k := AfterRange(ids, i, end, failing), StopsAt(ids, i, end, failing);
            && after == ids + Interval(i, k)
            && (k <= end ==> k !in after && (|after| >= MAX_APP_IDS || k in failing))
    decreases end - i
  {
    hide Interval;
    var next, k := AfterId(ids, i, failing), StopsAt(ids, i, end, failing);
    if i <= end && i in next {
      RangeWholeOrPrefix(next, i + 1, end, failing);
      assert Interval(i, k) == {i} + Interval(i + 1, k);
    } else {
      assert Interval(i, i) == {};
    }
  }

  function Interval(lo: int, hi: int): (r: set<int>)
    ensures forall x :: x in r <==> lo <= x < hi
    decreases hi - lo
  {
    if lo >= hi then {} else Interval(lo, hi - 1) + {hi - 1}
  }

  lemma {:induction false} IntervalSize(lo: int, hi: int)
    requires lo <= hi
    ensures |Interval(lo, hi)| == hi - lo
    decreases hi - lo
  {
    if lo < hi {
      IntervalSize(lo, hi - 1);
    }
  }

  // The set cannot hold a part of the range that reaches the largest int.
  lemma NoOverflow(ids: set<int>, start: int, end: int, i: int)
    requires Representable(Range(start, end)) && 0 < start <= i <= end
    requires |ids| <= MAX_APP_IDS && Interval(start, i + 1) <= ids
    ensures i < INT_MAX
  {
    hide Interval;
    IntervalSize(start, i + 1);
    assert ids == Interval(start, i + 1) + (ids - Interval(start, i + 1));
  }

  lemma {:induction false} MultisetAsSet(m: multiset<int>)
    requires forall a :: m[a] <= 1
    ensures |set a | a in m| == |m|
    decreases |m|
  {
    if exists x :: x in m {
      var x :| x in m;
      var rest := m - multiset{x};
      MultisetAsSet(rest);
      assert (set a | a in m) == (set a | a in rest) + {x};
    } else {
      assert m == multiset{};
    }
  }
}
