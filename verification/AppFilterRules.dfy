/**
 The rule list of the application filter: what each configuration call does to the rules in plain
 terms, and which rule a packet matches.
 */
module AppFilterRules {
  import opened MacTable
  import opened AppFilter
  import opened Wrappers

  /** A rule without its hash tables. */
  datatype PlainRule = PlainRule(id: int, enabled: bool, quic: bool, macs: multiset<Mac>, apps: set<int>)

  /** A rule matches when it is enabled, names no addresses or this one, and names the application
      (or blocks QUIC, for the QUIC id). */
  predicate Matches(r: PlainRule, appId: int, mac: Mac) {
    r.enabled && (r.macs == multiset{} || mac in r.macs) && (if appId == QUIC then r.quic else appId in r.apps)
  }

  /** The arguments of a modification. The lists hold the addresses that parse, each with whether its
      node is allocated, and the tokens, each with the ids whose allocation would fail. */
  datatype Modification = Modification(
    macAction: Option<int>, macList: Option<seq<(Mac, bool)>>, mac: Option<(Mac, bool)>,
    appAction: Option<int>, appList: Option<seq<(Token, set<int>)>>, app: Option<(Token, set<int>)>,
    enable: Option<int>, quic: Option<int>)

  predicate RepresentableIn(m: Modification) {
    && (m.appList.Some? ==> forall r :: r in m.appList.value ==> Representable(r.0))
    && (m.app.Some? ==> Representable(m.app.value.0))
  }

  function ModifiedMacs(macs: multiset<Mac>, m: Modification): multiset<Mac> {
    if m.macAction.None? then macs
    else if m.macAction.value == 1 || m.macAction.value == 2 then
      if m.macList.None? then macs
      else (if m.macAction.value == 1 then multiset{} else macs) + Granted(m.macList.value)
    else if m.macAction.value == 3 then
      if m.mac.None? || !m.mac.value.1 then macs else macs + multiset{m.mac.value.0}
    else multiset{}
  }

  function ModifiedApps(apps: set<int>, m: Modification): set<int> {
    if m.appAction.None? then apps
    else if m.appAction.value == 1 || m.appAction.value == 2 then
      if m.appList.None? then apps
      else AfterTokens(if m.appAction.value == 1 then {} else apps, m.appList.value)
    else if m.appAction.value == 3 then
      if m.app.None? then apps else AfterToken(apps, m.app.value.0, m.app.value.1)
    else {}
  }

  function Modified(r: PlainRule, m: Modification): (t: PlainRule)
    ensures t.id == r.id
  {
    PlainRule(r.id,
              if m.enable.Some? then m.enable.value != 0 else r.enabled,
              if m.quic.Some? then m.quic.value == 1 else r.quic,
              ModifiedMacs(r.macs, m), ModifiedApps(r.apps, m))
  }

  class Rule {
    const ruleId: int
    var enable: int
    var filterQuic: int
    const macs: MacConfig
    const apps: AppIdConfig
    ghost const born: nat     // when the rule was added

    ghost predicate Valid()
      reads this, macs, apps
    {
      macs.Valid() && apps.Valid()
    }

    ghost function Plain(): PlainRule
      reads this, macs, apps
    {
      PlainRule(ruleId, enable != 0, filterQuic == 1, macs.Contents(), apps.Ids())
    }

    constructor (ruleId: int, ghost born: nat)
      ensures Valid() && Plain() == PlainRule(ruleId, true, false, multiset{}, {})
      ensures this.ruleId == ruleId && this.born == born && fresh(macs) && fresh(apps)
    {
      this.ruleId, this.born, enable, filterQuic := ruleId, born, 1, 0;
      macs := new MacConfig();
      apps := new AppIdConfig();
    }

    /** The part of fwx_api_mod_app_filter_rule about addresses */
    method ModifyMacs(m: Modification)
      requires Valid()
      modifies macs
      ensures Valid() && macs.Contents() == ModifiedMacs(old(macs.Contents()), m)
    {
      if m.macAction.Some? {
        var action := m.macAction.value;
        if action == 1 || action == 2 {
          if m.macList.Some? {
            if action == 1 {
              macs.Flush();
            }
            macs.AddAll(m.macList.value);
          }
        } else if action == 3 {
          if m.mac.Some? {
            macs.Add(m.mac.value.0, m.mac.value.1);
          }
        } else {
          macs.Flush();
        }
      }
    }

    /** The part of fwx_api_mod_app_filter_rule about application ids */
    method ModifyApps(m: Modification)
      requires Valid() && RepresentableIn(m)
      modifies apps
      ensures Valid() && apps.Ids() == ModifiedApps(old(apps.Ids()), m)
    {
      if m.appAction.Some? {
        var action := m.appAction.value;
        if action == 1 || action == 2 {
          if m.appList.Some? {
            if action == 1 {
              apps.Flush();
            }
            apps.AddTokens(m.appList.value);
          }
        } else if action == 3 {
          if m.app.Some? {
            var _ := apps.AddToken(m.app.value.0, m.app.value.1);
          }
        } else {
          apps.Flush();
        }
      }
    }

    /** fwx_api_mod_app_filter_rule, once the rule is found */
    method Modify(m: Modification)
      requires Valid() && RepresentableIn(m)
      modifies this, macs, apps
      ensures Valid() && Plain() == Modified(old(Plain()), m)
    {
      ModifyMacs(m);
      ModifyApps(m);
      if m.enable.Some? {
        enable := m.enable.value;
      }
      if m.quic.Some? {
        filterQuic := if m.quic.value == 1 then 1 else 0;
      }
    }

    method AddApp(appId: int, allocOk: bool)
      requires Valid() && appId >= 0
      modifies apps
      ensures Valid() && Plain() == WithApp(old(Plain()), appId, allocOk)
    {
      var _ := apps.Add(appId, allocOk);
    }

    method DeleteApp(appId: int) returns (ok: bool)
      requires Valid() && appId >= 0
      modifies apps
      ensures Valid() && (ok <==> appId in old(Plain()).apps)
      ensures Plain() == WithApps(old(Plain()), old(Plain()).apps - {appId})
    {
      ok := apps.Delete(appId);
    }

    /** The tests of fwx_match_app_filter_rule on one rule */
    method Match(appId: int, mac: Mac) returns (matched: bool)
      requires Valid() && appId >= 0
      ensures matched <==> Matches(Plain(), appId, mac)
    {
      if enable == 0 {
        return false;
      }
      var found, _, _ := macs.Find(mac);
      if !found {
        var empty := macs.IsEmpty();
        if !empty {
          return false;
        }
      }
      if appId == QUIC {
        return filterQuic == 1;
      }
      var node, _ := apps.Find(appId);
      matched := node;
    }
  }

  /** The place of the rule with this id, or the length of the list. */
  function IndexOf(s: seq<PlainRule>, id: int): (k: nat)
    ensures k <= |s| && (k < |s| ==> s[k].id == id) && forall j :: 0 <= j < k ==> s[j].id != id
  {
    if s == [] || s[0].id == id then 0 else 1 + IndexOf(s[1..], id)
  }

  predicate Has(s: seq<PlainRule>, id: int, app: int) {
    IndexOf(s, id) < |s| && app in s[IndexOf(s, id)].apps
  }

  function WithApps(r: PlainRule, apps: set<int>): PlainRule {
    PlainRule(r.id, r.enabled, r.quic, r.macs, apps)
  }

  function WithApp(r: PlainRule, app: int, allocOk: bool): PlainRule {
    WithApps(r, AfterId(r.apps, app, if allocOk then {} else {app}))
  }

  /** The calls that change the rules. The last field of an addition says whether memory was got. */
  datatype Call =
    | AddRule(id: int, allocOk: bool)
    | DeleteRule(id: int)
    | AddApp(id: int, app: int, allocOk: bool)
    | DeleteApps(id: int, token: Token)
    | Modify(id: int, m: Modification)
    | FlushRules

  predicate Allowed(c: Call) {
    match c
    case AddApp(_, app, _) => app >= 0
    case DeleteApps(_, token) =>
      // deleting a range never ends early, so its counter must not reach the largest int
      (token.Range? ==> token.start <= 0 || token.end < INT_MAX) && (token.Number? ==> token.n >= 0)
    case Modify(_, m) => RepresentableIn(m)
    case _ => true
  }

  function Removed(apps: set<int>, token: Token): set<int> {
    match token
    case Number(n) => apps - {n}
    case Range(start, end) => if start <= 0 then apps else apps - Interval(start, end + 1)
    case Single(n) => if n > 0 then apps - {n} else apps
    case Malformed => apps
  }

  /** What a call does to the plain rules, newest first. */
  function After(s: seq<PlainRule>, c: Call): seq<PlainRule> {
    match c
    case AddRule(id, allocOk) =>
      if |s| < MAX_RULES && IndexOf(s, id) == |s| && allocOk then [PlainRule(id, true, false, multiset{}, {})] + s else s
    case DeleteRule(id) =>
      var k := IndexOf(s, id);
      if k < |s| then s[..k] + s[k + 1..] else s
    case AddApp(id, app, allocOk) =>
      var k := IndexOf(s, id);
      if k < |s| then s[k := WithApp(s[k], app, allocOk)] else s
    case DeleteApps(id, token) =>
      var k := IndexOf(s, id);
      if k < |s| then s[k := WithApps(s[k], Removed(s[k].apps, token))] else s
    case Modify(id, m) =>
      var k := IndexOf(s, id);
      if k < |s| then s[k := Modified(s[k], m)] else s
    case FlushRules => []
  }

  lemma IndexOfUpdate(s: seq<PlainRule>, id: int, r: PlainRule)
    requires IndexOf(s, id) < |s| && r.id == id
    ensures IndexOf(s[IndexOf(s, id) := r], id) == IndexOf(s, id)
  {
    FirstIsIndex(s[IndexOf(s, id) := r], id, IndexOf(s, id));
  }

  lemma FirstIsIndex(s: seq<PlainRule>, id: int, k: nat)
    requires k <= |s| && (k < |s| ==> s[k].id == id) && forall j :: 0 <= j < k ==> s[j].id != id
    ensures IndexOf(s, id) == k
  {
    assert !(k < IndexOf(s, id)) && !(IndexOf(s, id) < k);
  }

  lemma NothingDeleted(s: seq<PlainRule>, id: int, token: Token)
    requires !token.Number? && (token.Range? ==> token.start <= 0 || token.end < token.start)
    requires token.Single? ==> token.id <= 0
    ensures After(s, DeleteApps(id, token)) == s
  {
    var k := IndexOf(s, id);
    if k < |s| {
      assert Removed(s[k].apps, token) == s[k].apps;
    }
  }

  lemma OneDeleted(s: seq<PlainRule>, id: int, n: int)
    requires n > 0
    ensures After(s, DeleteApps(id, Single(n))) == After(s, DeleteApps(id, Number(n)))
  {
  }

  lemma OneMoreDeleted(s: seq<PlainRule>, id: int, start: int, i: int)
    requires 0 < start <= i
    ensures After(After(s, DeleteApps(id, Range(start, i - 1))), DeleteApps(id, Number(i)))
         == After(s, DeleteApps(id, Range(start, i)))
  {
    var k := IndexOf(s, id);
    if k < |s| {
      var r := WithApps(s[k], s[k].apps - Interval(start, i));
      IndexOfUpdate(s, id, r);
      assert Interval(start, i + 1) == Interval(start, i) + {i};
      assert s[k].apps - Interval(start, i) - {i} == s[k].apps - Interval(start, i + 1);
    }
  }

  /** Different ids, at most 64 rules, at most 1024 applications each. */
  ghost predicate Good(s: seq<PlainRule>) {
    && |s| <= MAX_RULES
    && (forall i, j :: 0 <= i < j < |s| ==> s[i].id != s[j].id)
    && (forall i :: 0 <= i < |s| ==> |s[i].apps| <= MAX_APP_IDS)
  }

  lemma {:induction false} RangeKeepsLimit(ids: set<int>, i: int, end: int, failing: set<int>)
    requires |ids| <= MAX_APP_IDS
    ensures |AfterRange(ids, i, end, failing)| <= MAX_APP_IDS
    decreases end - i
  {
    if i <= end && i in AfterId(ids, i, failing) {
      RangeKeepsLimit(AfterId(ids, i, failing), i + 1, end, failing);
    }
  }

  lemma TokenKeepsLimit(ids: set<int>, token: Token, failing: set<int>)
    requires |ids| <= MAX_APP_IDS
    ensures |AfterToken(ids, token, failing)| <= MAX_APP_IDS
  {
    if token.Range? {
      RangeKeepsLimit(ids, token.start, token.end, failing);
    }
  }

  lemma {:induction false} TokensKeepLimit(ids: set<int>, requests: seq<(Token, set<int>)>)
    requires |ids| <= MAX_APP_IDS
    ensures |AfterTokens(ids, requests)| <= MAX_APP_IDS
    decreases |requests|
  {
    if requests != [] {
      TokenKeepsLimit(ids, requests[0].0, requests[0].1);
      TokensKeepLimit(AfterToken(ids, requests[0].0, requests[0].1), requests[1..]);
    }
  }

  lemma ModifiedKeepsLimit(r: PlainRule, m: Modification)
    requires |r.apps| <= MAX_APP_IDS
    ensures |Modified(r, m).apps| <= MAX_APP_IDS
  {
    if m.appList.Some? {
      TokensKeepLimit(r.apps, m.appList.value);
      TokensKeepLimit({}, m.appList.value);
    }
    if m.app.Some? {
      TokenKeepsLimit(r.apps, m.app.value.0, m.app.value.1);
    }
  }

  lemma RemovedKeepsLimit(apps: set<int>, token: Token)
    requires |apps| <= MAX_APP_IDS
    ensures |Removed(apps, token)| <= MAX_APP_IDS
  {
    assert apps == Removed(apps, token) + (apps - Removed(apps, token));
  }

  lemma GoodUpdate(s: seq<PlainRule>, k: nat, r: PlainRule)
    requires Good(s) && k < |s| && r.id == s[k].id && |r.apps| <= MAX_APP_IDS
    ensures Good(s[k := r])
  {
  }

  lemma GoodStays(s: seq<PlainRule>, c: Call)
    requires Good(s)
    ensures Good(After(s, c))
  {
    hide Modified, Removed;
    match c
    case AddRule(_, _) =>
    case DeleteRule(_) =>
    case AddApp(id, app, allocOk) =>
      var k := IndexOf(s, id);
      if k < |s| {
        GoodUpdate(s, k, WithApp(s[k], app, allocOk));
      }
    case DeleteApps(id, token) =>
      var k := IndexOf(s, id);
      if k < |s| {
        RemovedKeepsLimit(s[k].apps, token);
        GoodUpdate(s, k, WithApps(s[k], Removed(s[k].apps, token)));
      }
    case Modify(id, m) =>
      var k := IndexOf(s, id);
      if k < |s| {
        ModifiedKeepsLimit(s[k], m);
        GoodUpdate(s, k, Modified(s[k], m));
      }
    case FlushRules =>
  }

  function AfterCalls(s: seq<PlainRule>, calls: seq<Call>): seq<PlainRule> {
    if calls == [] then s else After(AfterCalls(s, calls[..|calls| - 1]), calls[|calls| - 1])
  }

  /** Over any calls: the ids of the rules stay different, and both limits hold. */
  lemma {:induction false} GoodAlways(calls: seq<Call>)
    ensures Good(AfterCalls([], calls))
  {
    if calls != [] {
      GoodAlways(calls[..|calls| - 1]);
      GoodStays(AfterCalls([], calls[..|calls| - 1]), calls[|calls| - 1]);
    }
  }

  function Lookup(s: seq<PlainRule>, id: int): Option<PlainRule> {
    if IndexOf(s, id) < |s| then Some(s[IndexOf(s, id)]) else None
  }

  /** What a call does to the rule it names, seen as an entry of a map. */
  function Changed(r: Option<PlainRule>, full: bool, c: Call): Option<PlainRule>
    requires c != FlushRules
  {
    match c
    case AddRule(id, allocOk) =>
      if r.Some? || full || !allocOk then r else Some(PlainRule(id, true, false, multiset{}, {}))
    case DeleteRule(_) => None
    case AddApp(_, app, allocOk) => if r.Some? then Some(WithApp(r.value, app, allocOk)) else None
    case DeleteApps(_, token) => if r.Some? then Some(WithApps(r.value, Removed(r.value.apps, token))) else None
    case Modify(_, m) => if r.Some? then Some(Modified(r.value, m)) else None
  }

  lemma TheNamedRule(s: seq<PlainRule>, c: Call)
    requires Good(s) && c != FlushRules
    ensures Lookup(After(s, c), c.id) == Changed(Lookup(s, c.id), |s| == MAX_RULES, c)
  {
    hide Modified, Removed;
    var t, k := After(s, c), IndexOf(s, c.id);
    if c.AddRule? {
      FirstIsIndex(t, c.id, if t == s then k else 0);
    } else if c.DeleteRule? {
      FirstIsIndex(t, c.id, |t|);
    } else {
      FirstIsIndex(t, c.id, k);
    }
  }

  /** A call changes the rule it names and no other: the list behaves like a map of ids to rules. */
  lemma OnlyTheNamedRule(s: seq<PlainRule>, c: Call, id: int)
    requires Good(s) && c != FlushRules && c.id != id
    ensures Lookup(After(s, c), id) == Lookup(s, id)
  {
    hide Modified, Removed;
    var t, k := After(s, c), IndexOf(s, id);
    if c.AddRule? {
      FirstIsIndex(t, id, if t == s then k else k + 1);
    } else if c.DeleteRule? {
      FirstIsIndex(t, id, if IndexOf(s, c.id) < k then k - 1 else k);
    } else {
      FirstIsIndex(t, id, k);
    }
  }

  class Filter {
    var rules: seq<Rule>        // app_filter_rule_list
    var count: int              // g_app_rule_count
    ghost var plain: seq<PlainRule>
    ghost var clock: nat        // how many rules were added so far

    ghost var repr: set<object> // the rules and their tables

    /** The rules have different ids and tables, at most 64 of them, the newest one first. */
    ghost predicate Valid()
      reads this, repr
    {
      && count == |rules| == |plain| <= MAX_RULES
      && this !in repr
      && Apart(rules, clock)
      && (forall i :: 0 <= i < |rules| ==> Owned(rules[i], repr) && Shows(rules[i], plain[i]))
    }

    constructor ()
      ensures Valid() && plain == []
    {
      rules, count, plain, clock, repr := [], 0, [], 0, {};
    }

    /** fwx_find_app_filter_rule */
    method FindRule(ruleId: int) returns (at: nat)
      requires Valid()
      ensures at == IndexOf(plain, ruleId)
    {
      at := 0;
      while at < |rules|
        invariant at <= |rules| && forall j :: 0 <= j < at ==> plain[j].id != ruleId
      {
        assert plain[at].id == rules[at].ruleId;
        if rules[at].ruleId == ruleId {
          return;
        }
        at := at + 1;
      }
    }

    /** fwx_add_app_filter_rule */
    method Add(ruleId: int, allocOk: bool) returns (ok: bool)
      requires Valid()
      modifies this
      ensures Valid() && fresh(repr - old(repr)) && plain == After(old(plain), AddRule(ruleId, allocOk))
      ensures ok <==> plain != old(plain)
    {
      hide AppIdConfig.Valid, MacConfig.Valid, AppIdConfig.Ids, MacConfig.Contents, Rule.Valid, IndexOf;
      if count >= MAX_RULES {
        return false;
      }
      var at := FindRule(ruleId);
      if at < |rules| || !allocOk {
        return false;
      }
      var rule := new Rule(ruleId, clock);
      rules, count := [rule] + rules, count + 1;
      plain, clock, repr := [rule.Plain()] + plain, clock + 1, repr + {rule, rule.macs, rule.apps};
      ok := true;
    }

    /** fwx_del_app_filter_rule */
    method Delete(ruleId: int) returns (ok: bool)
      requires Valid()
      modifies this
      ensures Valid() && plain == After(old(plain), DeleteRule(ruleId))
      ensures ok <==> IndexOf(old(plain), ruleId) < |old(plain)|
    {
      hide Rule.Valid, Rule.Plain, IndexOf, Before;
      var at := FindRule(ruleId);
      ok := at < |rules|;
      if ok {
        rules, count := rules[..at] + rules[at + 1..], count - 1;
        plain := plain[..at] + plain[at + 1..];
      }
    }

    /** fwx_api_flush_app_filter_rule */
    method Flush()
      requires Valid()
      modifies this
      ensures Valid() && plain == After(old(plain), FlushRules)
    {
      while rules != []
        invariant Valid()
      {
        rules, plain, count := rules[1..], plain[1..], count - 1;
      }
    }

    /** fwx_add_app_id_to_rule: the answer says only whether the rule exists. */
    method AddAppId(ruleId: int, appId: int, allocOk: bool) returns (ok: bool)
      requires Valid() && appId >= 0
      modifies this, repr
      ensures Valid() && plain == After(old(plain), AddApp(ruleId, appId, allocOk))
      ensures ok <==> IndexOf(old(plain), ruleId) < |old(plain)|
    {
      hide Rule.Valid, Rule.Plain, IndexOf, WithApp;
      var at := FindRule(ruleId);
      ok := at < |rules|;
      if ok {
        rules[at].AddApp(appId, allocOk);
        plain := plain[at := rules[at].Plain()];
      }
    }

    /** fwx_del_app_id_from_rule */
    method DeleteAppId(ruleId: int, appId: int) returns (ok: bool)
      requires Valid() && appId >= 0
      modifies this, repr
      ensures Valid() && repr == old(repr) && plain == After(old(plain), DeleteApps(ruleId, Number(appId)))
      ensures ok <==> Has(old(plain), ruleId, appId)
    {
      hide Rule.Valid, Rule.Plain, IndexOf, WithApps;
      var at := FindRule(ruleId);
      ok := at < |rules|;
      if ok {
        ok := rules[at].DeleteApp(appId);
        plain := plain[at := rules[at].Plain()];
      }
    }

    /** del_app_id_token_from_rule */
    method DeleteToken(ruleId: int, token: Token) returns (ok: bool)
      requires Valid() && Allowed(DeleteApps(ruleId, token))
      modifies this, repr
      ensures Valid() && plain == After(old(plain), DeleteApps(ruleId, token))
      ensures ok <==> match token
                      case Number(n) => Has(old(plain), ruleId, n)
                      case Range(start, end) => 0 < start <= end
                      case Single(n) => n > 0 && Has(old(plain), ruleId, n)
                      case Malformed => false
    {
      hide Valid, After, Has;
      match token
      case Number(n) => ok := DeleteAppId(ruleId, n);
      case Range(start, end) =>
        if start <= 0 || end < start {
          NothingDeleted(plain, ruleId, token);
          return false;
        }
        NothingDeleted(plain, ruleId, Range(start, start - 1));
        var i := start;
        while i <= end
          invariant start <= i <= end + 1 && Valid() && repr == old(repr)
          invariant plain == After(old(plain), DeleteApps(ruleId, Range(start, i - 1)))
        {
          OneMoreDeleted(old(plain), ruleId, start, i);
          var _ := DeleteAppId(ruleId, i);
          i := i + 1;
        }
        ok := true;
      case Single(n) =>
        if n > 0 {
          OneDeleted(plain, ruleId, n);
          ok := DeleteAppId(ruleId, n);
        } else {
          NothingDeleted(plain, ruleId, token);
          ok := false;
        }
      case Malformed =>
        NothingDeleted(plain, ruleId, token);
        ok := false;
    }

    /** fwx_api_mod_app_filter_rule */
    method ModifyRule(ruleId: int, m: Modification) returns (ok: bool)
      requires Valid() && RepresentableIn(m)
      modifies this, repr
      ensures Valid() && plain == After(old(plain), Modify(ruleId, m))
      ensures ok <==> IndexOf(old(plain), ruleId) < |old(plain)|
    {
      hide Rule.Valid, Rule.Plain, IndexOf, Modified;
      var at := FindRule(ruleId);
      ok := at < |rules|;
      if ok {
        rules[at].Modify(m);
        plain := plain[at := rules[at].Plain()];
      }
    }

    /** fwx_match_app_filter_rule: finds the newest of the rules that match, if there is one. */
    method Match(appId: int, mac: Mac) returns (found: bool, at: nat)
      requires Valid() && appId >= 0
      ensures found <==> exists i :: 0 <= i < |plain| && Matches(plain[i], appId, mac)
      ensures found ==> at < |rules| && Matches(plain[at], appId, mac)
      ensures found ==> forall i :: 0 <= i < |rules| && Matches(plain[i], appId, mac) ==> rules[i].born <= rules[at].born
    {
      found, at := false, 0;
      while at < |rules|
        invariant at <= |rules| && forall j :: 0 <= j < at ==> !Matches(plain[j], appId, mac)
      {
        found := rules[at].Match(appId, mac);
        if found {
          return;
        }
        at := at + 1;
      }
      found := false;
    }
  }

  ghost predicate Apart(rules: seq<Rule>, clock: nat) {
    && (forall i :: 0 <= i < |rules| ==> rules[i].born < clock)
    && (forall i, j :: 0 <= i < j < |rules| ==> Before(rules[i], rules[j]))
  }

  ghost predicate Before(newer: Rule, older: Rule) {
    && newer.born > older.born
    && newer.ruleId != older.ruleId
    && newer.macs != older.macs
    && newer.apps != older.apps
  }

  ghost predicate Owned(r: Rule, repr: set<object>) {
    r in repr && r.macs in repr && r.apps in repr
  }

  ghost predicate Shows(r: Rule, p: PlainRule)
    reads r, r.macs, r.apps
  {
    r.Valid() && r.Plain() == p
  }
}
