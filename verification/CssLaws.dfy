/**
 The stylesheet pruning and the meaning of var() spelled out on the sheet itself: which names are
 mentioned, reached and kept, which items stay and in what order, and which declaration counts.
 */
module CssLaws {
  import opened Wrappers
  import opened CssSheet
  import opened CssPrune

  // ----- what a value mentions

  /** The part of a value behind these turns: into the fallback (true) or on to the rest (false). */
  function At(v: Value, turns: seq<bool>): Option<Value> {
    if turns == [] then Some(v)
    else
      match v
      case End => None
      case Text(_, rest) => if turns[0] then None else At(rest, turns[1..])
      case Var(_, fallback, rest) =>
        if !turns[0] then At(rest, turns[1..])
        else if fallback.Some? then At(fallback.value, turns[1..]) else None
  }

  ghost predicate MentionedAt(v: Value, n: Name, turns: seq<bool>) {
    At(v, turns).Some? && At(v, turns).value.Var? && At(v, turns).value.name == n
  }

  /** A name is mentioned exactly when some var() in the value has it, also inside fallbacks. */
  lemma MentionsExactly(v: Value, n: Name)
    ensures n in Refs(v) <==> exists turns :: MentionedAt(v, n, turns)
  {
    if n in Refs(v) {
      var turns := FindMention(v, n);
    }
    if turns :| MentionedAt(v, n, turns) {
      MentionCounts(v, n, turns);
    }
  }

  lemma {:induction false} FindMention(v: Value, n: Name) returns (turns: seq<bool>)
    requires n in Refs(v)
    ensures MentionedAt(v, n, turns)
  {
    if v.Var? && v.name == n {
      turns := [];
    } else if v.Var? && v.fallback.Some? && n in Refs(v.fallback.value) {
      var further := FindMention(v.fallback.value, n);
      turns := [true] + further;
      assert turns[1..] == further;
    } else {
      var further := FindMention(v.rest, n);
      turns := [false] + further;
      assert turns[1..] == further;
    }
  }

  lemma {:induction false} MentionCounts(v: Value, n: Name, turns: seq<bool>)
    requires MentionedAt(v, n, turns)
    ensures n in Refs(v)
    decreases |turns|
  {
    if turns != [] {
      MentionCounts(if turns[0] then v.fallback.value else v.rest, n, turns[1..]);
    }
  }

  // ----- what is kept

  /** An ordinary declaration mentions the first name, and a declaration of each name on the chain
      mentions the next. */
  ghost predicate Chain(sheet: Sheet, p: seq<Name>) {
    && p != []
    && (exists k :: 0 <= k < |sheet| && sheet[k].Ordinary? && p[0] in Refs(sheet[k].value))
    && (forall i :: 0 <= i < |p| - 1 ==> Leads(sheet, p[i], p[i + 1]))
  }

  ghost predicate Leads(sheet: Sheet, a: Name, b: Name) {
    exists k :: 0 <= k < |sheet| && sheet[k].Custom? && sheet[k].name == a && b in Refs(sheet[k].value)
  }

  ghost predicate Reached(sheet: Sheet, n: Name) {
    exists p: seq<Name> :: Chain(sheet, p) && p[|p| - 1] == n
  }

  lemma {:induction false} RootsExactly(sheet: Sheet, n: Name)
    ensures n in Roots(sheet) <==> exists k :: 0 <= k < |sheet| && sheet[k].Ordinary? && n in Refs(sheet[k].value)
  {
    if sheet != [] {
      RootsExactly(sheet[1..], n);
      assert forall k :: 0 <= k < |sheet| - 1 ==> sheet[1..][k] == sheet[k + 1];
      if k :| 0 <= k < |sheet| && sheet[k].Ordinary? && n in Refs(sheet[k].value) {
        assert k > 0 ==> sheet[1..][k - 1] == sheet[k];
      }
    }
  }

  lemma {:induction false} EdgesExactly(sheet: Sheet, a: Name, b: Name)
    ensures b in Edges(sheet, a) <==> Leads(sheet, a, b)
  {
    if sheet != [] {
      EdgesExactly(sheet[1..], a, b);
      assert forall k :: 0 <= k < |sheet| - 1 ==> sheet[1..][k] == sheet[k + 1];
      if k :| 0 <= k < |sheet| && sheet[k].Custom? && sheet[k].name == a && b in Refs(sheet[k].value) {
        assert k > 0 ==> sheet[1..][k - 1] == sheet[k];
      }
    }
  }

  /** The walk keeps exactly the names at the end of a chain of mentions that starts in an ordinary
      declaration. */
  lemma KeepsTheReached(sheet: Sheet, keep: set<Name>, n: Name)
    requires Least(sheet, keep)
    ensures n in keep <==> Reached(sheet, n)
  {
    var some := set m | m in keep && Reached(sheet, m);
    forall m | m in Roots(sheet) ensures m in some {
      RootsExactly(sheet, m);
      assert Chain(sheet, [m]);
      assert [m][|[m]| - 1] == m;
    }
    forall m, m' | m in some && m' in Edges(sheet, m) ensures m' in some {
      EdgesExactly(sheet, m, m');
      LongerChain(sheet, m, m');
    }
    assert Closed(sheet, some);
    if Reached(sheet, n) {
      var p: seq<Name> :| Chain(sheet, p) && p[|p| - 1] == n;
      ChainIsKept(sheet, keep, p);
    }
  }

  lemma LongerChain(sheet: Sheet, m: Name, m': Name)
    requires Reached(sheet, m) && Leads(sheet, m, m')
    ensures Reached(sheet, m')
  {
    hide Leads;
    var p: seq<Name> :| Chain(sheet, p) && p[|p| - 1] == m;
    var q := p + [m'];
    assert Chain(sheet, q);
    assert q[|q| - 1] == m';
  }

  lemma {:induction false} ChainIsKept(sheet: Sheet, keep: set<Name>, p: seq<Name>)
    requires Roots(sheet) <= keep && Closed(sheet, keep) && Chain(sheet, p)
    ensures p[|p| - 1] in keep
    decreases |p|
  {
    if |p| == 1 {
      RootsExactly(sheet, p[0]);
    } else {
      var q := p[..|p| - 1];
      forall i | 0 <= i < |q| - 1 ensures Leads(sheet, q[i], q[i + 1]) {
        assert Leads(sheet, p[i], p[i + 1]);
      }
      ChainIsKept(sheet, keep, q);
      assert Leads(sheet, p[|p| - 2], p[|p| - 2 + 1]);
      EdgesExactly(sheet, p[|p| - 2], p[|p| - 1]);
    }
  }

  // ----- which declaration counts

  /** The declaration that counts is the last one of that name in a rule that applies. */
  lemma {:induction false} LastWins(sheet: Sheet, rules: set<nat>, n: Name, k: nat)
    requires k < |sheet| && sheet[k].Custom? && sheet[k].name == n && sheet[k].rule in rules
    requires forall j :: k < j < |sheet| ==> !(sheet[j].Custom? && sheet[j].name == n && sheet[j].rule in rules)
    ensures Declared(sheet, rules, n) == Some(sheet[k].value)
    decreases |sheet|
  {
    if k < |sheet| - 1 {
      LastWins(sheet[..|sheet| - 1], rules, n, k);
    }
  }

  lemma {:induction false} NoneDeclared(sheet: Sheet, rules: set<nat>, n: Name)
    ensures Declared(sheet, rules, n).None?
            <==> forall j :: 0 <= j < |sheet| ==>
                   !(sheet[j].Custom? && sheet[j].name == n && sheet[j].rule in rules)
  {
    if sheet != [] {
      var before := sheet[..|sheet| - 1];
      NoneDeclared(before, rules, n);
      assert forall j :: 0 <= j < |before| ==> before[j] == sheet[j];
    }
  }

  /** The same for registrations, whatever the rule. */
  lemma {:induction false} LastRegistration(sheet: Sheet, n: Name, k: nat)
    requires k < |sheet| && sheet[k].Property? && sheet[k].name == n
    requires forall j :: k < j < |sheet| ==> !(sheet[j].Property? && sheet[j].name == n)
    ensures Registered(sheet, n) == Some(sheet[k].reg)
    decreases |sheet|
  {
    if k < |sheet| - 1 {
      LastRegistration(sheet[..|sheet| - 1], n, k);
    }
  }

  lemma {:induction false} NoneRegistered(sheet: Sheet, n: Name)
    ensures Registered(sheet, n).None?
            <==> forall j :: 0 <= j < |sheet| ==> !(sheet[j].Property? && sheet[j].name == n)
  {
    if sheet != [] {
      var before := sheet[..|sheet| - 1];
      NoneRegistered(before, n);
      assert forall j :: 0 <= j < |before| ==> before[j] == sheet[j];
    }
  }

  // ----- what var() stands for

  /** A property with a cycle of mentions through it on this element: a list of names that begins and
      ends with it, the winning declaration of each mentioning the next. */
  ghost predicate Circular(sheet: Sheet, rules: set<nat>, p: seq<Name>) {
    forall i :: 0 <= i < |p| - 1 ==>
      Declared(sheet, rules, p[i]).Some? && p[i + 1] in Refs(Declared(sheet, rules, p[i]).value)
  }

  lemma PathIsCircular(sheet: Sheet, rules: set<nat>, p: seq<Name>)
    ensures Path(sheet, rules, p) <==> Circular(sheet, rules, p)
  {
    if Path(sheet, rules, p) {
      forall i | 0 <= i < |p| - 1
        ensures Declared(sheet, rules, p[i]).Some? && p[i + 1] in Refs(Declared(sheet, rules, p[i]).value)
      {
        assert Edge(sheet, rules, p[i], p[i + 1]);
      }
    }
  }

  lemma OnCycleExactly(sheet: Sheet, rules: set<nat>, n: Name)
    ensures OnCycle(sheet, rules, n)
            <==> exists p: seq<Name> :: |p| >= 2 && p[0] == n && p[|p| - 1] == n && Circular(sheet, rules, p)
  {
    if OnCycle(sheet, rules, n) {
      var p: seq<Name> :| |p| >= 2 && p[0] == n && p[|p| - 1] == n && Path(sheet, rules, p);
      PathIsCircular(sheet, rules, p);
    }
    if p: seq<Name> :| |p| >= 2 && p[0] == n && p[|p| - 1] == n && Circular(sheet, rules, p) {
      PathIsCircular(sheet, rules, p);
    }
  }

  /** Without a declaration a property is inherited where it may be, and else has its initial value; a
      property that is not registered inherits and has no initial value. */
  lemma Undeclared(sheet: Sheet, path: seq<set<nat>>, n: Name, reg: Option<Registration>)
    requires path != [] && Declared(sheet, path[|path| - 1], n).None? && Registered(sheet, n) == reg
    ensures (reg == None || (exists u, i :: reg == Some(Registration(true, u, i)))) && |path| > 1 ==>
              Computed(sheet, path, n, {}) == Computed(sheet, path[..|path| - 1], n, {})
    ensures reg == None && |path| == 1 ==> Computed(sheet, path, n, {}) == None
    ensures forall u, i :: reg == Some(Registration(true, u, i)) && |path| == 1 ==> Computed(sheet, path, n, {}) == i
    ensures forall u, i :: reg == Some(Registration(false, u, i)) ==> Computed(sheet, path, n, {}) == i
  {
  }

  /** A declaration that is circular or cannot be substituted: nothing comes of it if the property is
      not registered or takes any value; otherwise the same as without the declaration. */
  lemma Undone(sheet: Sheet, path: seq<set<nat>>, n: Name, reg: Option<Registration>)
    requires path != [] && Declared(sheet, path[|path| - 1], n).Some? && Registered(sheet, n) == reg
    requires || OnCycle(sheet, path[|path| - 1], n)
             || Substituted(sheet, path, Declared(sheet, path[|path| - 1], n).value, {}).None?
    ensures reg == None || (exists h, i :: reg == Some(Registration(h, true, i))) ==> Computed(sheet, path, n, {}) == None
    ensures forall i :: reg == Some(Registration(false, false, i)) ==> Computed(sheet, path, n, {}) == i
    ensures forall i :: reg == Some(Registration(true, false, i)) ==>
              Computed(sheet, path, n, {}) == if |path| > 1 then Computed(sheet, path[..|path| - 1], n, {}) else i
  {
    ComputedBySpec(sheet, path, n);
  }

  /** A value with another behind it. */
  function Joined(v: Value, w: Value): Value {
    match v
    case End => w
    case Text(text, rest) => Text(text, Joined(rest, w))
    case Var(name, fallback, rest) => Var(name, fallback, Joined(rest, w))
  }

  /** Values are substituted piece by piece, in the order of the text, and one piece that cannot be
      substituted spoils the whole. */
  lemma {:induction false} JoinedValues(sheet: Sheet, path: seq<set<nat>>, v: Value, w: Value)
    requires path != []
    ensures var a, b := Substituted(sheet, path, v, {}), Substituted(sheet, path, w, {});
            Substituted(sheet, path, Joined(v, w), {})
            == if a.Some? && b.Some? then Some(a.value + b.value) else None
  {
    match v
    case End =>
      var b := Substituted(sheet, path, w, {});
      assert b.Some? ==> "" + b.value == b.value;
    case Text(text, rest) =>
      JoinedValues(sheet, path, rest, w);
      var a, b := Substituted(sheet, path, rest, {}), Substituted(sheet, path, w, {});
      assert a.Some? && b.Some? ==> text + (a.value + b.value) == (text + a.value) + b.value;
    case Var(name, fallback, rest) =>
      JoinedValues(sheet, path, rest, w);
      var a, b := Substituted(sheet, path, rest, {}), Substituted(sheet, path, w, {});
      var c := Computed(sheet, path, name, {});
      var here := if c.Some? then c
                  else if fallback.Some? then Substituted(sheet, path, fallback.value, {}) else None;
      assert here.Some? && a.Some? && b.Some? ==> here.value + (a.value + b.value) == (here.value + a.value) + b.value;
  }

  /** One piece: text stands for itself, and var() for the property's value or else its fallback. */
  lemma Pieces(sheet: Sheet, path: seq<set<nat>>, text: string, n: Name, f: Value)
    requires path != []
    ensures Substituted(sheet, path, Text(text, End), {}) == Some(text)
    ensures Substituted(sheet, path, Var(n, None, End), {}) == Computed(sheet, path, n, {})
    ensures var c := Computed(sheet, path, n, {});
            Substituted(sheet, path, Var(n, Some(f), End), {})
            == if c.Some? then c else Substituted(sheet, path, f, {})
  {
    assert text + "" == text;
    var c, d := Computed(sheet, path, n, {}), Substituted(sheet, path, f, {});
    assert c.Some? ==> c.value + "" == c.value;
    assert d.Some? ==> d.value + "" == d.value;
  }
}
