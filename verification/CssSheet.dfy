/**
 Stylesheets with custom properties, and what var() means in them: sections 2.3 and 3 of CSS
 Custom Properties for Cascading Variables Module Level 1, with @property registrations.
 */
module CssSheet {
  import opened Wrappers

  type Name = string

  /** A value: text with var() references, each with or without a fallback value. */
  datatype Value =
    | End
    | Text(text: string, rest: Value)
    | Var(name: Name, fallback: Option<Value>, rest: Value)

  /** Declarations in cascade order, each in some rule, and registrations. */
  datatype Item =
    | Custom(rule: nat, name: Name, value: Value)
    | Ordinary(rule: nat, prop: string, value: Value)
    | Property(name: Name, reg: Registration)

  datatype Registration = Registration(inherits: bool, universal: bool, initial: Option<string>)

  type Sheet = seq<Item>

  /** Every name that a var() in the value mentions, also inside fallbacks. */
  function Refs(v: Value): set<Name> {
    match v
    case End => {}
    case Text(_, rest) => Refs(rest)
    case Var(name, fallback, rest) => {name} + (if fallback.Some? then Refs(fallback.value) else {}) + Refs(rest)
  }

  /** The declaration of a custom property that wins on an element where these rules apply. */
  function Declared(sheet: Sheet, rules: set<nat>, n: Name): Option<Value> {
    if sheet == [] then None
    else
      var last := sheet[|sheet| - 1];
      if last.Custom? && last.name == n && last.rule in rules then Some(last.value)
      else Declared(sheet[..|sheet| - 1], rules, n)
  }

  function Registered(sheet: Sheet, n: Name): Option<Registration> {
    if sheet == [] then None
    else
      var last := sheet[|sheet| - 1];
      if last.Property? && last.name == n then Some(last.reg) else Registered(sheet[..|sheet| - 1], n)
  }

  function Names(sheet: Sheet): set<Name> {
    if sheet == [] then {}
    else
      var last := sheet[|sheet| - 1];
      (if last.Custom? then {last.name} else {}) + Names(sheet[..|sheet| - 1])
  }

  lemma {:induction false} DeclaredIsNamed(sheet: Sheet, rules: set<nat>, n: Name)
    requires Declared(sheet, rules, n).Some?
    ensures n in Names(sheet)
  {
    var last := sheet[|sheet| - 1];
    if !(last.Custom? && last.name == n && last.rule in rules) {
      DeclaredIsNamed(sheet[..|sheet| - 1], rules, n);
    }
  }

  // ----- dependency cycles

  /** On this element, the value of a mentions b. */
  predicate Edge(sheet: Sheet, rules: set<nat>, a: Name, b: Name) {
    var v := Declared(sheet, rules, a);
    v.Some? && b in Refs(v.value)
  }

  ghost predicate Path(sheet: Sheet, rules: set<nat>, p: seq<Name>) {
    forall i :: 0 <= i < |p| - 1 ==> Edge(sheet, rules, p[i], p[i + 1])
  }

  ghost predicate Reaches(sheet: Sheet, rules: set<nat>, a: Name, b: Name) {
    exists p: seq<Name> :: |p| >= 1 && p[0] == a && p[|p| - 1] == b && Path(sheet, rules, p)
  }

  ghost predicate OnCycle(sheet: Sheet, rules: set<nat>, n: Name) {
    exists p: seq<Name> :: |p| >= 2 && p[0] == n && p[|p| - 1] == n && Path(sheet, rules, p)
  }

  // ----- substitution

  /** The computed value of a custom property; None is the guaranteed-invalid value. The path gives
      the rules that apply to the element's ancestors, outermost first, and to the element, last.
      `open` holds the properties whose values are being substituted. */
  ghost function Computed(sheet: Sheet, path: seq<set<nat>>, n: Name, open: set<Name>): Option<string>
    requires path != []
    decreases |path|, 1, |Names(sheet) - open|, 0, End
  {
    var rules := path[|path| - 1];
    var v := Declared(sheet, rules, n);
    if v.None? then Unset(sheet, path, n)
    else if n in open || OnCycle(sheet, rules, n) then Invalid(sheet, path, n)
    else
      DeclaredIsNamed(sheet, rules, n);
      assert Names(sheet) - (open + {n}) < Names(sheet) - open by {
        assert n in Names(sheet) - open;
      }
      CardinalityLess(Names(sheet) - (open + {n}), Names(sheet) - open);
      var r := Substituted(sheet, path, v.value, open + {n});
      if r.None? then Invalid(sheet, path, n) else r
  }

  /** Section 3: each var() is replaced by the property's value, or else by its fallback with its
      own var() replaced, or else the whole value is invalid. */
  ghost function Substituted(sheet: Sheet, path: seq<set<nat>>, v: Value, open: set<Name>): Option<string>
    requires path != []
    decreases |path|, 1, |Names(sheet) - open|, 1, v
  {
    match v
    case End => Some("")
    case Text(text, rest) =>
      var r := Substituted(sheet, path, rest, open);
      if r.None? then None else Some(text + r.value)
    case Var(name, fallback, rest) =>
      var value := Computed(sheet, path, name, open);
      var here := if value.Some? then value
                  else if fallback.Some? then Substituted(sheet, path, fallback.value, open) else None;
      var r := Substituted(sheet, path, rest, open);
      if here.None? || r.None? then None else Some(here.value + r.value)
  }

  // No declaration: the inherited value, or the initial one.
  ghost function Unset(sheet: Sheet, path: seq<set<nat>>, n: Name): Option<string>
    requires path != []
    decreases |path|, 0, 0, 0, End
  {
    var reg := Registered(sheet, n);
    if (reg.Some? ==> reg.value.inherits) && |path| > 1 then Computed(sheet, path[..|path| - 1], n, {})
    else if reg.Some? then reg.value.initial else None
  }

  // Invalid at computed-value time.
  ghost function Invalid(sheet: Sheet, path: seq<set<nat>>, n: Name): Option<string>
    requires path != []
    decreases |path|, 0, 0, 1, End
  {
    var reg := Registered(sheet, n);
    if reg.None? || reg.value.universal then None else Unset(sheet, path, n)
  }

  lemma CardinalityLess<T>(a: set<T>, b: set<T>)
    requires a < b
    ensures |a| < |b|
  {
    var x :| x in b && x !in a;
    assert a <= b - {x};
    CardinalityLeq(a, b - {x});
  }

  lemma {:induction false} CardinalityLeq<T>(a: set<T>, b: set<T>)
    requires a <= b
    ensures |a| <= |b|
    decreases a
  {
    if a != {} {
      var x :| x in a;
      CardinalityLeq(a - {x}, b - {x});
    }
  }

  // ----- the set of open properties only serves termination

  /** None of the open properties can come up again while n is substituted. */
  ghost predicate Harmless(sheet: Sheet, rules: set<nat>, n: Name, open: set<Name>) {
    OnCycle(sheet, rules, n) || forall w :: w in open ==> !Reaches(sheet, rules, n, w)
  }

  lemma Prepend(sheet: Sheet, rules: set<nat>, n: Name, p: seq<Name>)
    requires p != [] && Path(sheet, rules, p) && Edge(sheet, rules, n, p[0])
    ensures Path(sheet, rules, [n] + p)
  {
    forall i | 0 <= i < |p| ensures Edge(sheet, rules, ([n] + p)[i], ([n] + p)[i + 1]) {
      if i > 0 {
        var j := i - 1;
        assert Edge(sheet, rules, p[j], p[j + 1]);
      }
    }
  }

  // What m reaches, n reaches too; and n itself in at least one step.
  lemma StepReaches(sheet: Sheet, rules: set<nat>, n: Name, m: Name, w: Name)
    requires Edge(sheet, rules, n, m) && Reaches(sheet, rules, m, w)
    ensures Reaches(sheet, rules, n, w) && (w == n ==> OnCycle(sheet, rules, n))
  {
    hide Edge;
    var p: seq<Name> :| |p| >= 1 && p[0] == m && p[|p| - 1] == w && Path(sheet, rules, p);
    Prepend(sheet, rules, n, p);
    var q := [n] + p;
    assert |q| >= 2 && q[0] == n && q[|q| - 1] == w;
  }

  lemma HarmlessStep(sheet: Sheet, rules: set<nat>, n: Name, m: Name, open: set<Name>)
    requires !OnCycle(sheet, rules, n) && Harmless(sheet, rules, n, open) && Edge(sheet, rules, n, m)
    ensures Harmless(sheet, rules, m, open + {n})
  {
    hide OnCycle, Reaches, Edge;
    forall w | w in open + {n} && Reaches(sheet, rules, m, w) ensures false {
      StepReaches(sheet, rules, n, m, w);
    }
  }

  lemma NotOpen(sheet: Sheet, rules: set<nat>, n: Name, open: set<Name>)
    requires !OnCycle(sheet, rules, n) && Harmless(sheet, rules, n, open)
    ensures n !in open
  {
    var p := [n];
    assert p[0] == n && p[|p| - 1] == n && Path(sheet, rules, p);
    assert Reaches(sheet, rules, n, n);
  }

  lemma {:induction false} ComputedOpen(sheet: Sheet, path: seq<set<nat>>, n: Name, open: set<Name>, open': set<Name>)
    requires path != []
    requires Harmless(sheet, path[|path| - 1], n, open) && Harmless(sheet, path[|path| - 1], n, open')
    ensures Computed(sheet, path, n, open) == Computed(sheet, path, n, open')
    decreases |Names(sheet) - open|, 0, End
  {
    hide Harmless, OnCycle, Edge;
    var rules := path[|path| - 1];
    var v := Declared(sheet, rules, n);
    if v.Some? && !OnCycle(sheet, rules, n) {
      NotOpen(sheet, rules, n, open);
      NotOpen(sheet, rules, n, open');
      DeclaredIsNamed(sheet, rules, n);
      assert n in Names(sheet) - open;
      CardinalityLess(Names(sheet) - (open + {n}), Names(sheet) - open);
      RefsHarmless(sheet, rules, n, v.value, open);
      RefsHarmless(sheet, rules, n, v.value, open');
      SubstitutedOpen(sheet, path, v.value, open + {n}, open' + {n});
    }
  }

  lemma RefsHarmless(sheet: Sheet, rules: set<nat>, n: Name, v: Value, open: set<Name>)
    requires !OnCycle(sheet, rules, n) && Harmless(sheet, rules, n, open) && Declared(sheet, rules, n) == Some(v)
    ensures forall m :: m in Refs(v) ==> Harmless(sheet, rules, m, open + {n})
  {
    forall m | m in Refs(v) ensures Harmless(sheet, rules, m, open + {n}) {
      HarmlessStep(sheet, rules, n, m, open);
    }
  }

  lemma {:induction false} SubstitutedOpen(sheet: Sheet, path: seq<set<nat>>, v: Value, open: set<Name>, open': set<Name>)
    requires path != []
    requires forall m :: m in Refs(v) ==>
               Harmless(sheet, path[|path| - 1], m, open) && Harmless(sheet, path[|path| - 1], m, open')
    ensures Substituted(sheet, path, v, open) == Substituted(sheet, path, v, open')
    decreases |Names(sheet) - open|, 1, v
  {
    hide Harmless;
    match v
    case End =>
    case Text(_, rest) =>
      assert Refs(rest) <= Refs(v);
      SubstitutedOpen(sheet, path, rest, open, open');
    case Var(name, fallback, rest) =>
      assert name in Refs(v) && Refs(rest) <= Refs(v);
      ComputedOpen(sheet, path, name, open, open');
      if fallback.Some? {
        assert Refs(fallback.value) <= Refs(v);
        SubstitutedOpen(sheet, path, fallback.value, open, open');
      }
      SubstitutedOpen(sheet, path, rest, open, open');
  }

  /** The computed value is the one the specification describes: without a declaration the inherited
      or initial value, on a cycle invalid, and otherwise the declared value with every var() replaced
      by what var() stands for. */
  lemma ComputedBySpec(sheet: Sheet, path: seq<set<nat>>, n: Name)
    requires path != []
    ensures var v := Declared(sheet, path[|path| - 1], n);
            Computed(sheet, path, n, {})
            == if v.None? then Unset(sheet, path, n)
               else if OnCycle(sheet, path[|path| - 1], n) || Substituted(sheet, path, v.value, {}).None?
               then Invalid(sheet, path, n)
               else Substituted(sheet, path, v.value, {})
  {
    var rules := path[|path| - 1];
    var v := Declared(sheet, rules, n);
    if v.Some? && !OnCycle(sheet, rules, n) {
      RefsHarmless(sheet, rules, n, v.value, {});
      SubstitutedOpen(sheet, path, v.value, {} + {n}, {});
    }
  }
}
