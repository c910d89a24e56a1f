/**
 The login stylesheet pruning of the theme builds: a walk over the references between custom
 properties, and the removal of every declaration and registration that it did not reach.
 */
module CssPrune {
  import opened CssSheet
  import opened Wrappers

  // ----- what the walk computes

  /** Names mentioned by ordinary declarations. */
  function Roots(sheet: Sheet): set<Name> {
    if sheet == [] then {}
    else (if sheet[0].Ordinary? then Refs(sheet[0].value) else {}) + Roots(sheet[1..])
  }

  /** Names mentioned by any declaration of this property. */
  function Edges(sheet: Sheet, n: Name): set<Name> {
    if sheet == [] then {}
    else (if sheet[0].Custom? && sheet[0].name == n then Refs(sheet[0].value) else {}) + Edges(sheet[1..], n)
  }

  predicate Closed(sheet: Sheet, names: set<Name>) { forall n :: n in names ==> Edges(sheet, n) <= names }

  /** The least set that holds the roots and is closed under references. */
  ghost predicate Least(sheet: Sheet, keep: set<Name>) {
    && Roots(sheet) <= keep && Closed(sheet, keep)
    && forall other: set<Name> :: Roots(sheet) <= other && Closed(sheet, other) ==> keep <= other
  }

  // ----- what is removed

  predicate Kept(item: Item, keep: set<Name>) { item.Ordinary? || item.name in keep }

  function Pruned(sheet: Sheet, keep: set<Name>): Sheet {
    if sheet == [] then []
    else
      var last := sheet[|sheet| - 1];
      Pruned(sheet[..|sheet| - 1], keep) + (if Kept(last, keep) then [last] else [])
  }

  /** What is left of a sheet: its items at these places, in their order, which are the places of the
      ordinary declarations and of the custom declarations and registrations of kept names. */
  predicate Picked(sheet: Sheet, keep: set<Name>, left: Sheet, places: seq<nat>) {
    && |places| == |left|
    && (forall i, j :: 0 <= i < j < |places| ==> places[i] < places[j])
    && (forall i :: 0 <= i < |places| ==> places[i] < |sheet| && left[i] == sheet[places[i]])
    && (forall k :: 0 <= k < |sheet| ==>
          (k in places <==> match sheet[k]
                            case Ordinary(_, _, _) => true
                            case Custom(_, name, _) => name in keep
                            case Property(name, _) => name in keep))
  }

  lemma {:induction false} PrunedInOrder(sheet: Sheet, keep: set<Name>) returns (places: seq<nat>)
    ensures Picked(sheet, keep, Pruned(sheet, keep), places)
  {
    if sheet == [] {
      places := [];
    } else {
      hide Picked;
      var k := |sheet| - 1;
      places := PrunedInOrder(sheet[..k], keep);
      PickedSnoc(sheet[..k], keep, Pruned(sheet[..k], keep), places, sheet[k]);
      assert sheet[..k] + [sheet[k]] == sheet;
      places := if Kept(sheet[k], keep) then places + [k] else places;
    }
  }

  lemma PickedSnoc(sheet: Sheet, keep: set<Name>, left: Sheet, places: seq<nat>, item: Item)
    requires Picked(sheet, keep, left, places)
    ensures var stays := item.Ordinary? || (item.Custom? && item.name in keep) || (item.Property? && item.name in keep);
            if stays then Picked(sheet + [item], keep, left + [item], places + [|sheet|])
            else Picked(sheet + [item], keep, left + [], places)
  {
    var longer := sheet + [item];
    assert forall k :: 0 <= k < |sheet| ==> longer[k] == sheet[k];
    assert left + [] == left;
    assert |sheet| !in places;
    assert forall k :: 0 <= k < |longer| ==> (k in places + [|sheet|] <==> k in places || k == |sheet|);
  }

  // ----- meaning is preserved

  /** Two sheets that look the same to anyone who only asks for these names, of which the values of
      these names mention no others. */
  ghost predicate Alike(a: Sheet, b: Sheet, names: set<Name>) {
    && (forall n :: n in names ==> Registered(a, n) == Registered(b, n))
    && (forall rules: set<nat>, n :: n in names ==> Declared(a, rules, n) == Declared(b, rules, n))
    && (forall rules: set<nat>, n :: n in names && Declared(a, rules, n).Some?
                                     ==> Refs(Declared(a, rules, n).value) <= names)
  }

  // A path from one of the names stays among them, and is a path of the other sheet too.
  lemma {:induction false} PathAlike(a: Sheet, b: Sheet, names: set<Name>, rules: set<nat>, p: seq<Name>)
    requires Alike(a, b, names) && |p| >= 1 && p[0] in names
    requires Path(a, rules, p) || Path(b, rules, p)
    ensures Path(a, rules, p) && Path(b, rules, p) && forall i :: 0 <= i < |p| ==> p[i] in names
    decreases |p|
  {
    if |p| > 1 {
      assert Declared(a, rules, p[0]) == Declared(b, rules, p[0]);
      if Path(a, rules, p) {
        assert Edge(a, rules, p[0], p[0 + 1]);
      } else {
        assert Edge(b, rules, p[0], p[0 + 1]);
      }
      forall i | 0 <= i < |p| - 2
        ensures Path(a, rules, p) ==> Edge(a, rules, p[1..][i], p[1..][i + 1])
        ensures Path(b, rules, p) ==> Edge(b, rules, p[1..][i], p[1..][i + 1])
      {
        var j := i + 1;
        assert p[1..][i] == p[j] && p[1..][i + 1] == p[j + 1];
      }
      PathAlike(a, b, names, rules, p[1..]);
      forall i | 0 <= i < |p| - 1 ensures Edge(a, rules, p[i], p[i + 1]) && Edge(b, rules, p[i], p[i + 1]) && p[i] in names {
        if i > 0 {
          var j := i - 1;
          assert Edge(a, rules, p[1..][j], p[1..][j + 1]) && Edge(b, rules, p[1..][j], p[1..][j + 1]);
        }
      }
      assert p[|p| - 1] == p[1..][|p| - 2];
    }
  }

  lemma CycleAlike(a: Sheet, b: Sheet, names: set<Name>, rules: set<nat>, n: Name)
    requires Alike(a, b, names) && n in names
    ensures OnCycle(a, rules, n) <==> OnCycle(b, rules, n)
  {
    if OnCycle(a, rules, n) {
      var p: seq<Name> :| |p| >= 2 && p[0] == n && p[|p| - 1] == n && Path(a, rules, p);
      PathAlike(a, b, names, rules, p);
    }
    if OnCycle(b, rules, n) {
      var p: seq<Name> :| |p| >= 2 && p[0] == n && p[|p| - 1] == n && Path(b, rules, p);
      PathAlike(a, b, names, rules, p);
    }
  }

  lemma {:induction false} ComputedAlike(a: Sheet, b: Sheet, names: set<Name>, path: seq<set<nat>>, n: Name, open: set<Name>)
    requires Alike(a, b, names) && n in names && path != []
    ensures Computed(a, path, n, open) == Computed(b, path, n, open)
    decreases |path|, 1, |Names(a) - open|, 0, End
  {
    var rules := path[|path| - 1];
    var v := Declared(a, rules, n);
    CycleAlike(a, b, names, rules, n);
    if v.None? || n in open || OnCycle(a, rules, n) {
      UnsetAlike(a, b, names, path, n);
    } else {
      DeclaredIsNamed(a, rules, n);
      assert n in Names(a) - open;
      CardinalityLess(Names(a) - (open + {n}), Names(a) - open);
      SubstitutedAlike(a, b, names, path, v.value, open + {n});
      UnsetAlike(a, b, names, path, n);
    }
  }

  lemma {:induction false} SubstitutedAlike(a: Sheet, b: Sheet, names: set<Name>, path: seq<set<nat>>, v: Value,
                                            open: set<Name>)
    requires Alike(a, b, names) && Refs(v) <= names && path != []
    ensures Substituted(a, path, v, open) == Substituted(b, path, v, open)
    decreases |path|, 1, |Names(a) - open|, 1, v
  {
    match v
    case End =>
    case Text(_, rest) => SubstitutedAlike(a, b, names, path, rest, open);
    case Var(name, fallback, rest) =>
      ComputedAlike(a, b, names, path, name, open);
      if fallback.Some? {
        SubstitutedAlike(a, b, names, path, fallback.value, open);
      }
      SubstitutedAlike(a, b, names, path, rest, open);
  }

  lemma {:induction false} UnsetAlike(a: Sheet, b: Sheet, names: set<Name>, path: seq<set<nat>>, n: Name)
    requires Alike(a, b, names) && n in names && path != []
    ensures Unset(a, path, n) == Unset(b, path, n) && Invalid(a, path, n) == Invalid(b, path, n)
    decreases |path|, 0, 0, 0, End
  {
    if |path| > 1 {
      ComputedAlike(a, b, names, path[..|path| - 1], n, {});
    }
  }

  lemma {:induction false} DeclaredRefs(sheet: Sheet, rules: set<nat>, n: Name)
    ensures var v := Declared(sheet, rules, n); v.Some? ==> Refs(v.value) <= Edges(sheet, n)
  {
    if sheet != [] {
      var k := |sheet| - 1;
      DeclaredRefs(sheet[..k], rules, n);
      assert sheet == sheet[..k] + [sheet[k]];
      EdgesPlus(sheet[..k], [sheet[k]], n);
    }
  }

  lemma {:induction false} EdgesPlus(a: Sheet, b: Sheet, n: Name)
    ensures Edges(a + b, n) == Edges(a, n) + Edges(b, n)
    ensures Roots(a + b) == Roots(a) + Roots(b)
  {
    if a == [] {
      assert a + b == b;
    } else {
      EdgesPlus(a[1..], b, n);
      assert (a + b)[1..] == a[1..] + b;
    }
  }

  lemma {:induction false} OrdinaryRefs(sheet: Sheet, item: Item)
    requires item in sheet && item.Ordinary?
    ensures Refs(item.value) <= Roots(sheet)
  {
    if item != sheet[0] {
      OrdinaryRefs(sheet[1..], item);
    }
  }

  // Looking up a kept name does not notice the pruning, nor declarations that come after it.
  lemma {:induction false} PrunedLookup(sheet: Sheet, keep: set<Name>, rules: set<nat>, n: Name)
    requires n in keep
    ensures Declared(Pruned(sheet, keep), rules, n) == Declared(sheet, rules, n)
    ensures Registered(Pruned(sheet, keep), n) == Registered(sheet, n)
  {
    if sheet != [] {
      var k := |sheet| - 1;
      PrunedLookup(sheet[..k], keep, rules, n);
      var before := Pruned(sheet[..k], keep);
      if Kept(sheet[k], keep) {
        assert (before + [sheet[k]])[..|before|] == before;
      } else {
        assert before + [] == before;
      }
    }
  }

  lemma {:induction false} LookupPlus(a: Sheet, b: Sheet, rules: set<nat>, n: Name)
    ensures Declared(a + b, rules, n)
         == if Declared(b, rules, n).Some? then Declared(b, rules, n) else Declared(a, rules, n)
    ensures Registered(a + b, n) == if Registered(b, n).Some? then Registered(b, n) else Registered(a, n)
  {
    if b == [] {
      assert a + b == a;
    } else {
      var k := |b| - 1;
      LookupPlus(a, b[..k], rules, n);
      assert (a + b)[..|a + b| - 1] == a + b[..k];
    }
  }

  lemma PrunedAlike(sheet: Sheet, keep: set<Name>, extra: Sheet)
    requires Closed(sheet, keep) && Closed(extra, keep)
    ensures Alike(sheet + extra, Pruned(sheet, keep) + extra, keep)
  {
    forall rules: set<nat>, n | n in keep
      ensures var v := Declared(sheet + extra, rules, n);
              && v == Declared(Pruned(sheet, keep) + extra, rules, n)
              && (v.Some? ==> Refs(v.value) <= keep)
    {
      PrunedLookup(sheet, keep, rules, n);
      LookupPlus(sheet, extra, rules, n);
      LookupPlus(Pruned(sheet, keep), extra, rules, n);
      DeclaredRefs(sheet, rules, n);
      DeclaredRefs(extra, rules, n);
    }
    forall n | n in keep ensures Registered(sheet + extra, n) == Registered(Pruned(sheet, keep) + extra, n) {
      PrunedLookup(sheet, keep, {}, n);
      LookupPlus(sheet, extra, {}, n);
      LookupPlus(Pruned(sheet, keep), extra, {}, n);
    }
  }

  /** Pruning preserves meaning: on every element, every ordinary declaration of the sheet has the
      same substituted value before and after. This also holds when declarations are added at
      render time, as long as they mention no names that were pruned. */
  lemma PruningPreservesMeaning(sheet: Sheet, keep: set<Name>, extra: Sheet, path: seq<set<nat>>, item: Item)
    requires Roots(sheet) <= keep && Closed(sheet, keep) && Closed(extra, keep)
    requires item in sheet && item.Ordinary? && path != []
    ensures item in Pruned(sheet, keep)
    ensures Substituted(sheet + extra, path, item.value, {})
         == Substituted(Pruned(sheet, keep) + extra, path, item.value, {})
  {
    PrunedAlike(sheet, keep, extra);
    OrdinaryRefs(sheet, item);
    SubstitutedAlike(sheet + extra, Pruned(sheet, keep) + extra, keep, path, item.value, {});
    PrunedMembers(sheet, keep, item);
  }

  lemma {:induction false} PrunedMembers(sheet: Sheet, keep: set<Name>, item: Item)
    ensures item in Pruned(sheet, keep)
            <==> item in sheet && match item
                                  case Ordinary(_, _, _) => true
                                  case Custom(_, name, _) => name in keep
                                  case Property(name, _) => name in keep
  {
    if sheet != [] {
      var k := |sheet| - 1;
      PrunedMembers(sheet[..k], keep, item);
      assert item in sheet <==> item in sheet[..k] || item == sheet[k];
    }
  }

  // ----- pruning twice

  lemma {:induction false} PrunedGraph(sheet: Sheet, keep: set<Name>, n: Name)
    ensures Roots(Pruned(sheet, keep)) == Roots(sheet)
    ensures Edges(Pruned(sheet, keep), n) == if n in keep then Edges(sheet, n) else {}
  {
    if sheet != [] {
      var k := |sheet| - 1;
      var last := [sheet[k]];
      PrunedGraph(sheet[..k], keep, n);
      assert sheet == sheet[..k] + last;
      EdgesPlus(sheet[..k], last, n);
      EdgesPlus(Pruned(sheet[..k], keep), if Kept(sheet[k], keep) then last else [], n);
    }
  }

  lemma {:induction false} PrunedAgain(sheet: Sheet, keep: set<Name>)
    ensures Pruned(Pruned(sheet, keep), keep) == Pruned(sheet, keep)
  {
    if sheet != [] {
      var k := |sheet| - 1;
      PrunedAgain(sheet[..k], keep);
      var before := Pruned(sheet[..k], keep);
      if Kept(sheet[k], keep) {
        assert (before + [sheet[k]])[..|before|] == before;
      } else {
        assert before + [] == before;
      }
    }
  }

  /** The walk over the pruned sheet reaches what it reached before, so pruning it again changes nothing. */
  lemma PruningIsIdempotent(sheet: Sheet, keep: set<Name>, keep': set<Name>)
    requires Least(sheet, keep) && Least(Pruned(sheet, keep), keep')
    ensures keep' == keep && Pruned(Pruned(sheet, keep), keep') == Pruned(sheet, keep)
  {
    var pruned := Pruned(sheet, keep);
    forall n ensures Roots(pruned) == Roots(sheet) && Edges(pruned, n) == if n in keep then Edges(sheet, n) else {} {
      PrunedGraph(sheet, keep, n);
    }
    assert Closed(pruned, keep);
    assert keep' <= keep;
    assert Closed(sheet, keep');
    PrunedAgain(sheet, keep);
  }

  // ----- the walk

  function Deps(edges: map<Name, set<Name>>, n: Name): set<Name> { if n in edges then edges[n] else {} }

  lemma GraphSnoc(sheet: Sheet, i: nat, n: Name)
    requires i < |sheet|
    ensures var item := sheet[i];
            && Roots(sheet[..i + 1]) == Roots(sheet[..i]) + (if item.Ordinary? then Refs(item.value) else {})
            && Edges(sheet[..i + 1], n)
               == Edges(sheet[..i], n) + (if item.Custom? && item.name == n then Refs(item.value) else {})
  {
    EdgesPlus(sheet[..i], [sheet[i]], n);
    assert sheet[..i + 1] == sheet[..i] + [sheet[i]];
    assert [sheet[i]][1..] == [];
  }

  /** The first loop: roots from ordinary declarations, edges from custom properties. */
  method Collect(sheet: Sheet) returns (roots: set<Name>, edges: map<Name, set<Name>>)
    ensures roots == Roots(sheet) && forall n :: Deps(edges, n) == Edges(sheet, n)
  {
    roots, edges := {}, map[];
    for i := 0 to |sheet|
      invariant roots == Roots(sheet[..i]) && forall n :: Deps(edges, n) == Edges(sheet[..i], n)
    {
      var item := sheet[i];
      GraphSnoc(sheet, i, "");
      ghost var before := edges;
      if item.Ordinary? {
        roots := roots + Refs(item.value);
      } else if item.Custom? {
        edges := edges[item.name := Deps(edges, item.name) + Refs(item.value)];
      }
      forall n: Name ensures Deps(edges, n) == Edges(sheet[..i + 1], n) {
        GraphSnoc(sheet, i, n);
        assert Deps(before, n) == Edges(sheet[..i], n);
      }
    }
    assert sheet[..|sheet|] == sheet;
  }

  // The spread of a set into the stack, in some order.
  method Listed(names: set<Name>) returns (list: seq<Name>)
    ensures forall x :: x in list <==> x in names
  {
    list := [];
    var rest := names;
    while rest != {}
      invariant forall x :: x in names <==> x in list || x in rest
      decreases rest
    {
      var x :| x in rest;
      list, rest := list + [x], rest - {x};
    }
  }

  // Names a closed set has to contain once it contains these.
  ghost predicate Forced(sheet: Sheet, names: set<Name>) {
    forall other: set<Name> :: Roots(sheet) <= other && Closed(sheet, other) ==> names <= other
  }

  // Every name that anything mentions.
  function Mentioned(sheet: Sheet): set<Name> {
    if sheet == [] then {} else (if sheet[0].Property? then {} else Refs(sheet[0].value)) + Mentioned(sheet[1..])
  }

  lemma {:induction false} MentionedCovers(sheet: Sheet, n: Name)
    ensures Roots(sheet) <= Mentioned(sheet) && Edges(sheet, n) <= Mentioned(sheet)
  {
    if sheet != [] {
      MentionedCovers(sheet[1..], n);
    }
  }

  // The references of one name, pushed unless they were kept before.
  method PushDeps(deps: set<Name>, keep: set<Name>, stack: seq<Name>)
    returns (keep': set<Name>, stack': seq<Name>)
    requires forall x :: x in stack ==> x in keep
    ensures keep' == keep + deps && (forall x :: x in stack' <==> x in stack || x in keep' - keep)
    ensures keep' == keep ==> stack' == stack
  {
    keep', stack' := keep, stack;
    var rest := deps;
    while rest != {}
      invariant rest <= deps && keep' == keep + (deps - rest)
      invariant forall x :: x in stack' <==> x in stack || x in keep' - keep
      invariant keep' == keep ==> stack' == stack
      decreases rest
    {
      var dep :| dep in rest;
      if dep !in keep' {
        keep' := keep' + {dep};
        stack' := stack' + [dep];
      }
      rest := rest - {dep};
    }
  }

  // The names popped from the stack have had their references kept.
  predicate Explored(sheet: Sheet, keep: set<Name>, stack: seq<Name>) {
    && (forall x :: x in stack ==> x in keep)
    && (forall x :: x in keep && x !in stack ==> Edges(sheet, x) <= keep)
  }

  // One turn of the walk, for the set kept and the set it must not leave.
  lemma Turn(sheet: Sheet, keep: set<Name>, stack: seq<Name>, keep': set<Name>, stack': seq<Name>)
    requires stack != [] && Explored(sheet, keep, stack) && Forced(sheet, keep) && keep <= Mentioned(sheet)
    requires var n, below := stack[|stack| - 1], stack[..|stack| - 1];
             keep' == keep + Edges(sheet, n) && forall x :: x in stack' <==> x in below || x in keep' - keep
    ensures Explored(sheet, keep', stack') && Forced(sheet, keep') && keep' <= Mentioned(sheet)
    ensures keep' != keep ==> |Mentioned(sheet) - keep'| < |Mentioned(sheet) - keep|
  {
    hide Edges, Mentioned, Roots;
    var n := stack[|stack| - 1];
    MentionedCovers(sheet, n);
    assert forall x :: x in stack ==> x in stack[..|stack| - 1] || x == n;
    if keep' != keep {
      assert Mentioned(sheet) - keep' < Mentioned(sheet) - keep;
      CardinalityLess(Mentioned(sheet) - keep', Mentioned(sheet) - keep);
    }
  }

  /** The walk ends, and keeps exactly the names reachable from the roots. */
  method Walk(sheet: Sheet) returns (keep: set<Name>)
    ensures Least(sheet, keep)
  {
    hide Edges, Mentioned, Roots, Forced, Explored;
    var roots, edges := Collect(sheet);
    keep := roots;
    var stack := Listed(roots);
    MentionedCovers(sheet, []);
    StartOfWalk(sheet, stack);
    while stack != []
      invariant roots == Roots(sheet) <= keep <= Mentioned(sheet)
      invariant Forced(sheet, keep) && Explored(sheet, keep, stack)
      decreases |Mentioned(sheet) - keep|, |stack|
    {
      var n := stack[|stack| - 1];
      var below := stack[..|stack| - 1];
      ghost var before, pushed := keep, stack;
      assert forall x :: x in below ==> x in stack;
      StackIsKept(sheet, keep, stack);
      keep, stack := PushDeps(Deps(edges, n), keep, below);
      Turn(sheet, before, pushed, keep, stack);
    }
    EndOfWalk(sheet, keep);
  }

  lemma StackIsKept(sheet: Sheet, keep: set<Name>, stack: seq<Name>)
    requires Explored(sheet, keep, stack)
    ensures forall x :: x in stack ==> x in keep
  {
  }

  lemma StartOfWalk(sheet: Sheet, stack: seq<Name>)
    requires forall x :: x in stack <==> x in Roots(sheet)
    ensures Forced(sheet, Roots(sheet)) && Explored(sheet, Roots(sheet), stack)
  {
  }

  lemma EndOfWalk(sheet: Sheet, keep: set<Name>)
    requires Roots(sheet) <= keep && Forced(sheet, keep) && Explored(sheet, keep, [])
    ensures Least(sheet, keep)
  {
  }

  /** The deletion: both replacements over the whole sheet. */
  method Prune(sheet: Sheet) returns (keep: set<Name>, pruned: Sheet)
    ensures Least(sheet, keep) && pruned == Pruned(sheet, keep)
    ensures exists places :: Picked(sheet, keep, pruned, places)
  {
    keep := Walk(sheet);
    ghost var places := PrunedInOrder(sheet, keep);
    pruned := [];
    for i := 0 to |sheet|
      invariant pruned == Pruned(sheet[..i], keep)
    {
      assert sheet[..i + 1][..i] == sheet[..i];
      if Kept(sheet[i], keep) {
        pruned := pruned + [sheet[i]];
      }
    }
    assert sheet[..|sheet|] == sheet;
  }
}
