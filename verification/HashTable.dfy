/** Tables of hash buckets, seen as the multiset of their elements. */
module HashTable {

  function Elems<T>(t: seq<seq<T>>): multiset<T> {
    if t == [] then multiset{} else multiset(t[0]) + Elems(t[1..])
  }

  lemma {:induction false} ElemsMember<T>(t: seq<seq<T>>, x: T)
    ensures x in Elems(t) <==> exists b :: 0 <= b < |t| && x in t[b]
  {
    if t != [] {
      ElemsMember(t[1..], x);
      if x in Elems(t[1..]) {
        var b :| 0 <= b < |t| - 1 && x in t[1..][b];
        assert x in t[b + 1];
      }
      forall b | 0 <= b < |t| && x in t[b] ensures x in Elems(t) {
        if b > 0 {
          assert x in t[1..][b - 1];
        }
      }
    }
  }

  // Exchanging one bucket exchanges its elements.
  lemma {:induction false} ElemsUpdate<T>(t: seq<seq<T>>, b: nat, s: seq<T>)
    requires b < |t|
    ensures Elems(t[b := s]) + multiset(t[b]) == Elems(t) + multiset(s)
  {
    if b == 0 {
      assert t[0 := s][1..] == t[1..];
    } else {
      var rest := t[1..];
      ElemsUpdate(rest, b - 1, s);
      assert t[b := s][1..] == rest[b - 1 := s];
      assert (multiset(t[0]) + Elems(rest[b - 1 := s])) + multiset(t[b])
          == multiset(t[0]) + (Elems(rest[b - 1 := s]) + multiset(rest[b - 1]));
      assert (multiset(t[0]) + Elems(rest)) + multiset(s) == multiset(t[0]) + (Elems(rest) + multiset(s));
    }
  }

  lemma PushElems<T>(t: seq<seq<T>>, b: nat, x: T)
    requires b < |t|
    ensures Elems(t[b := [x] + t[b]]) == Elems(t) + multiset{x}
  {
    ElemsUpdate(t, b, [x] + t[b]);
    assert multiset([x] + t[b]) == multiset{x} + multiset(t[b]);
    Cancel(Elems(t[b := [x] + t[b]]), Elems(t) + multiset{x}, multiset(t[b]));
  }

  lemma RemoveElems<T>(t: seq<seq<T>>, b: nat, i: nat)
    requires b < |t| && i < |t[b]|
    ensures var s := t[b][..i] + t[b][i + 1..]; Elems(t[b := s]) == Elems(t) - multiset{t[b][i]}
  {
    var s, x := t[b][..i] + t[b][i + 1..], t[b][i];
    ElemsUpdate(t, b, s);
    assert t[b] == t[b][..i] + [x] + t[b][i + 1..];
    assert multiset(t[b]) == multiset(s) + multiset{x};
    Cancel(Elems(t[b := s]) + multiset{x}, Elems(t), multiset(s));
  }

  lemma Cancel<T>(a: multiset<T>, b: multiset<T>, c: multiset<T>)
    requires a + c == b + c
    ensures a == b
  {
    forall x ensures a[x] == b[x] {
      assert (a + c)[x] == a[x] + c[x] && (b + c)[x] == b[x] + c[x];
    }
  }

  lemma {:induction false} EmptyElems<T>(t: seq<seq<T>>)
    ensures Elems(t) == multiset{} <==> forall b :: 0 <= b < |t| ==> t[b] == []
  {
    if t != [] {
      EmptyElems(t[1..]);
      assert forall b :: 0 < b < |t| ==> t[b] == t[1..][b - 1];
      if t[0] != [] {
        assert t[0][0] in Elems(t);
      }
    }
  }
}
