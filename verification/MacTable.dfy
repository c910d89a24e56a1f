/** The MAC address lists of the oaf module (fwx_mac.c): a hash table that is a multiset. */
module MacTable {
  import opened HashTable

  const MAC_HASH_SIZE := 128
  const ETH_ALEN := 6

  type Mac = m: seq<int> | |m| == ETH_ALEN && forall i :: 0 <= i < |m| ==> 0 <= m[i] < 256 witness [0, 0, 0, 0, 0, 0]

  function Sum(m: seq<int>): int { if m == [] then 0 else Sum(m[..|m| - 1]) + m[|m| - 1] }

  function BucketOf(m: Mac): int { Sum(m) % MAC_HASH_SIZE }

  lemma SumOfSix(m: Mac)
    ensures Sum(m) == m[0] + m[1] + m[2] + m[3] + m[4] + m[5]
  {
    assert m[..5][..4] == m[..4] && m[..4][..3] == m[..3] && m[..3][..2] == m[..2] && m[..2][..1] == m[..1];
    assert Sum(m[..2]) == Sum(m[..1]) + m[1] && Sum(m[..1]) == Sum([]) + m[0] by {
      assert m[..1][..0] == [];
    }
    assert Sum(m[..4]) == Sum(m[..3]) + m[3] && Sum(m[..3]) == Sum(m[..2]) + m[2];
  }

  /** mac_hash */
  method Hash(mac: Mac) returns (h: nat)
    ensures h == BucketOf(mac) == (mac[0] + mac[1] + mac[2] + mac[3] + mac[4] + mac[5]) % 128
  {
    var hash := 0;
    for i := 0 to ETH_ALEN
      invariant hash == Sum(mac[..i])
    {
      assert mac[..i + 1][..i] == mac[..i];
      hash := hash + mac[i];
    }
    assert mac[..ETH_ALEN] == mac;
    SumOfSix(mac);
    h := hash % MAC_HASH_SIZE;
  }

  /** The addresses of a list that get a node, as often as they occur. */
  function Granted(requests: seq<(Mac, bool)>): multiset<Mac> {
    if requests == [] then multiset{}
    else Granted(requests[..|requests| - 1]) + (var r := requests[|requests| - 1]; if r.1 then multiset{r.0} else multiset{})
  }

  lemma GrantedSnoc(requests: seq<(Mac, bool)>, i: nat)
    requires i < |requests|
    ensures Granted(requests[..i + 1])
            == Granted(requests[..i]) + if requests[i].1 then multiset{requests[i].0} else multiset{}
  {
    assert requests[..i + 1][..i] == requests[..i];
  }

  class MacConfig {
    var table: seq<seq<Mac>>    // hash_table

    /** Every address is in the bucket of its hash. */
    ghost predicate Valid()
      reads this
    {
      |table| == MAC_HASH_SIZE && forall b, m :: 0 <= b < |table| && m in table[b] ==> b == BucketOf(m)
    }

    /** What the list holds, each address as often as it was added. */
    ghost function Contents(): multiset<Mac>
      reads this
    {
      Elems(table)
    }

    /** fwx_mac_config_init */
    constructor ()
      ensures Valid() && Contents() == multiset{}
    {
      table := seq(MAC_HASH_SIZE, _ => []);
      new;
      EmptyElems(table);
    }

    /** fwx_add_mac_node: one more of this address, also when it was there before */
    method Add(mac: Mac, allocOk: bool)
      requires Valid()
      modifies this
      ensures Valid() && Contents() == if allocOk then old(Contents()) + multiset{mac} else old(Contents())
    {
      var h := Hash(mac);
      if allocOk {
        PushElems(table, h, mac);
        table := table[h := [mac] + table[h]];
      }
    }

    /** The loops that add the addresses of a list. */
    method AddAll(requests: seq<(Mac, bool)>)
      requires Valid()
      modifies this
      ensures Valid() && Contents() == old(Contents()) + Granted(requests)
    {
      hide Valid, Contents;
      assert Granted([]) == multiset{};
      for i := 0 to |requests|
        invariant Valid() && Contents() == old(Contents()) + Granted(requests[..i])
      {
        GrantedSnoc(requests, i);
        Add(requests[i].0, requests[i].1);
      }
      assert requests[..|requests|] == requests;
    }

    /** fwx_find_mac_node: finds the address exactly when the table holds it. */
    method Find(mac: Mac) returns (found: bool, bucket: nat, at: nat)
      requires Valid()
      ensures found <==> mac in Contents()
      ensures found ==> bucket < |table| && at < |table[bucket]| && table[bucket][at] == mac
    {
      bucket := Hash(mac);
      ElemsMember(table, mac);
      found, at := false, 0;
      while at < |table[bucket]|
        invariant at <= |table[bucket]| && mac !in table[bucket][..at]
      {
        if table[bucket][at] == mac {
          return true, bucket, at;
        }
        at := at + 1;
      }
      assert table[bucket][..at] == table[bucket];
    }

    /** A search, and hlist_del of the node found: one less of this address */
    method Delete(mac: Mac) returns (found: bool)
      requires Valid()
      modifies this
      ensures Valid() && (found <==> mac in old(Contents())) && Contents() == old(Contents()) - multiset{mac}
    {
      var bucket, at;
      found, bucket, at := Find(mac);
      if found {
        RemoveElems(table, bucket, at);
        table := table[bucket := table[bucket][..at] + table[bucket][at + 1..]];
      }
    }

    /** fwx_flush_mac_list */
    method Flush()
      requires Valid()
      modifies this
      ensures Valid() && Contents() == multiset{}
    {
      ghost var before := table;
      for i := 0 to MAC_HASH_SIZE
        invariant |table| == MAC_HASH_SIZE
        invariant forall b :: 0 <= b < MAC_HASH_SIZE ==> table[b] == if b < i then [] else before[b]
      {
        table := table[i := []];
      }
      EmptyElems(table);
    }

    /** The loop of the rule matching that asks whether a list is empty */
    method IsEmpty() returns (empty: bool)
      requires Valid()
      ensures empty <==> Contents() == multiset{}
    {
      EmptyElems(table);
      for i := 0 to MAC_HASH_SIZE
        invariant forall b :: 0 <= b < i ==> table[b] == []
      {
        if table[i] != [] {
          return false;
        }
      }
      empty := true;
    }
  }
}
