/** Ordering of query results. The list endpoints end in an ORDER BY on one
    integer-valued column; ties are left in an unspecified order, as the
    database leaves them. */
module Ordering {

  predicate Distinct(xs: seq<nat>)
  {
    forall i, j | 0 <= i < j < |xs| :: xs[i] != xs[j]
  }

  /** A key of least value in a non-empty finite map. */
  lemma {:induction false} LeastKey(key: map<nat, int>) returns (k: nat)
    requires key != map[]
    ensures k in key && forall j | j in key :: key[k] <= key[j]
    decreases key.Keys
  {
    k :| k in key;
    if exists j | j in key :: key[j] < key[k] {
      var j0 :| j0 in key && key[j0] < key[k];
      var rest := key - {k};
      assert j0 in rest;
      assert rest.Keys < key.Keys;
      var m := LeastKey(rest);
      forall j | j in key
        ensures key[m] <= key[j]
      {
        if j != k { assert j in rest; }
      }
      k := m;
    }
  }

  lemma MinimumExists(key: map<nat, int>)
    requires key != map[]
    ensures exists k | k in key :: forall j | j in key :: key[k] <= key[j]
  {
    var k := LeastKey(key);
  }

  /** `r` lists every key of `key` once, in ascending order of value. */
  ghost predicate SortsKeys(r: seq<nat>, key: map<nat, int>)
  {
    && (forall k :: k in r <==> k in key)
    && (forall i | 0 <= i < |r| :: r[i] in key)
    && Distinct(r)
    && (forall i, j | 0 <= i < j < |r| :: r[i] in key && r[j] in key && key[r[i]] <= key[r[j]])
  }

  /** Putting a key of least value in front of a sorting of the other keys
      sorts them all. */
  lemma PrependMinimum(key: map<nat, int>, k: nat, tail: seq<nat>)
    requires k in key && forall j | j in key :: key[k] <= key[j]
    requires SortsKeys(tail, key - {k})
    ensures SortsKeys([k] + tail, key)
  {
    var r := [k] + tail;
    assert forall i | 1 <= i < |r| :: r[i] == tail[i - 1];
    forall x
      ensures x in r <==> x in key
    {
      if x in key && x != k { assert x in key - {k}; }
    }
  }

  /** The keys of `key`, each once, in ascending order of their values. */
  ghost function SortedKeys(key: map<nat, int>): (r: seq<nat>)
    ensures SortsKeys(r, key)
    decreases key.Keys
  {
    if key == map[] then []
    else
      MinimumExists(key);
      var k :| k in key && forall j | j in key :: key[k] <= key[j];
      var rest := key - {k};
      assert rest.Keys < key.Keys;
      var tail := SortedKeys(rest);
      PrependMinimum(key, k, tail);
      [k] + tail
  }
}
