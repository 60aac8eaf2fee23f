/**
 * Maps built the way the programs build their `HashMap`s: by inserting
 * pairs in order, and summed over their values in no particular order.
 */
module Maps {

  /** A map filled by inserting the pairs in order: a later pair for the
      same key replaces an earlier one. */
  function InsertAll<V>(pairs: seq<(string, V)>): map<string, V>
  {
    if pairs == [] then map[]
    else InsertAll(pairs[..|pairs| - 1])[pairs[|pairs| - 1].0 := pairs[|pairs| - 1].1]
  }

  /** The keys are the names of the pairs, and each key holds the value of
      its last pair. */
  lemma {:induction false} InsertAllSpec<V>(pairs: seq<(string, V)>)
    ensures forall k :: k in InsertAll(pairs) <==> exists i :: 0 <= i < |pairs| && pairs[i].0 == k
    ensures forall i :: 0 <= i < |pairs| && (forall j :: i < j < |pairs| ==> pairs[j].0 != pairs[i].0) ==>
      InsertAll(pairs)[pairs[i].0] == pairs[i].1
  {
    if pairs != [] {
      var front := pairs[..|pairs| - 1];
      InsertAllSpec(front);
      forall k ensures k in InsertAll(pairs) <==> exists i :: 0 <= i < |pairs| && pairs[i].0 == k {
        if k in InsertAll(front) {
          var i :| 0 <= i < |front| && front[i].0 == k;
          assert pairs[i].0 == k;
        }
        if exists i :: 0 <= i < |pairs| && pairs[i].0 == k {
          var i :| 0 <= i < |pairs| && pairs[i].0 == k;
          if i < |front| { assert front[i].0 == k; }
        }
      }
      forall i | 0 <= i < |pairs| && (forall j :: i < j < |pairs| ==> pairs[j].0 != pairs[i].0)
        ensures InsertAll(pairs)[pairs[i].0] == pairs[i].1
      {
        if i < |front| {
          assert pairs[i] == front[i];
          assert forall j :: i < j < |front| ==> front[j].0 != front[i].0 by {
            forall j | i < j < |front| ensures front[j].0 != front[i].0 {
              assert front[j] == pairs[j];
            }
          }
        }
      }
    }
  }

  /** The sum of the values of a map, in no particular order. */
  ghost function MapSum(d: map<string, nat>): nat
    decreases |d|
  {
    if d == map[] then 0
    else
      var k :| k in d;
      d[k] + MapSum(d - {k})
  }

  /** Any key may be taken out first. */
  lemma {:induction false} MapSumRemove(d: map<string, nat>, k: string)
    requires k in d
    ensures MapSum(d) == d[k] + MapSum(d - {k})
    decreases |d|
  {
    var j :| j in d && MapSum(d) == d[j] + MapSum(d - {j});
    if j != k {
      MapSumRemove(d - {j}, k);
      MapSumRemove(d - {k}, j);
      assert d - {j} - {k} == d - {k} - {j};
    }
  }

  /** `values().sum()`: the values added up in whatever order the keys
      come. */
  method SumValues(d: map<string, nat>) returns (s: nat)
    ensures s == MapSum(d)
  {
    s := 0;
    var rest := d;
    while rest != map[]
      invariant s + MapSum(rest) == MapSum(d)
      decreases |rest|
    {
      var k :| k in rest;
      MapSumRemove(rest, k);
      s := s + rest[k];
      rest := rest - {k};
    }
  }

  /** The sum of a sequence of naturals. */
  function Sum(s: seq<nat>): nat
  {
    if s == [] then 0 else Sum(s[..|s| - 1]) + s[|s| - 1]
  }

  /** The sum of a prefix one longer adds the next element. */
  lemma SumSnoc(s: seq<nat>, k: nat)
    requires k < |s|
    ensures Sum(s[..k + 1]) == Sum(s[..k]) + s[k]
  {
    assert s[..k + 1][..k] == s[..k];
  }
}
