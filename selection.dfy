/**
 * Selecting records of a collection by a filter, in ascending key order.
 * A collection is a map from counter-allocated keys to records; every key is below the counter,
 * so scanning the keys below it visits the whole collection.
 */
module Selection {

  /** No key occurs twice, and keys ascend. */
  ghost predicate StrictlyIncreasing(s: seq<nat>) {
    forall i, j :: 0 <= i < j < |s| ==> s[i] < s[j]
  }

  /** The keys below `n` whose record satisfies `p`. */
  ghost function KeysBelow<V>(m: map<nat, V>, p: V -> bool, n: nat): set<nat> {
    set k | k in m && k < n && p(m[k])
  }

  /** The keys below `n` whose record satisfies `p`, in ascending order and each once. */
  function SelectKeys<V>(m: map<nat, V>, p: V -> bool, n: nat): (r: seq<nat>)
    ensures forall i :: 0 <= i < |r| ==> r[i] < n && r[i] in m && p(m[r[i]])
    ensures forall k :: k in m && k < n && p(m[k]) ==> k in r
    ensures StrictlyIncreasing(r)
    decreases n
  {
    if n == 0 then []
    else
      var prefix := SelectKeys(m, p, n - 1);
      if n - 1 in m && p(m[n - 1]) then prefix + [n - 1] else prefix
  }

  /** Raising the bound by one adds key `n - 1` when it matches, and nothing else. */
  lemma KeysBelowStep<V>(m: map<nat, V>, p: V -> bool, n: nat)
    requires n > 0
    ensures |KeysBelow(m, p, n)| == |KeysBelow(m, p, n - 1)| + if n - 1 in m && p(m[n - 1]) then 1 else 0
  {
    var below := KeysBelow(m, p, n - 1);
    if n - 1 in m && p(m[n - 1]) {
      assert KeysBelow(m, p, n) == below + {n - 1};
      assert n - 1 !in below;
    } else {
      assert KeysBelow(m, p, n) == below;
    }
  }

  /** The selection has exactly as many entries as there are matching keys. */
  lemma {:induction false} SelectKeysCount<V>(m: map<nat, V>, p: V -> bool, n: nat)
    ensures |SelectKeys(m, p, n)| == |KeysBelow(m, p, n)|
    decreases n
  {
    if n > 0 {
      SelectKeysCount(m, p, n - 1);
      KeysBelowStep(m, p, n);
    }
  }

  /** The records stored under the given keys, in the keys' order. */
  function ValuesAt<V>(m: map<nat, V>, ks: seq<nat>): (r: seq<V>)
    requires forall i :: 0 <= i < |ks| ==> ks[i] in m
    ensures |r| == |ks|
    ensures forall i :: 0 <= i < |ks| ==> r[i] == m[ks[i]]
  {
    seq(|ks|, i requires 0 <= i < |ks| => m[ks[i]])
  }

  /** The records below `n` that satisfy `p`, in ascending key order. */
  function Select<V(==)>(m: map<nat, V>, p: V -> bool, n: nat): (r: seq<V>)
    ensures forall v :: v in r ==> p(v) && v in m.Values
    ensures forall k :: k in m && k < n && p(m[k]) ==> m[k] in r
    ensures |r| == |KeysBelow(m, p, n)|
  {
    var ks := SelectKeys(m, p, n);
    SelectKeysCount(m, p, n);
    var r := ValuesAt(m, ks);
    assert forall v :: v in r ==> p(v) && v in m.Values by {
      forall v | v in r ensures p(v) && v in m.Values {
        var i :| 0 <= i < |r| && r[i] == v;
        assert v == m[ks[i]];
      }
    }
    assert forall k :: k in m && k < n && p(m[k]) ==> m[k] in r by {
      forall k | k in m && k < n && p(m[k]) ensures m[k] in r {
        var i :| 0 <= i < |ks| && ks[i] == k;
        assert r[i] == m[k];
      }
    }
    r
  }
}
