/** Mapping a whole sequence through a dictionary with forced lookups, as the
    source does with `seq.map { dict[$0]! }`: the first key that is missing
    aborts the whole call. */
module Lookup {
  import opened Wrappers

  /** Looks every key up in order; on success the values line up with the
      keys, on failure the error is the first key absent from `m`. */
  function LookupAll<K, V>(m: map<K, V>, keys: seq<K>): (r: Result<seq<V>, K>)
    ensures r.Success? <==> forall i :: 0 <= i < |keys| ==> keys[i] in m
    ensures r.Success? ==> |r.value| == |keys|
    ensures r.Success? ==> forall i :: 0 <= i < |keys| ==> r.value[i] == m[keys[i]]
    ensures r.Failure? ==> r.error !in m
    ensures r.Failure? ==> exists i :: 0 <= i < |keys| && keys[i] == r.error && forall j :: 0 <= j < i ==> keys[j] in m
    decreases |keys|
  {
    if keys == [] then Success([])
    else if keys[0] !in m then Failure(keys[0])
    else
      match LookupAll(m, keys[1..])
      case Success(vs) => Success([m[keys[0]]] + vs)
      case Failure(k) =>
        assert exists i :: 1 <= i < |keys| && keys[i] == k && forall j :: 0 <= j < i ==> keys[j] in m by {
          var i :| 0 <= i < |keys| - 1 && keys[1..][i] == k && forall j :: 0 <= j < i ==> keys[1..][j] in m;
          assert keys[i + 1] == k;
          assert forall j :: 0 <= j < i + 1 ==> keys[j] in m by {
            forall j | 0 <= j < i + 1 ensures keys[j] in m {
              if j > 0 { assert keys[j] == keys[1..][j - 1]; }
            }
          }
        }
        Failure(k)
  }

  /** Lookups through `m` followed by lookups through an inverse of `m`
      give back the keys. */
  lemma LookupAllInverse<K, V>(m: map<K, V>, inv: map<V, K>, keys: seq<K>)
    requires forall k :: k in m ==> m[k] in inv && inv[m[k]] == k
    requires LookupAll(m, keys).Success?
    ensures LookupAll(inv, LookupAll(m, keys).value) == Success(keys)
  {
    var vs := LookupAll(m, keys).value;
    var back := LookupAll(inv, vs);
    assert back.Success?;
    assert back.value == keys;
  }

  /** Looking up a concatenation is concatenating the lookups. */
  lemma {:induction false} LookupAllAppend<K, V>(m: map<K, V>, a: seq<K>, b: seq<K>)
    requires LookupAll(m, a).Success? && LookupAll(m, b).Success?
    ensures LookupAll(m, a + b) == Success(LookupAll(m, a).value + LookupAll(m, b).value)
  {
    var r := LookupAll(m, a + b);
    assert forall i :: 0 <= i < |a + b| ==> (a + b)[i] in m by {
      forall i | 0 <= i < |a + b| ensures (a + b)[i] in m {
        if i < |a| { assert (a + b)[i] == a[i]; } else { assert (a + b)[i] == b[i - |a|]; }
      }
    }
    assert r.Success?;
    var va, vb := LookupAll(m, a).value, LookupAll(m, b).value;
    assert r.value == va + vb by {
      forall i | 0 <= i < |a + b| ensures r.value[i] == (va + vb)[i] {
        if i < |a| { assert (a + b)[i] == a[i]; } else { assert (a + b)[i] == b[i - |a|]; }
      }
    }
  }
}
