/** Python's `dict` as an association list: keys in insertion order,
    assignment to an existing key overwrites its value in place. */
module Assoc {

  import opened Wrappers

  predicate HasKey<K(==), V>(m: seq<(K, V)>, k: K) {
    exists i :: 0 <= i < |m| && m[i].0 == k
  }

  predicate KeysDistinct<K(==), V>(m: seq<(K, V)>) {
    forall i, j :: 0 <= i < j < |m| ==> m[i].0 != m[j].0
  }

  /** `d.get(k)`. */
  function Get<K(==), V>(m: seq<(K, V)>, k: K): (r: Option<V>)
    ensures r.Some? <==> HasKey(m, k)
    ensures r.Some? ==> (k, r.value) in m
    decreases |m|
  {
    if |m| == 0 then None
    else if m[0].0 == k then Some(m[0].1)
    else
      var r := Get(m[1..], k);
      assert r.Some? ==> (k, r.value) in m;
      assert HasKey(m[1..], k) ==> HasKey(m, k);
      r
  }

  /** With distinct keys, the value found is the one stored at the key's position. */
  lemma {:induction false} GetAt<K, V>(m: seq<(K, V)>, i: nat)
    requires KeysDistinct(m) && i < |m|
    ensures Get(m, m[i].0) == Some(m[i].1)
    decreases |m|
  {
    if i > 0 {
      assert m[1..][i - 1] == m[i];
      GetAt(m[1..], i - 1);
    }
  }

  /** `d[k] = v`: a new key goes last, an existing one keeps its position. */
  function Put<K(==,!new), V>(m: seq<(K, V)>, k: K, v: V): (r: seq<(K, V)>)
    ensures Get(r, k) == Some(v)
    ensures |r| == if HasKey(m, k) then |m| else |m| + 1
    decreases |m|
  {
    if |m| == 0 then [(k, v)]
    else if m[0].0 == k then [(k, v)] + m[1..]
    else
      assert HasKey(m, k) <==> HasKey(m[1..], k);
      [m[0]] + Put(m[1..], k, v)
  }

  /** The other keys keep their values; the keys already present keep
      their positions; nothing but `(k, v)` is added. */
  lemma {:induction false} PutFrame<K(!new), V>(m: seq<(K, V)>, k: K, v: V)
    ensures forall k' :: k' != k ==> Get(Put(m, k, v), k') == Get(m, k')
    ensures forall i :: 0 <= i < |m| ==> Put(m, k, v)[i].0 == m[i].0
    ensures forall e :: e in Put(m, k, v) ==> e in m || e == (k, v)
    decreases |m|
  {
    if |m| > 0 && m[0].0 != k {
      PutFrame(m[1..], k, v);
      var r := Put(m, k, v);
      assert r == [m[0]] + Put(m[1..], k, v);
      forall i | 1 <= i < |m| ensures r[i].0 == m[i].0 {
        assert r[i] == Put(m[1..], k, v)[i - 1];
      }
    }
  }

  lemma {:induction false} PutKeysDistinct<K(!new), V>(m: seq<(K, V)>, k: K, v: V)
    requires KeysDistinct(m)
    ensures KeysDistinct(Put(m, k, v))
    decreases |m|
  {
    if |m| > 0 && m[0].0 != k {
      var t := m[1..];
      PutKeysDistinct(t, k, v);
      PutFrame(t, k, v);
      HasKeyPut(t, k, v, m[0].0);
      var r := Put(t, k, v);
      assert !HasKey(t, m[0].0);
      forall j | 0 <= j < |r| ensures r[j].0 != m[0].0 {
        assert HasKey(r, r[j].0);
      }
    }
  }

  lemma HasKeyPut<K(!new), V>(m: seq<(K, V)>, k: K, v: V, k': K)
    ensures HasKey(Put(m, k, v), k') <==> HasKey(m, k') || k' == k
  {
    PutFrame(m, k, v);
  }

  /** A new key goes at the end. */
  lemma {:induction false} PutNew<K(!new), V>(m: seq<(K, V)>, k: K, v: V)
    requires !HasKey(m, k)
    ensures Put(m, k, v) == m + [(k, v)]
    decreases |m|
  {
    if |m| > 0 {
      assert !HasKey(m[1..], k) by {
        forall i | 0 <= i < |m[1..]| ensures m[1..][i].0 != k {
          assert m[1..][i] == m[i + 1];
        }
      }
      assert m[0].0 != k;
      PutNew(m[1..], k, v);
      assert Put(m, k, v) == [m[0]] + (m[1..] + [(k, v)]);
      assert [m[0]] + (m[1..] + [(k, v)]) == m + [(k, v)];
    }
  }

  /** `d.update(u)`: each entry of `u` assigned in turn. */
  function Update<K(==,!new), V>(m: seq<(K, V)>, u: seq<(K, V)>): seq<(K, V)>
    decreases |u|
  {
    if |u| == 0 then m else Update(Put(m, u[0].0, u[0].1), u[1..])
  }

  /** After `d.update(u)` every key of `u` has `u`'s value and every other
      key keeps its own; the keys are those of both. */
  lemma {:induction false} UpdateGet<K(!new), V>(m: seq<(K, V)>, u: seq<(K, V)>)
    requires KeysDistinct(u)
    ensures forall k :: Get(Update(m, u), k) == if HasKey(u, k) then Get(u, k) else Get(m, k)
    decreases |u|
  {
    if |u| > 0 {
      var m' := Put(m, u[0].0, u[0].1);
      assert KeysDistinct(u[1..]) by {
        forall i, j | 0 <= i < j < |u[1..]| ensures u[1..][i].0 != u[1..][j].0 {
          assert u[1..][i] == u[i + 1] && u[1..][j] == u[j + 1];
        }
      }
      UpdateGet(m', u[1..]);
      PutFrame(m, u[0].0, u[0].1);
      forall k ensures Get(Update(m, u), k) == if HasKey(u, k) then Get(u, k) else Get(m, k) {
        assert HasKey(u, k) <==> k == u[0].0 || HasKey(u[1..], k) by {
          if HasKey(u, k) {
            var i :| 0 <= i < |u| && u[i].0 == k;
            if i > 0 { assert u[1..][i - 1].0 == k; }
          }
          if HasKey(u[1..], k) {
            var i :| 0 <= i < |u[1..]| && u[1..][i].0 == k;
            assert u[i + 1].0 == k;
          }
        }
        if k == u[0].0 {
          assert !HasKey(u[1..], k) by {
            forall i | 0 <= i < |u[1..]| ensures u[1..][i].0 != k {
              assert u[1..][i] == u[i + 1];
            }
          }
        } else if HasKey(u[1..], k) {
          assert Get(u, k) == Get(u[1..], k);
        }
      }
    }
  }
}
