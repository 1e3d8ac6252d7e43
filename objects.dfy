/**
 * JavaScript plain objects (and `Map`s) as insertion-ordered sequences of
 * (key, value) pairs with distinct keys. `Object.keys` is the key column in
 * order; assigning to an existing key changes its value in place, assigning
 * to a new key appends it; `delete` drops the pair; `Object.assign` and
 * object spread are a left-to-right sequence of assignments.
 */
module Objects {
  import opened Wrappers

  type Object<V> = seq<(string, V)>

  function Keys<V>(o: Object<V>): (ks: seq<string>)
    ensures |ks| == |o|
    ensures forall i :: 0 <= i < |o| ==> ks[i] == o[i].0
  {
    seq(|o|, i requires 0 <= i < |o| => o[i].0)
  }

  predicate HasKey<V>(o: Object<V>, k: string)
  {
    exists i :: 0 <= i < |o| && o[i].0 == k
  }

  predicate UniqueKeys<V>(o: Object<V>)
  {
    forall i, j :: 0 <= i < j < |o| ==> o[i].0 != o[j].0
  }

  /** `o[k]`: the value of the first pair with key `k`, or `undefined`. */
  function Get<V>(o: Object<V>, k: string): (r: Option<V>)
    ensures r.None? <==> !HasKey(o, k)
  {
    if |o| == 0 then None
    else if o[0].0 == k then Some(o[0].1)
    else
      HasKeyTail(o, k);
      Get(o[1..], k)
  }

  /** Past a head with another key, looking a key up is looking it up in the tail. */
  lemma HasKeyTail<V>(o: Object<V>, k: string)
    requires |o| > 0 && o[0].0 != k
    ensures HasKey(o, k) <==> HasKey(o[1..], k)
  {
    if HasKey(o, k) {
      var i :| 0 <= i < |o| && o[i].0 == k;
      assert o[1..][i - 1].0 == k;
    }
    if HasKey(o[1..], k) {
      var i :| 0 <= i < |o[1..]| && o[1..][i].0 == k;
      assert o[i + 1].0 == k;
    }
  }

  lemma UniqueTail<V>(o: Object<V>)
    requires |o| > 0 && UniqueKeys(o)
    ensures UniqueKeys(o[1..]) && !HasKey(o[1..], o[0].0)
  {
  }

  /** In an object, the pair at index `i` is what `o[key]` reads. */
  lemma {:induction false} GetAt<V>(o: Object<V>, i: nat)
    requires UniqueKeys(o) && i < |o|
    ensures Get(o, o[i].0) == Some(o[i].1)
  {
    if i > 0 {
      GetAt(o[1..], i - 1);
    }
  }

  /** `o[k] = v`: overwrite in place when `k` is present, otherwise append. */
  function Put<V>(o: Object<V>, k: string, v: V): (r: Object<V>)
    ensures HasKey(o, k) ==> |r| == |o| && Keys(r) == Keys(o)
    ensures !HasKey(o, k) ==> r == o + [(k, v)]
  {
    if |o| == 0 then [(k, v)]
    else if o[0].0 == k then [(k, v)] + o[1..]
    else
      var r := [o[0]] + Put(o[1..], k, v);
      HasKeyTail(o, k);
      assert Keys(o) == [o[0].0] + Keys(o[1..]);
      assert HasKey(o, k) ==> Keys(r) == [o[0].0] + Keys(Put(o[1..], k, v));
      r
  }

  /** Assignment: the key reads back as `v`, every other key reads as before,
      and the object keeps distinct keys. */
  lemma {:induction false} PutSpec<V>(o: Object<V>, k: string, v: V)
    requires UniqueKeys(o)
    ensures UniqueKeys(Put(o, k, v))
    ensures Get(Put(o, k, v), k) == Some(v)
    ensures forall k' :: k' != k ==> Get(Put(o, k, v), k') == Get(o, k')
  {
    if |o| > 0 && o[0].0 != k {
      PutSpec(o[1..], k, v);
      var r := Put(o, k, v);
      assert r == [o[0]] + Put(o[1..], k, v);
      forall j | 0 < j < |r| ensures r[j].0 != o[0].0 {
        if !HasKey(o[1..], k) {
          assert Put(o[1..], k, v) == o[1..] + [(k, v)];
        } else {
          assert Keys(Put(o[1..], k, v)) == Keys(o[1..]);
          assert r[j].0 == Keys(Put(o[1..], k, v))[j - 1] == o[j].0;
        }
      }
    } else if |o| > 0 {
      assert Put(o, k, v)[1..] == o[1..];
    }
  }

  /** On an existing key, assignment is a write at that key's index. */
  lemma {:induction false} PutAt<V>(o: Object<V>, i: nat, v: V)
    requires UniqueKeys(o) && i < |o|
    ensures Put(o, o[i].0, v) == o[i := (o[i].0, v)]
  {
    if i > 0 {
      UniqueTail(o);
      assert o[1..][i - 1] == o[i];
      assert o[0].0 != o[i].0;
      PutAt(o[1..], i - 1, v);
      assert Put(o, o[i].0, v) == [o[0]] + o[1..][i - 1 := (o[i].0, v)];
      assert [o[0]] + o[1..][i - 1 := (o[i].0, v)] == o[i := (o[i].0, v)];
    }
  }

  /** `delete o[k]`. */
  function Delete<V>(o: Object<V>, k: string): (r: Object<V>)
    ensures |r| <= |o|
    ensures HasKey(o, k) ==> |r| < |o|
  {
    if |o| == 0 then []
    else if o[0].0 == k then Delete(o[1..], k)
    else
      HasKeyTail(o, k);
      [o[0]] + Delete(o[1..], k)
  }

  /** Deletion: the key is gone, every other key reads as before, and the
      survivors keep their relative order. */
  lemma {:induction false} DeleteSpec<V>(o: Object<V>, k: string)
    requires UniqueKeys(o)
    ensures UniqueKeys(Delete(o, k))
    ensures !HasKey(Delete(o, k), k)
    ensures forall k' :: k' != k ==> Get(Delete(o, k), k') == Get(o, k')
    ensures Keys(Delete(o, k)) == Filter(Keys(o), k)
  {
    if |o| > 0 {
      DeleteSpec(o[1..], k);
      assert Keys(o)[1..] == Keys(o[1..]);
      var r := Delete(o, k);
      if o[0].0 != k {
        assert r == [o[0]] + Delete(o[1..], k);
        forall j | 0 < j < |r| ensures r[j].0 != o[0].0 {
          assert HasKey(Delete(o[1..], k), r[j].0) by {
            assert Delete(o[1..], k)[j - 1] == r[j];
          }
          DeleteSubset(o[1..], k, r[j].0);
        }
      } else {
        assert forall k' :: k' != k ==> Get(o, k') == Get(o[1..], k');
      }
    }
  }

  /** The keys of `ks` other than `k`, in order. */
  function Filter(ks: seq<string>, k: string): seq<string>
  {
    if |ks| == 0 then [] else (if ks[0] == k then [] else [ks[0]]) + Filter(ks[1..], k)
  }

  lemma {:induction false} DeleteSubset<V>(o: Object<V>, k: string, k': string)
    requires HasKey(Delete(o, k), k')
    ensures HasKey(o, k')
  {
    if |o| > 0 {
      var r := Delete(o, k);
      if o[0].0 == k {
        DeleteSubset(o[1..], k, k');
        var i :| 0 <= i < |o[1..]| && o[1..][i].0 == k';
        assert o[i + 1].0 == k';
      } else if o[0].0 != k' {
        var i :| 0 <= i < |r| && r[i].0 == k';
        assert Delete(o[1..], k)[i - 1].0 == k';
        DeleteSubset(o[1..], k, k');
        var j :| 0 <= j < |o[1..]| && o[1..][j].0 == k';
        assert o[j + 1].0 == k';
      }
    }
  }

  /** `Object.assign(target, source)` (equivalently `{...target, ...source}`):
      the pairs of `source` are assigned one by one, left to right. */
  function Assign<V>(target: Object<V>, source: Object<V>): Object<V>
    decreases |source|
  {
    if |source| == 0 then target
    else Assign(Put(target, source[0].0, source[0].1), source[1..])
  }

  /** After `Object.assign`, a key of the source reads as the source's value
      (the source wins every clash), any other key reads as in the target,
      and the key set is the union. */
  lemma {:induction false} AssignSpec<V>(target: Object<V>, source: Object<V>)
    requires UniqueKeys(target) && UniqueKeys(source)
    ensures UniqueKeys(Assign(target, source))
    ensures forall k :: HasKey(source, k) ==> Get(Assign(target, source), k) == Get(source, k)
    ensures forall k :: !HasKey(source, k) ==> Get(Assign(target, source), k) == Get(target, k)
    decreases |source|
  {
    if |source| > 0 {
      var (k0, v0) := source[0];
      var t := Put(target, k0, v0);
      PutSpec(target, k0, v0);
      UniqueTail(source);
      AssignSpec(t, source[1..]);
      assert Assign(target, source) == Assign(t, source[1..]);
      forall k ensures HasKey(source, k) <==> k == k0 || HasKey(source[1..], k) {
        if k != k0 {
          HasKeyTail(source, k);
        }
      }
      forall k | k != k0 ensures Get(source, k) == Get(source[1..], k) {
      }
    }
  }
}
