/**
 * An insertion-ordered map, as a JavaScript `Map` is: a sequence of key/value
 * entries, iterated in order. `Set` replaces the value of a present key in its
 * position and appends a new key at the end; `Remove` drops a key; `FromPairs`
 * is the `Map` constructor applied to an array of pairs.
 */
module OrderedMap {
  import opened Options

  /** The keys in iteration order (`map.keys()`). */
  function Keys<V>(m: seq<(string, V)>): (ks: seq<string>)
    ensures |ks| == |m|
    ensures forall i {:trigger ks[i]} :: 0 <= i < |m| ==> ks[i] == m[i].0
  {
    if m == [] then [] else [m[0].0] + Keys(m[1..])
  }

  /** No key occurs twice: what every `Map` satisfies. */
  ghost predicate DistinctKeys<V>(m: seq<(string, V)>) {
    forall i, j :: 0 <= i < j < |m| ==> m[i].0 != m[j].0
  }

  /** `map.get(k)`: the value stored under `k`, if any. */
  function Get<V>(m: seq<(string, V)>, k: string): (r: Option<V>)
    ensures r.None? <==> k !in Keys(m)
    ensures DistinctKeys(m) ==> forall i :: 0 <= i < |m| && m[i].0 == k ==> r == Some(m[i].1)
  {
    if m == [] then None
    else if m[0].0 == k then Some(m[0].1)
    else Get(m[1..], k)
  }

  /** `map.set(k, v)`: a present key keeps its position, a new key goes last. */
  function Set<V>(m: seq<(string, V)>, k: string, v: V): (r: seq<(string, V)>)
    ensures Keys(r) == if k in Keys(m) then Keys(m) else Keys(m) + [k]
    ensures Get(r, k) == Some(v)
    ensures forall j {:trigger Get(r, j)} :: j != k ==> Get(r, j) == Get(m, j)
  {
    if m == [] then [(k, v)]
    else if m[0].0 == k then [(k, v)] + m[1..]
    else [m[0]] + Set(m[1..], k, v)
  }

  /** Setting a new key appends its entry. */
  lemma {:induction false} SetNew<V>(m: seq<(string, V)>, k: string, v: V)
    requires k !in Keys(m)
    ensures Set(m, k, v) == m + [(k, v)]
  {
    if m != [] {
      var tail := m[1..];
      assert m == [m[0]] + tail;
      assert Keys(m) == [m[0].0] + Keys(tail);
      SetNew(tail, k, v);
      SetLater(m, k, v);
    }
  }

  /** Setting a key other than the first keeps the first entry. */
  lemma {:induction false} SetLater<V>(m: seq<(string, V)>, k: string, v: V)
    requires m != [] && m[0].0 != k
    ensures Set(m, k, v) == [m[0]] + Set(m[1..], k, v)
  {
  }

  /** `map.delete(k)`: the entry of `k` goes, every other entry stays in order. */
  function Remove<V>(m: seq<(string, V)>, k: string): (r: seq<(string, V)>)
    ensures k !in Keys(r)
    ensures forall j {:trigger Get(r, j)} :: j != k ==> Get(r, j) == Get(m, j)
    ensures k !in Keys(m) ==> r == m
  {
    if m == [] then []
    else if m[0].0 == k then Remove(m[1..], k)
    else [m[0]] + Remove(m[1..], k)
  }

  /**
   * `new Map(pairs)`: the pairs are set one after the other, so a repeated key
   * keeps its first position and its last value.
   */
  function FromPairs<V>(ps: seq<(string, V)>): (m: seq<(string, V)>)
    ensures |m| <= |ps|
  {
    if ps == [] then []
    else Set(FromPairs(ps[..|ps| - 1]), ps[|ps| - 1].0, ps[|ps| - 1].1)
  }

  /** `new Map(pairs)` has exactly the keys that occur among the pairs. */
  lemma {:induction false} FromPairsKeys<V>(ps: seq<(string, V)>)
    ensures forall k :: k in Keys(FromPairs(ps)) <==> k in Keys(ps)
  {
    if ps != [] {
      var init, last := ps[..|ps| - 1], ps[|ps| - 1];
      var m := FromPairs(init);
      FromPairsKeys(init);
      assert Keys(ps) == Keys(init) + [last.0];
      assert Keys(FromPairs(ps)) == if last.0 in Keys(m) then Keys(m) else Keys(m) + [last.0];
      forall k ensures k in Keys(FromPairs(ps)) <==> k in Keys(ps) {
        assert k in Keys(init) + [last.0] <==> k in Keys(init) || k == last.0;
        assert k in Keys(m) + [last.0] <==> k in Keys(m) || k == last.0;
      }
    }
  }

  /** Under `new Map(pairs)` the last pair with a key gives its value. */
  lemma {:induction false} FromPairsLastValue<V>(ps: seq<(string, V)>, j: int)
    requires 0 <= j < |ps|
    requires forall j' :: j < j' < |ps| ==> ps[j'].0 != ps[j].0
    ensures Get(FromPairs(ps), ps[j].0) == Some(ps[j].1)
  {
    if j < |ps| - 1 {
      var init := ps[..|ps| - 1];
      assert init[j] == ps[j];
      assert forall j' :: j < j' < |init| ==> init[j'].0 != init[j].0 by {
        forall j' | j < j' < |init| ensures init[j'].0 != init[j].0 {
          assert init[j'] == ps[j'];
        }
      }
      FromPairsLastValue(init, j);
    }
  }

  /** `new Map(pairs)` only ever appends keys: the map built from a prefix of the pairs has a prefix of the keys. */
  lemma {:induction false} FromPairsPrefix<V>(ps: seq<(string, V)>, n: int)
    requires 0 <= n <= |ps|
    ensures Keys(FromPairs(ps[..n])) <= Keys(FromPairs(ps))
    decreases |ps| - n
  {
    if n == |ps| {
      assert ps[..n] == ps;
    } else {
      var init := ps[..|ps| - 1];
      assert init[..n] == ps[..n];
      FromPairsPrefix(init, n);
      var a, b := Keys(FromPairs(ps[..n])), Keys(FromPairs(init));
      assert Keys(FromPairs(ps)) == b || Keys(FromPairs(ps)) == b + [ps[|ps| - 1].0];
      assert a <= b;
    }
  }

  /**
   * Under `new Map(pairs)` a key takes the position of its first pair: right
   * after the keys of the earlier pairs, and it keeps that position.
   */
  lemma {:induction false} FromPairsFirstPosition<V>(ps: seq<(string, V)>, j: int)
    requires 0 <= j < |ps|
    requires ps[j].0 !in Keys(ps[..j])
    ensures Keys(FromPairs(ps[..j])) + [ps[j].0] <= Keys(FromPairs(ps))
  {
    FromPairsKeys(ps[..j]);
    FromPairsStep(ps, j);
    FromPairsPrefix(ps, j + 1);
  }

  /** The map built from one more pair sets that pair on the map built from the ones before. */
  lemma {:induction false} FromPairsStep<V>(ps: seq<(string, V)>, n: int)
    requires 0 <= n < |ps|
    ensures FromPairs(ps[..n + 1]) == Set(FromPairs(ps[..n]), ps[n].0, ps[n].1)
  {
    var p := ps[..n + 1];
    assert p[..|p| - 1] == ps[..n];
    assert p[|p| - 1] == ps[n];
  }

  /** Two maps without repeated keys that agree on keys-in-order and on every lookup are equal. */
  lemma {:induction false} Extensionality<V>(m: seq<(string, V)>, n: seq<(string, V)>)
    requires DistinctKeys(m) && DistinctKeys(n)
    requires Keys(m) == Keys(n)
    requires forall k :: Get(m, k) == Get(n, k)
    ensures m == n
  {
    assert |m| == |Keys(m)| == |n|;
    forall i | 0 <= i < |m| ensures m[i] == n[i] {
      assert m[i].0 == Keys(m)[i] == n[i].0;
      assert Get(m, m[i].0) == Some(m[i].1);
      assert Get(n, n[i].0) == Some(n[i].1);
    }
  }

  /** Setting a key keeps the keys distinct. */
  lemma {:induction false} SetDistinct<V>(m: seq<(string, V)>, k: string, v: V)
    requires DistinctKeys(m)
    ensures DistinctKeys(Set(m, k, v))
  {
    var r := Set(m, k, v);
    forall i, j | 0 <= i < j < |r| ensures r[i].0 != r[j].0 {
      assert Keys(r)[i] == r[i].0 && Keys(r)[j] == r[j].0;
      if k !in Keys(m) && j == |m| {
        assert Keys(m)[i] == m[i].0;
      } else {
        assert Keys(m)[i] == m[i].0 && Keys(m)[j] == m[j].0;
      }
    }
  }

  /** Removing a key from a map without repeats removes exactly its one entry, in place. */
  lemma {:induction false} RemoveAt<V>(m: seq<(string, V)>, i: int)
    requires DistinctKeys(m)
    requires 0 <= i < |m|
    ensures Remove(m, m[i].0) == m[..i] + m[i + 1..]
    ensures DistinctKeys(Remove(m, m[i].0))
  {
    if i == 0 {
      RemoveFirst(m);
    } else {
      var tail := m[1..];
      assert DistinctKeys(tail);
      RemoveAt(tail, i - 1);
      RemoveLater(m, m[i].0);
      SpliceCons(m, i);
    }
    SpliceDistinct(m, i);
  }

  /** Without repeats, removing the first key drops the first entry. */
  lemma {:induction false} RemoveFirst<V>(m: seq<(string, V)>)
    requires DistinctKeys(m) && m != []
    ensures Remove(m, m[0].0) == m[1..]
  {
    var tail := m[1..];
    assert m[0].0 !in Keys(tail) by {
      forall j | 0 <= j < |tail| ensures Keys(tail)[j] != m[0].0 {
        assert Keys(tail)[j] == m[j + 1].0;
      }
    }
  }

  /** Removing a key other than the first keeps the first entry. */
  lemma {:induction false} RemoveLater<V>(m: seq<(string, V)>, k: string)
    requires m != [] && m[0].0 != k
    ensures Remove(m, k) == [m[0]] + Remove(m[1..], k)
  {
  }

  /** Cutting out a later entry is cutting it out of the tail. */
  lemma {:induction false} SpliceCons<V>(m: seq<(string, V)>, i: int)
    requires 0 < i < |m|
    ensures m[..i] + m[i + 1..] == [m[0]] + (m[1..][..i - 1] + m[1..][i..])
  {
    assert m[1..][..i - 1] == m[1..i] && m[1..][i..] == m[i + 1..];
    assert m[..i] == [m[0]] + m[1..i];
  }

  /** Cutting one entry out of a map without repeats leaves none. */
  lemma {:induction false} SpliceDistinct<V>(m: seq<(string, V)>, i: int)
    requires DistinctKeys(m)
    requires 0 <= i < |m|
    ensures DistinctKeys(m[..i] + m[i + 1..])
  {
    var s := m[..i] + m[i + 1..];
    forall a, b | 0 <= a < b < |s| ensures s[a].0 != s[b].0 {
      var a', b' := if a < i then a else a + 1, if b < i then b else b + 1;
      assert s[a] == m[a'] && s[b] == m[b'];
    }
  }

  /** The keys of a map with one entry cut out are its keys with that one cut out. */
  lemma {:induction false} KeysSplice<V>(m: seq<(string, V)>, i: int)
    requires 0 <= i < |m|
    ensures Keys(m[..i] + m[i + 1..]) == Keys(m)[..i] + Keys(m)[i + 1..]
  {
    var a, b := Keys(m[..i] + m[i + 1..]), Keys(m)[..i] + Keys(m)[i + 1..];
    assert |a| == |b|;
    forall j | 0 <= j < |a| ensures a[j] == b[j] {
      if j < i {
        assert a[j] == m[j].0 == b[j];
      } else {
        assert a[j] == m[j + 1].0 == b[j];
      }
    }
  }

  /** For pairs without repeated keys the `Map` constructor changes nothing. */
  lemma {:induction false} FromDistinctPairs<V>(ps: seq<(string, V)>)
    requires DistinctKeys(ps)
    ensures FromPairs(ps) == ps
  {
    if ps != [] {
      var init, last := ps[..|ps| - 1], ps[|ps| - 1];
      assert ps == init + [last];
      LastKeyFresh(ps);
      FromDistinctPairs(init);
      FromPairsSnoc(init, last);
    }
  }

  /** Appending a fresh key to pairs the constructor leaves unchanged is left unchanged too. */
  lemma {:induction false} FromPairsSnoc<V>(init: seq<(string, V)>, last: (string, V))
    requires FromPairs(init) == init
    requires last.0 !in Keys(init)
    ensures FromPairs(init + [last]) == init + [last]
  {
    var ps := init + [last];
    assert ps[..|ps| - 1] == init;
    SetNew(init, last.0, last.1);
  }

  /** Without repeats, the last key is not among the others, and the others do not repeat. */
  lemma {:induction false} LastKeyFresh<V>(ps: seq<(string, V)>)
    requires DistinctKeys(ps) && ps != []
    ensures DistinctKeys(ps[..|ps| - 1])
    ensures ps[|ps| - 1].0 !in Keys(ps[..|ps| - 1])
  {
    var init := ps[..|ps| - 1];
    forall i | 0 <= i < |init| ensures Keys(init)[i] != ps[|ps| - 1].0 {
      assert Keys(init)[i] == ps[i].0;
    }
  }

  /** The `Map` constructor never produces a repeated key. */
  lemma {:induction false} FromPairsDistinct<V>(ps: seq<(string, V)>)
    ensures DistinctKeys(FromPairs(ps))
  {
    if ps != [] {
      FromPairsDistinct(ps[..|ps| - 1]);
      SetDistinct(FromPairs(ps[..|ps| - 1]), ps[|ps| - 1].0, ps[|ps| - 1].1);
    }
  }
}
