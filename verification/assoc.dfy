/** JavaScript objects whose key order matters, modelled as association lists: the
    sequence of `Object.entries`, in insertion order. */
module AssocList {
  import opened Wrappers
  import opened Seqs

  type Assoc<K, V> = seq<(K, V)>

  /** `Object.keys`. */
  function Keys<K, V>(m: Assoc<K, V>): (ks: seq<K>)
    ensures |ks| == |m|
    ensures forall i :: 0 <= i < |m| ==> ks[i] == m[i].0
  {
    seq(|m|, i requires 0 <= i < |m| => m[i].0)
  }

  /** A well-formed object: no key occurs twice. */
  predicate DistinctKeys<K(==,!new), V>(m: Assoc<K, V>) {
    NoDup(Keys(m))
  }

  lemma KeysAppend<K, V>(a: Assoc<K, V>, b: Assoc<K, V>)
    ensures Keys(a + b) == Keys(a) + Keys(b)
  {
  }

  lemma KeysCons<K, V>(m: Assoc<K, V>)
    requires |m| > 0
    ensures Keys(m) == [m[0].0] + Keys(m[1..])
  {
  }

  /** Moving an entry moves its key the same way. */
  lemma KeysArrayMove<K, V>(m: Assoc<K, V>, from: nat, to: nat)
    requires from < |m| && to < |m|
    ensures Keys(ArrayMove(m, from, to)) == ArrayMove(Keys(m), from, to)
  {
    var r := ArrayMove(m, from, to);
    var ks := ArrayMove(Keys(m), from, to);
    forall j | 0 <= j < |m| ensures Keys(r)[j] == ks[j] {
      if j < to {
        assert r[j] == RemoveAt(m, from)[j] && ks[j] == RemoveAt(Keys(m), from)[j];
      } else if j > to {
        assert r[j] == RemoveAt(m, from)[j - 1] && ks[j] == RemoveAt(Keys(m), from)[j - 1];
      }
    }
  }

  /** `obj[k]`: the value stored under `k`, or None when `k` is not a key. */
  function Get<K(==,!new), V>(m: Assoc<K, V>, k: K): (r: Option<V>)
    ensures r.Some? <==> k in Keys(m)
    ensures r.Some? ==> (k, r.value) in m
  {
    if |m| == 0 then None
    else if m[0].0 == k then Some(m[0].1)
    else
      KeysCons(m);
      Get(m[1..], k)
  }

  /** In a well-formed object every entry is found by its own key. */
  lemma {:induction false} GetEntry<K(!new), V>(m: Assoc<K, V>, i: nat)
    requires DistinctKeys(m) && i < |m|
    ensures Get(m, m[i].0) == Some(m[i].1)
  {
    if i > 0 {
      assert Keys(m)[0] != Keys(m)[i];
      assert DistinctKeys(m[1..]) by {
        assert Keys(m[1..]) == Keys(m)[1..];
      }
      GetEntry(m[1..], i - 1);
    }
  }

  /** Lookup in an appended object. */
  lemma {:induction false} GetAppend<K(!new), V>(m: Assoc<K, V>, e: (K, V), k: K)
    ensures Get(m + [e], k) == if k in Keys(m) then Get(m, k) else if e.0 == k then Some(e.1) else None
  {
    if |m| > 0 {
      KeysCons(m);
      assert (m + [e])[1..] == m[1..] + [e];
      GetAppend(m[1..], e, k);
    }
  }

  /** The test that keeps every key but `k`. */
  function Other<K(==)>(k: K): K -> bool {
    j => j != k
  }

  /** `delete obj[k]`: every entry under `k` is dropped, the rest keep their order. */
  function Delete<K(==,!new), V>(m: Assoc<K, V>, k: K): (r: Assoc<K, V>)
    ensures |r| <= |m|
    ensures forall j :: j in Keys(r) <==> j in Keys(m) && j != k
    ensures forall j :: j != k ==> Get(r, j) == Get(m, j)
  {
    if |m| == 0 then []
    else
      var rest := Delete(m[1..], k);
      if m[0].0 == k then
        KeysCons(m);
        rest
      else
        var r := [m[0]] + rest;
        DeleteStep(m, k, rest, r);
        r
  }

  /** The keys left by `delete obj[k]` are the others, in their original order. */
  lemma {:induction false} DeleteKeys<K(!new), V>(m: Assoc<K, V>, k: K)
    ensures Keys(Delete(m, k)) == Filter(Keys(m), Other(k))
  {
    if |m| > 0 {
      KeysCons(m);
      DeleteKeys(m[1..], k);
      if m[0].0 != k {
        var r := Delete(m, k);
        assert r == [m[0]] + Delete(m[1..], k);
        KeysCons(r);
        assert r[1..] == Delete(m[1..], k);
      }
    }
  }

  lemma DeleteStep<K(!new), V>(m: Assoc<K, V>, k: K, rest: Assoc<K, V>, r: Assoc<K, V>)
    requires |m| > 0 && m[0].0 != k && r == [m[0]] + rest
    requires forall j :: j in Keys(rest) <==> j in Keys(m[1..]) && j != k
    requires forall j :: j != k ==> Get(rest, j) == Get(m[1..], j)
    ensures forall j :: j in Keys(r) <==> j in Keys(m) && j != k
    ensures forall j :: j != k ==> Get(r, j) == Get(m, j)
  {
    KeysCons(m);
    KeysCons(r);
    assert r[1..] == rest;
  }

  /** Deleting an absent key changes nothing. */
  lemma {:induction false} DeleteAbsent<K(!new), V>(m: Assoc<K, V>, k: K)
    requires k !in Keys(m)
    ensures Delete(m, k) == m
  {
    if |m| > 0 {
      KeysCons(m);
      DeleteAbsent(m[1..], k);
    }
  }

  /** Deleting keeps an object well formed. */
  lemma {:induction false} DeleteDistinct<K(!new), V>(m: Assoc<K, V>, k: K)
    requires DistinctKeys(m)
    ensures DistinctKeys(Delete(m, k))
  {
    if |m| > 0 {
      KeysCons(m);
      NoDupCons(m[0].0, Keys(m[1..]));
      DeleteDistinct(m[1..], k);
      var rest := Delete(m[1..], k);
      if m[0].0 != k {
        var r := [m[0]] + rest;
        KeysCons(r);
        assert r[1..] == rest;
        NoDupCons(m[0].0, Keys(rest));
      }
    }
  }

  /** Deleting the key of an entry whose key occurs nowhere else removes exactly that entry. */
  lemma {:induction false} DeleteUniqueAt<K(!new), V>(m: Assoc<K, V>, i: nat)
    requires i < |m|
    requires forall j :: 0 <= j < |m| && j != i ==> m[j].0 != m[i].0
    ensures Delete(m, m[i].0) == RemoveAt(m, i)
  {
    var k := m[i].0;
    if i == 0 {
      assert k !in Keys(m[1..]);
      DeleteAbsent(m[1..], k);
    } else {
      assert m[i] == m[1..][i - 1];
      DeleteUniqueAt(m[1..], i - 1);
      assert RemoveAt(m, i) == [m[0]] + RemoveAt(m[1..], i - 1);
    }
  }

  /** Deleting a key present in a well-formed object removes exactly its one entry. */
  lemma DeleteAt<K(!new), V>(m: Assoc<K, V>, i: nat)
    requires DistinctKeys(m) && i < |m|
    ensures Delete(m, m[i].0) == RemoveAt(m, i)
  {
    assert forall j :: 0 <= j < |m| && j != i ==> Keys(m)[j] != Keys(m)[i];
    DeleteUniqueAt(m, i);
  }

  /** Overwrites, in place, the value of every entry under `k`. */
  function Replace<K(==,!new), V>(m: Assoc<K, V>, k: K, v: V): (r: Assoc<K, V>)
    ensures Keys(r) == Keys(m)
    ensures forall i :: 0 <= i < |m| ==> r[i] == if m[i].0 == k then (k, v) else m[i]
  {
    if |m| == 0 then []
    else
      var r := [if m[0].0 == k then (k, v) else m[0]] + Replace(m[1..], k, v);
      KeysCons(m);
      KeysCons(r);
      r
  }

  lemma {:induction false} GetReplace<K(!new), V>(m: Assoc<K, V>, k: K, v: V, j: K)
    ensures Get(Replace(m, k, v), j) == if j == k && k in Keys(m) then Some(v) else Get(m, j)
  {
    if |m| > 0 {
      KeysCons(m);
      var r := Replace(m, k, v);
      assert r[1..] == Replace(m[1..], k, v);
      GetReplace(m[1..], k, v, j);
    }
  }

  /** `obj[k] = v`: an existing key keeps its place, a new key goes last. */
  function Assign<K(==,!new), V>(m: Assoc<K, V>, k: K, v: V): (r: Assoc<K, V>)
    ensures Get(r, k) == Some(v)
    ensures forall j :: j != k ==> Get(r, j) == Get(m, j)
    ensures k in Keys(m) ==> Keys(r) == Keys(m)
    ensures k !in Keys(m) ==> r == m + [(k, v)]
    ensures DistinctKeys(m) ==> DistinctKeys(r)
  {
    if k in Keys(m) then
      var r := Replace(m, k, v);
      forall j ensures Get(r, j) == if j == k then Some(v) else Get(m, j) {
        GetReplace(m, k, v, j);
      }
      r
    else
      var r := m + [(k, v)];
      KeysAppend(m, [(k, v)]);
      forall j ensures Get(r, j) == if j == k then Some(v) else Get(m, j) {
        GetAppend(m, (k, v), j);
      }
      r
  }

  /** Reference for `Object.fromEntries`: the value of the LAST entry with key `k`. */
  function LastValue<K(==,!new), V>(es: seq<(K, V)>, k: K): Option<V> {
    if |es| == 0 then None
    else if es[|es| - 1].0 == k then Some(es[|es| - 1].1)
    else LastValue(es[..|es| - 1], k)
  }

  /** `Object.fromEntries`: assigns the entries in order, so a repeated key keeps the
      position of its first entry and the value of its last. */
  function FromEntries<K(==,!new), V>(es: seq<(K, V)>): (r: Assoc<K, V>)
    ensures DistinctKeys(r)
    ensures Keys(r) == Dedup(Keys(es))
    ensures forall k :: Get(r, k) == LastValue(es, k)
  {
    if |es| == 0 then []
    else
      var prefix := es[..|es| - 1];
      var last := es[|es| - 1];
      assert Keys(es)[..|es| - 1] == Keys(prefix);
      Assign(FromEntries(prefix), last.0, last.1)
  }

  /** Rebuilding an object from the entries of a well-formed one gives it back. */
  lemma {:induction false} FromEntriesOfDistinct<K(!new), V>(es: seq<(K, V)>)
    requires DistinctKeys(es)
    ensures FromEntries(es) == es
  {
    if |es| > 0 {
      var prefix := es[..|es| - 1];
      assert Keys(prefix) == Keys(es)[..|es| - 1];
      assert DistinctKeys(prefix);
      FromEntriesOfDistinct(prefix);
      assert es[|es| - 1].0 !in Keys(prefix) by {
        assert forall j :: 0 <= j < |prefix| ==> Keys(es)[j] != Keys(es)[|es| - 1];
      }
      assert FromEntries(es) == Assign(FromEntries(prefix), es[|es| - 1].0, es[|es| - 1].1);
      assert prefix + [es[|es| - 1]] == es;
    }
  }
}
