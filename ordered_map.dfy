/** JavaScript's Map and Set as the node uses them: insertion-ordered
    collections in which `set` on a present key keeps that key's position,
    `delete` closes the gap, and `add` of a present element changes nothing
    (ECMA-262, sections 24.1 and 24.2). */
module OrderedMap {
  import opened Wrappers

  /** No key occurs twice among the entries of `m` */
  predicate DistinctKeys<K(==,!new), V>(m: seq<(K, V)>) {
    forall i, j :: 0 <= i < j < |m| ==> m[i].0 != m[j].0
  }

  predicate HasKey<K(==,!new), V>(m: seq<(K, V)>, k: K) {
    exists i :: 0 <= i < |m| && m[i].0 == k
  }

  /** The position of key `k` among the entries of `m`, or -1 */
  function IndexOf<K(==,!new), V>(m: seq<(K, V)>, k: K): (r: int)
    ensures -1 <= r < |m|
    ensures r >= 0 ==> m[r].0 == k && forall i :: 0 <= i < r ==> m[i].0 != k
    ensures r == -1 <==> !HasKey(m, k)
  {
    if m == [] then -1
    else if m[0].0 == k then 0
    else
      var j := IndexOf(m[1..], k);
      assert forall i :: 0 < i < |m| ==> m[i] == m[1..][i - 1];
      if j < 0 then -1 else j + 1
  }

  /** Map.prototype.get, with `undefined` as None */
  function Get<K(==,!new), V>(m: seq<(K, V)>, k: K): (r: Option<V>)
    ensures r.Some? <==> HasKey(m, k)
    ensures r.Some? ==> (k, r.value) in m
  {
    var i := IndexOf(m, k);
    if i < 0 then None else Some(m[i].1)
  }

  /** Map.prototype.set */
  function Set<K(==,!new), V>(m: seq<(K, V)>, k: K, v: V): (r: seq<(K, V)>)
    ensures Get(r, k) == Some(v)
    ensures forall k' :: k' != k ==> Get(r, k') == Get(m, k')
    ensures DistinctKeys(m) ==> DistinctKeys(r)
    ensures HasKey(m, k) ==> |r| == |m| && IndexOf(r, k) == IndexOf(m, k)
    ensures !HasKey(m, k) ==> r == m + [(k, v)]
  {
    var i := IndexOf(m, k);
    if i < 0 then
      AppendKeepsOthers(m, k, v);
      m + [(k, v)]
    else
      ReplaceKeepsOthers(m, i, v);
      m[i := (k, v)]
  }

  /** `set` of an absent key appends its entry and leaves the others be */
  lemma AppendKeepsOthers<K(!new), V>(m: seq<(K, V)>, k: K, v: V)
    requires !HasKey(m, k)
    ensures Get(m + [(k, v)], k) == Some(v)
    ensures forall k' :: k' != k ==> Get(m + [(k, v)], k') == Get(m, k')
    ensures DistinctKeys(m) ==> DistinctKeys(m + [(k, v)])
  {
    var r := m + [(k, v)];
    forall k' | k' != k
      ensures IndexOf(r, k') == IndexOf(m, k')
    {
      IndexOfAppend(m, (k, v), k');
    }
    assert r[|m|].0 == k;
  }

  /** `set` of the key at position `i` replaces its value in place */
  lemma ReplaceKeepsOthers<K(!new), V>(m: seq<(K, V)>, i: nat, v: V)
    requires i < |m| && IndexOf(m, m[i].0) == i
    ensures var r := m[i := (m[i].0, v)];
            && Get(r, m[i].0) == Some(v)
            && (forall k' :: k' != m[i].0 ==> Get(r, k') == Get(m, k'))
            && (DistinctKeys(m) ==> DistinctKeys(r))
            && IndexOf(r, m[i].0) == i
  {
    var r := m[i := (m[i].0, v)];
    assert forall j :: 0 <= j < |m| ==> r[j].0 == m[j].0;
    forall k' | k' != m[i].0
      ensures Get(r, k') == Get(m, k')
    {
      SameKeysSameIndex(m, r, k');
    }
    SameKeysSameIndex(m, r, m[i].0);
  }

  /** Two entry lists with the same keys in the same order find every key
      at the same position, with the value of `r` at that position. */
  lemma {:induction false} SameKeysSameIndex<K(!new), V>(m: seq<(K, V)>, r: seq<(K, V)>, k: K)
    requires |r| == |m| && forall j :: 0 <= j < |m| ==> r[j].0 == m[j].0
    ensures IndexOf(r, k) == IndexOf(m, k)
  {
    if m != [] && m[0].0 != k {
      SameKeysSameIndex(m[1..], r[1..], k);
    }
  }

  /** A second `set` of the same key overrides the first, in place. */
  lemma SetTwice<K(!new), V>(m: seq<(K, V)>, k: K, v1: V, v2: V)
    ensures Set(Set(m, k, v1), k, v2) == Set(m, k, v2)
  {
    var i := IndexOf(m, k);
    if i < 0 {
      var r := m + [(k, v1)];
      assert r[|m|].0 == k;
      assert forall j :: 0 <= j < |m| ==> r[j] == m[j];
      assert r[|m| := (k, v2)] == m + [(k, v2)];
    } else {
      ReplaceKeepsOthers(m, i, v1);
    }
  }

  lemma {:induction false} IndexOfAppend<K(!new), V>(m: seq<(K, V)>, e: (K, V), k: K)
    requires k != e.0
    ensures IndexOf(m + [e], k) == IndexOf(m, k)
  {
    if m != [] {
      assert (m + [e])[1..] == m[1..] + [e];
      IndexOfAppend(m[1..], e, k);
    }
  }

  /** Map.prototype.delete */
  function Delete<K(==,!new), V>(m: seq<(K, V)>, k: K): (r: seq<(K, V)>)
    requires DistinctKeys(m)
    ensures DistinctKeys(r)
    ensures !HasKey(r, k)
    ensures forall k' :: k' != k ==> Get(r, k') == Get(m, k')
    ensures HasKey(m, k) ==> |r| == |m| - 1
    ensures !HasKey(m, k) ==> r == m
  {
    var i := IndexOf(m, k);
    if i < 0 then m
    else
      RemoveAtKeepsOthers(m, i);
      m[..i] + m[i + 1..]
  }

  lemma RemoveAtKeepsOthers<K(!new), V>(m: seq<(K, V)>, i: nat)
    requires DistinctKeys(m) && i < |m|
    ensures DistinctKeys(m[..i] + m[i + 1..])
    ensures !HasKey(m[..i] + m[i + 1..], m[i].0)
    ensures forall k' :: k' != m[i].0 ==> Get(m[..i] + m[i + 1..], k') == Get(m, k')
  {
    var r := m[..i] + m[i + 1..];
    assert forall j :: 0 <= j < |r| ==> r[j] == if j < i then m[j] else m[j + 1];
    forall k' | k' != m[i].0
      ensures Get(r, k') == Get(m, k')
    {
      RemoveAtGet(m, i, k');
    }
  }

  lemma RemoveAtGet<K(!new), V>(m: seq<(K, V)>, i: nat, k': K)
    requires DistinctKeys(m) && i < |m| && k' != m[i].0
    ensures Get(m[..i] + m[i + 1..], k') == Get(m, k')
  {
    var a, rest := m[..i], m[i + 1..];
    assert m == a + ([m[i]] + rest);
    if HasKey(a, k') {
      IndexOfPrefix(a, m[i + 1..], k');
      IndexOfPrefix(a, [m[i]] + rest, k');
    } else {
      IndexOfAfter(a, rest, k');
      IndexOfAfter(a, [m[i]] + rest, k');
      assert ([m[i]] + rest)[1..] == rest;
    }
  }

  /** A key found in `a` is found at the same place in `a + b`. */
  lemma {:induction false} IndexOfPrefix<K(!new), V>(a: seq<(K, V)>, b: seq<(K, V)>, k: K)
    requires HasKey(a, k)
    ensures IndexOf(a + b, k) == IndexOf(a, k)
  {
    if a[0].0 != k {
      assert (a + b)[1..] == a[1..] + b;
      var j :| 0 <= j < |a| && a[j].0 == k;
      assert a[1..][j - 1].0 == k;
      IndexOfPrefix(a[1..], b, k);
    }
  }

  /** A key missing from `a` is looked up in `b`, `|a|` places further on. */
  lemma {:induction false} IndexOfAfter<K(!new), V>(a: seq<(K, V)>, b: seq<(K, V)>, k: K)
    requires !HasKey(a, k)
    ensures IndexOf(a + b, k) == if IndexOf(b, k) < 0 then -1 else |a| + IndexOf(b, k)
  {
    if a == [] {
      assert a + b == b;
    } else {
      assert a[0].0 != k;
      assert (a + b)[1..] == a[1..] + b;
      assert forall j :: 0 <= j < |a[1..]| ==> a[1..][j] == a[j + 1];
      IndexOfAfter(a[1..], b, k);
    }
  }

  /** Deleting a key that `set` has just appended gives back the map before:
      a registration followed by its removal leaves no trace. */
  lemma SetThenDelete<K(!new), V>(m: seq<(K, V)>, k: K, v: V)
    requires DistinctKeys(m) && !HasKey(m, k)
    ensures Delete(Set(m, k, v), k) == m
  {
    var r := Set(m, k, v);
    assert IndexOf(r, k) == |m|;
    assert r[..|m|] == m;
  }

  /** Deleting the key of the first entry of `t`, when no entry of `p` has
      that key: the step a `forEach` takes when it deletes the entry it is
      visiting. */
  lemma DeleteVisited<K(!new), V>(p: seq<(K, V)>, t: seq<(K, V)>)
    requires DistinctKeys(p + t) && t != []
    requires forall j :: 0 <= j < |p| ==> p[j].0 != t[0].0
    ensures Delete(p + t, t[0].0) == p + t[1..]
  {
    var m := p + t;
    assert m[|p|].0 == t[0].0;
    assert IndexOf(m, t[0].0) == |p|;
    assert m[..|p|] == p && m[|p| + 1..] == t[1..];
  }

  /** Set.prototype.add on an insertion-ordered set without duplicates */
  function Add<T(==,!new)>(s: seq<T>, x: T): (r: seq<T>)
    ensures forall y :: y in r <==> y in s || y == x
    ensures x in s ==> r == s
    ensures x !in s ==> r == s + [x]
  {
    if x in s then s else s + [x]
  }

  /** Set.prototype.delete: on a set without duplicates the element's slot
      closes and every other element keeps its place in insertion order. */
  function Remove<T(==,!new)>(s: seq<T>, x: T): (r: seq<T>)
    ensures forall y :: y in r <==> y in s && y != x
    ensures |r| <= |s|
    ensures x !in s ==> r == s
    ensures Distinct(s) ==> forall i :: 0 <= i < |s| && s[i] == x ==> r == s[..i] + s[i + 1..]
  {
    if s == [] then []
    else if s[0] == x then
      assert Distinct(s) ==> x !in s[1..];
      Remove(s[1..], x)
    else
      assert forall i :: 0 < i <= |s| ==> s[..i] == [s[0]] + s[1..][..i - 1];
      [s[0]] + Remove(s[1..], x)
  }

  /** No element occurs twice in `s` */
  predicate Distinct<T(==,!new)>(s: seq<T>) {
    forall i, j :: 0 <= i < j < |s| ==> s[i] != s[j]
  }

  lemma AddKeepsDistinct<T(!new)>(s: seq<T>, x: T)
    requires Distinct(s)
    ensures Distinct(Add(s, x))
  {
  }

  lemma {:induction false} RemoveKeepsDistinct<T(!new)>(s: seq<T>, x: T)
    requires Distinct(s)
    ensures Distinct(Remove(s, x))
  {
    if s != [] {
      RemoveKeepsDistinct(s[1..], x);
      assert s[0] !in s[1..];
    }
  }
}
