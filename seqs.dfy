/** Python list and dictionary idioms the checks use: list comprehensions
    with a condition, `list.index`, `dict(zip(keys, values))`, and a loop
    that sets one dictionary entry per line. */
module Seqs {
  import opened Common

  /** `[x for x in s if p(x)]`. */
  function Filter<T(==,!new)>(s: seq<T>, p: T -> bool): (r: seq<T>)
    ensures |r| <= |s|
    ensures forall x :: x in r <==> x in s && p(x)
    decreases |s|
  {
    if |s| == 0 then []
    else
      var rest := Filter(s[1..], p);
      assert forall x :: x in s <==> x == s[0] || x in s[1..];
      (if p(s[0]) then [s[0]] else []) + rest
  }

  /** The comprehension keeps every element that satisfies the condition as
      often as it occurs, and drops every other one. */
  lemma {:induction false} FilterCount<T(!new)>(s: seq<T>, p: T -> bool, x: T)
    ensures multiset(Filter(s, p))[x] == if p(x) then multiset(s)[x] else 0
    decreases |s|
  {
    if |s| > 0 {
      FilterCount(s[1..], p, x);
      assert s == [s[0]] + s[1..];
      assert multiset(s) == multiset([s[0]]) + multiset(s[1..]);
    }
  }

  lemma FilterCons<T(!new)>(x: T, s: seq<T>, p: T -> bool)
    ensures Filter([x] + s, p) == (if p(x) then [x] else []) + Filter(s, p)
  {
    assert ([x] + s)[0] == x && ([x] + s)[1..] == s;
  }

  /** The comprehension keeps the input order: filtering a concatenation
      concatenates the filtered halves. */
  lemma {:induction false} FilterAppend<T(!new)>(a: seq<T>, b: seq<T>, p: T -> bool)
    ensures Filter(a + b, p) == Filter(a, p) + Filter(b, p)
    decreases |a|
  {
    if |a| > 0 {
      FilterAppend(a[1..], b, p);
      assert (a + b)[0] == a[0] && (a + b)[1..] == a[1..] + b;
    } else {
      assert a + b == b;
    }
  }

  /** `s.index(x)`: the first position of `x` in `s`. */
  function IndexOfElem<T(==)>(s: seq<T>, x: T): (i: nat)
    requires x in s
    ensures i < |s| && s[i] == x
    ensures forall j :: 0 <= j < i ==> s[j] != x
    decreases |s|
  {
    if s[0] == x then 0
    else
      assert x in s[1..];
      1 + IndexOfElem(s[1..], x)
  }

  /** `dict(zip(keys, vals))`: pairs the two lists up to the shorter one's
      length; when a key repeats, its last pairing wins. */
  function ZipDict<K(==,!new), V>(keys: seq<K>, vals: seq<V>): (m: map<K, V>)
    ensures forall k :: k in m <==> exists i :: 0 <= i < |keys| && i < |vals| && keys[i] == k
    ensures forall i :: 0 <= i < |keys| && i < |vals| && LastAt(keys, vals, i) ==> m[keys[i]] == vals[i]
    decreases |keys|
  {
    var n := if |keys| < |vals| then |keys| else |vals|;
    if n == 0 then map[]
    else
      var ks, vs := keys[..n - 1], vals[..n - 1];
      var m := ZipDict(ks, vs);
      assert forall i :: 0 <= i < n - 1 ==> ks[i] == keys[i] && vs[i] == vals[i];
      assert forall i :: 0 <= i < n - 1 && LastAt(keys, vals, i) ==> LastAt(ks, vs, i);
      m[keys[n - 1] := vals[n - 1]]
  }

  /** Position `i` is the last of the paired positions that holds `keys[i]`. */
  predicate LastAt<K(==), V>(keys: seq<K>, vals: seq<V>, i: nat)
    requires i < |keys|
  {
    forall j :: i < j < |keys| && j < |vals| ==> keys[j] != keys[i]
  }

  /** A loop that runs `d[k] = v` for each entry `Some((k, v))` of `es`, in
      order, and stores nothing for a `None` entry. */
  function Upserts<K(==), V>(m: map<K, V>, es: seq<Option<(K, V)>>): map<K, V>
    decreases |es|
  {
    if |es| == 0 then m
    else
      var next := if es[0].Some? then m[es[0].value.0 := es[0].value.1] else m;
      Upserts(next, es[1..])
  }

  /** The entry `e` stores a value under `k`. */
  predicate Files<K(==), V>(e: Option<(K, V)>, k: K) { e.Some? && e.value.0 == k }

  /** Some entry stores a value under `k`. */
  predicate Filed<K(==), V>(es: seq<Option<(K, V)>>, k: K) {
    exists i :: 0 <= i < |es| && Files(es[i], k)
  }

  /** Entry `i` is the last one that stores a value under `k`. */
  predicate LastFiles<K(==), V>(es: seq<Option<(K, V)>>, k: K, i: nat) {
    i < |es| && Files(es[i], k) && forall j :: i < j < |es| ==> !Files(es[j], k)
  }

  /** The last store wins: `k` ends up in the dictionary iff it was there or
      some entry stores under it; it then holds the value of the last such
      entry, or the value it started with when none does. */
  lemma {:induction false} UpsertsContents<K, V>(m: map<K, V>, es: seq<Option<(K, V)>>, k: K)
    ensures var r := Upserts(m, es);
      (k in r <==> k in m || Filed(es, k)) &&
      (forall i: nat :: LastFiles(es, k, i) ==> k in r && r[k] == es[i].value.1) &&
      (!Filed(es, k) && k in m ==> r[k] == m[k])
    decreases |es|
  {
    if |es| > 0 {
      var tail := es[1..];
      var next := if es[0].Some? then m[es[0].value.0 := es[0].value.1] else m;
      UpsertsContents(next, tail, k);
      if Filed(tail, k) {
        var i :| 0 <= i < |tail| && Files(tail[i], k);
        assert es[i + 1] == tail[i];
      }
      if Filed(es, k) && !Files(es[0], k) {
        var i :| 0 <= i < |es| && Files(es[i], k);
        assert tail[i - 1] == es[i];
      }
      var r := Upserts(m, es);
      forall i: nat | LastFiles(es, k, i) ensures k in r && r[k] == es[i].value.1 {
        if i > 0 {
          forall j | i - 1 < j < |tail| ensures !Files(tail[j], k) {
            assert tail[j] == es[j + 1];
          }
          assert LastFiles(tail, k, i - 1);
        }
      }
    }
  }
}
