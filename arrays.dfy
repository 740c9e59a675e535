/**
  The two array operations the sidebar search chains: Array.prototype.filter
  and Array.prototype.sort with a comparator. ECMAScript requires `sort` to be
  stable, so it is modelled by a stable insertion sort.
 */
module Arrays {

  /** Array.prototype.filter: the elements satisfying `p`, in their original order. */
  function Filter<T>(s: seq<T>, p: T -> bool): (r: seq<T>)
    ensures |r| <= |s|
    ensures forall i :: 0 <= i < |r| ==> p(r[i])
  {
    if s == [] then []
    else (if p(s[0]) then [s[0]] else []) + Filter(s[1..], p)
  }

  /** The filter keeps each element that passes, as often as it occurs, and nothing else. */
  lemma {:induction false} FilterCounts<T(!new)>(s: seq<T>, p: T -> bool)
    ensures forall x :: multiset(Filter(s, p))[x] == if p(x) then multiset(s)[x] else 0
    decreases |s|
  {
    if s != [] {
      FilterCounts(s[1..], p);
      assert s == [s[0]] + s[1..];
    }
  }

  lemma AppendAssoc<T>(a: seq<T>, b: seq<T>, c: seq<T>)
    ensures a + (b + c) == (a + b) + c
  {
  }

  /** Three adjacent slices of a sequence join into one. */
  lemma SlicesJoin<T>(s: seq<T>, i: nat, j: nat, k: nat)
    requires i <= j <= k <= |s|
    ensures s[i..j] + (s[j..k] + s[k..]) == s[i..]
  {
  }

  /** Filtering a concatenation filters each half. */
  lemma {:induction false} FilterAppend<T>(a: seq<T>, b: seq<T>, p: T -> bool)
    ensures Filter(a + b, p) == Filter(a, p) + Filter(b, p)
    decreases |a|
  {
    if a != [] {
      FilterAppend(a[1..], b, p);
      assert (a + b)[0] == a[0];
      assert (a + b)[1..] == a[1..] + b;
    } else {
      assert a + b == b;
    }
  }

  /** Filtering twice is filtering once by the conjunction `r`. */
  lemma {:induction false} FilterFilter<T(!new)>(s: seq<T>, p: T -> bool, q: T -> bool, r: T -> bool)
    requires forall x :: r(x) <==> p(x) && q(x)
    ensures Filter(Filter(s, p), q) == Filter(s, r)
    decreases |s|
  {
    if s != [] {
      FilterFilter(s[1..], p, q, r);
      var head := if p(s[0]) then [s[0]] else [];
      FilterAppend(head, Filter(s[1..], p), q);
    }
  }

  /** A filter that every element passes keeps the whole sequence. */
  lemma {:induction false} FilterAll<T>(s: seq<T>, p: T -> bool)
    requires forall i :: 0 <= i < |s| ==> p(s[i])
    ensures Filter(s, p) == s
    decreases |s|
  {
    if s != [] {
      FilterAll(s[1..], p);
    }
  }

  /** A filter that no element passes keeps nothing. */
  lemma {:induction false} FilterNone<T>(s: seq<T>, p: T -> bool)
    requires forall i :: 0 <= i < |s| ==> !p(s[i])
    ensures Filter(s, p) == []
    decreases |s|
  {
    if s != [] {
      FilterNone(s[1..], p);
    }
  }

  /**
    A sequence in which every element satisfying `p` comes before every
    element that does not is the `p`-elements followed by the others, each
    group in its own order. `q` is the complement of `p`.
   */
  lemma {:induction false} PartitionedIsFilters<T(!new)>(s: seq<T>, p: T -> bool, q: T -> bool)
    requires forall x :: q(x) <==> !p(x)
    requires forall i, j :: 0 <= i < j < |s| && p(s[j]) ==> p(s[i])
    ensures s == Filter(s, p) + Filter(s, q)
    decreases |s|
  {
    if s != [] {
      PartitionedIsFilters(s[1..], p, q);
      if !p(s[0]) {
        FilterNone(s[1..], p);
        FilterAll(s, q);
      }
    }
  }

  /**
    Inserts `x` in front of the first element it does not sort after
    (`cmp(x, y) <= 0`), so that `x` stays ahead of the elements it compares
    equal to: the step of a stable insertion sort.
   */
  function InsertBy<T>(x: T, s: seq<T>, cmp: (T, T) -> int): (r: seq<T>)
    ensures multiset(r) == multiset(s) + multiset{x}
  {
    if s == [] || cmp(x, s[0]) <= 0 then [x] + s
    else
      assert s == [s[0]] + s[1..];
      [s[0]] + InsertBy(x, s[1..], cmp)
  }

  /** Array.prototype.sort(cmp), stable: a permutation of its input. */
  function SortBy<T>(s: seq<T>, cmp: (T, T) -> int): (r: seq<T>)
    ensures multiset(r) == multiset(s)
  {
    if s == [] then []
    else
      assert s == [s[0]] + s[1..];
      InsertBy(s[0], SortBy(s[1..], cmp), cmp)
  }

  /**
    `cmp` is the comparator that sorts the elements satisfying `key` first
    and compares every other pair equal; `notKey` is the complement of `key`.
   */
  ghost predicate KeyFirst<T(!new)>(cmp: (T, T) -> int, key: T -> bool, notKey: T -> bool) {
    && (forall a, b :: cmp(a, b) == if key(a) && !key(b) then -1 else if !key(a) && key(b) then 1 else 0)
    && (forall x :: notKey(x) <==> !key(x))
  }

  /** Inserting an element without the key skips the keyed elements and lands before the others. */
  lemma {:induction false} InsertAfterKeyed<T(!new)>(
    x: T, keyed: seq<T>, others: seq<T>, cmp: (T, T) -> int, key: T -> bool, notKey: T -> bool)
    requires KeyFirst(cmp, key, notKey)
    requires !key(x)
    requires forall i :: 0 <= i < |keyed| ==> key(keyed[i])
    requires forall i :: 0 <= i < |others| ==> !key(others[i])
    ensures InsertBy(x, keyed + others, cmp) == keyed + [x] + others
    decreases |keyed|
  {
    if keyed == [] {
      assert keyed + others == others;
    } else {
      assert (keyed + others)[1..] == keyed[1..] + others;
      InsertAfterKeyed(x, keyed[1..], others, cmp, key, notKey);
    }
  }

  /** Inserting into the keyed elements followed by the others keeps the two groups apart. */
  lemma InsertKeyFirst<T(!new)>(
    x: T, keyed: seq<T>, others: seq<T>, cmp: (T, T) -> int, key: T -> bool, notKey: T -> bool)
    requires KeyFirst(cmp, key, notKey)
    requires forall i :: 0 <= i < |keyed| ==> key(keyed[i])
    requires forall i :: 0 <= i < |others| ==> !key(others[i])
    ensures key(x) ==> InsertBy(x, keyed + others, cmp) == ([x] + keyed) + others
    ensures !key(x) ==> InsertBy(x, keyed + others, cmp) == keyed + ([x] + others)
  {
    if key(x) {
      var s := keyed + others;
      assert s == [] || cmp(x, s[0]) <= 0;
      AppendAssoc([x], keyed, others);
    } else {
      InsertAfterKeyed(x, keyed, others, cmp, key, notKey);
      AppendAssoc(keyed, [x], others);
    }
  }

  /** The stable sort by a key-first comparator is the keyed elements, then the others, each in input order. */
  lemma {:induction false} SortByKeyFirst<T(!new)>(s: seq<T>, cmp: (T, T) -> int, key: T -> bool, notKey: T -> bool)
    requires KeyFirst(cmp, key, notKey)
    ensures SortBy(s, cmp) == Filter(s, key) + Filter(s, notKey)
    decreases |s|
  {
    if s == [] {
      assert Filter(s, key) == [] && Filter(s, notKey) == [];
    } else {
      var keyed := Filter(s[1..], key);
      var others := Filter(s[1..], notKey);
      SortByKeyFirst(s[1..], cmp, key, notKey);
      InsertKeyFirst(s[0], keyed, others, cmp, key, notKey);
      if key(s[0]) {
        assert Filter(s, notKey) == others;
      } else {
        assert Filter(s, key) == keyed;
      }
    }
  }

  /**
    The `p`-elements followed by the `q`-elements, for disjoint `p` and `q`:
    every `p`-element precedes every other element, and filtering the result
    by `p` or by `q` gives back the same elements in the same order.
   */
  lemma GroupsKeepOrder<T(!new)>(s: seq<T>, p: T -> bool, q: T -> bool)
    requires forall x :: p(x) ==> !q(x)
    ensures var r := Filter(s, p) + Filter(s, q);
      && (forall i, j :: 0 <= i < j < |r| && p(r[j]) ==> p(r[i]))
      && Filter(r, p) == Filter(s, p)
      && Filter(r, q) == Filter(s, q)
  {
    var ps, qs := Filter(s, p), Filter(s, q);
    var r := ps + qs;
    forall i, j | 0 <= i < j < |r| && p(r[j]) ensures p(r[i]) {
      assert r[i] == ps[i];
    }
    FilterAppend(ps, qs, p);
    FilterAll(ps, p);
    FilterNone(qs, p);
    FilterAppend(ps, qs, q);
    FilterNone(ps, q);
    FilterAll(qs, q);
  }
}
