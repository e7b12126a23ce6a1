/** Filters, counts and a stable sort over sequences: the model's reading of
    SQL `WHERE`, `COUNT(*)` and `ORDER BY`, and of JavaScript's `filter`,
    `length` and (stable) `Array.prototype.sort`. */
module Seqs {

  import opened Common

  /** The first element whose key is `k`, or none when no element has it:
      `rows[0] || null` over a `SELECT ... WHERE id = ?` on a table of
      distinct ids. */
  function FirstWith<T, K(==)>(s: seq<T>, key: T -> K, k: K): (r: Option<T>)
    ensures r.None? <==> forall i :: 0 <= i < |s| ==> key(s[i]) != k
    ensures r.Some? ==> r.value in s && key(r.value) == k
  {
    if s == [] then None
    else if key(s[0]) == k then Some(s[0])
    else
      assert forall i :: 1 <= i < |s| ==> s[1..][i - 1] == s[i];
      FirstWith(s[1..], key, k)
  }

  /** Concatenation is associative; stated once so that callers need not
      compare the two sides element by element. */
  lemma AppendAssoc<T>(a: seq<T>, b: seq<T>, c: seq<T>)
    ensures a + b + c == a + (b + c)
  {
  }

  /** The elements of `s` that satisfy `p`, in their original order. */
  function Filter<T(!new)>(s: seq<T>, p: T -> bool): (r: seq<T>)
    ensures |r| <= |s|
    ensures forall x :: x in r <==> x in s && p(x)
    ensures multiset(r) <= multiset(s)
  {
    if s == [] then []
    else
      assert s == [s[0]] + s[1..];
      (if p(s[0]) then [s[0]] else []) + Filter(s[1..], p)
  }

  lemma FilterAppend<T(!new)>(a: seq<T>, b: seq<T>, p: T -> bool)
    ensures Filter(a + b, p) == Filter(a, p) + Filter(b, p)
  {
    if a == [] {
      assert a + b == b;
    } else {
      assert (a + b)[1..] == a[1..] + b;
      FilterAppend(a[1..], b, p);
    }
  }

  /** Filter unfolded once at the front. */
  lemma FilterCons<T(!new)>(s: seq<T>, p: T -> bool)
    requires s != []
    ensures Filter(s, p) == (if p(s[0]) then [s[0]] else []) + Filter(s[1..], p)
  {
  }

  lemma FilterSnoc<T(!new)>(s: seq<T>, x: T, p: T -> bool)
    ensures Filter(s + [x], p) == Filter(s, p) + (if p(x) then [x] else [])
  {
    FilterAppend(s, [x], p);
    FilterCons([x], p);
    assert [x][1..] == [];
  }

  /** The first element kept is the first element that satisfies `p`. */
  lemma {:induction false} FilterFirst<T(!new)>(s: seq<T>, p: T -> bool, j: nat)
    requires j < |s| && p(s[j])
    requires forall i :: 0 <= i < j ==> !p(s[i])
    ensures Filter(s, p) != [] && Filter(s, p)[0] == s[j]
  {
    if j > 0 {
      assert forall i :: 0 <= i < j - 1 ==> s[1..][i] == s[i + 1];
      FilterFirst(s[1..], p, j - 1);
    }
  }

  /** Nothing is kept when no element satisfies `p`. */
  lemma {:induction false} FilterNone<T(!new)>(s: seq<T>, p: T -> bool)
    requires forall i :: 0 <= i < |s| ==> !p(s[i])
    ensures Filter(s, p) == []
  {
    if s != [] {
      assert forall i :: 0 <= i < |s| - 1 ==> s[1..][i] == s[i + 1];
      FilterNone(s[1..], p);
    }
  }

  /** The filter is empty exactly when no element satisfies `p`. */
  lemma {:induction false} FilterEmpty<T(!new)>(s: seq<T>, p: T -> bool)
    ensures Filter(s, p) == [] <==> forall x :: x in s ==> !p(x)
  {
    if Filter(s, p) != [] {
      assert Filter(s, p)[0] in Filter(s, p);
    }
  }

  /** A middle part whose elements all fail `p` drops out of the filter. */
  lemma {:induction false} FilterDropMiddle<T(!new)>(a: seq<T>, w: seq<T>, b: seq<T>, p: T -> bool)
    requires forall i :: 0 <= i < |w| ==> !p(w[i])
    ensures Filter(a + w + b, p) == Filter(a, p) + Filter(b, p)
  {
    FilterNone(w, p);
    FilterAppend(a, w, p);
    assert Filter(a, p) + [] == Filter(a, p);
    FilterAppend(a + w, b, p);
  }

  /** Filtering keeps every element when all of them satisfy `p`. */
  lemma {:induction false} FilterAll<T(!new)>(s: seq<T>, p: T -> bool)
    requires forall x :: x in s ==> p(x)
    ensures Filter(s, p) == s
  {
    if s != [] {
      FilterAll(s[1..], p);
    }
  }

  /** A weaker condition keeps at least as many elements. */
  lemma {:induction false} FilterMonotone<T(!new)>(s: seq<T>, p: T -> bool, q: T -> bool)
    requires forall x :: p(x) ==> q(x)
    ensures |Filter(s, p)| <= |Filter(s, q)|
  {
    if s != [] {
      FilterMonotone(s[1..], p, q);
    }
  }

  /** Two conditions that agree on the elements of `s` keep the same elements. */
  lemma {:induction false} FilterCongruent<T(!new)>(s: seq<T>, p: T -> bool, q: T -> bool)
    requires forall x :: x in s ==> (p(x) <==> q(x))
    ensures Filter(s, p) == Filter(s, q)
  {
    if s != [] {
      FilterCongruent(s[1..], p, q);
    }
  }

  /** Whether an element's key is `g`. */
  function HasKey<T, K(==)>(key: T -> K, g: K): T -> bool {
    x => key(x) == g
  }

  /** `groups` holds, for each key with elements in `s`, exactly those
      elements in order, and no entry for a key without elements. */
  ghost predicate GroupedBy<T(!new), K(!new)>(groups: map<K, seq<T>>, s: seq<T>, key: T -> K) {
    && (forall g :: g in groups ==> groups[g] == Filter(s, HasKey(key, g)) != [])
    && (forall g :: g !in groups ==> Filter(s, HasKey(key, g)) == [])
  }

  /** Appending an element to its own key's entry, created when missing,
      keeps the grouping of the extended sequence. */
  lemma GroupedBySnoc<T(!new), K(!new)>(groups: map<K, seq<T>>, s: seq<T>, x: T, key: T -> K)
    requires GroupedBy(groups, s, key)
    ensures GroupedBy(groups[key(x) := (if key(x) in groups then groups[key(x)] else []) + [x]], s + [x], key)
  {
    var next := groups[key(x) := (if key(x) in groups then groups[key(x)] else []) + [x]];
    forall g
      ensures g in next ==> next[g] == Filter(s + [x], HasKey(key, g)) != []
      ensures g !in next ==> Filter(s + [x], HasKey(key, g)) == []
    {
      FilterSnoc(s, x, HasKey(key, g));
      if g == key(x) {
        assert next[g] == Filter(s, HasKey(key, g)) + [x];
      } else {
        assert Filter(s + [x], HasKey(key, g)) == Filter(s, HasKey(key, g));
      }
    }
  }

  ghost predicate Total<T(!new)>(le: (T, T) -> bool) {
    forall a, b :: le(a, b) || le(b, a)
  }

  ghost predicate Transitive<T(!new)>(le: (T, T) -> bool) {
    forall a, b, c :: le(a, b) && le(b, c) ==> le(a, c)
  }

  /** Each element is `le` its successor. */
  predicate Sorted<T>(s: seq<T>, le: (T, T) -> bool) {
    forall i :: 0 < i < |s| ==> le(s[i - 1], s[i])
  }

  /** Puts `x` before the first element it is `le`: with `x` taken from the
      front of the input, equal elements keep their input order. */
  function Insert<T>(x: T, s: seq<T>, le: (T, T) -> bool): (r: seq<T>)
    ensures |r| == |s| + 1
    ensures multiset(r) == multiset(s) + multiset{x}
  {
    if s == [] || le(x, s[0]) then [x] + s
    else
      assert s == [s[0]] + s[1..];
      [s[0]] + Insert(x, s[1..], le)
  }

  /** A stable insertion sort: a permutation of `s`. */
  function SortBy<T>(s: seq<T>, le: (T, T) -> bool): (r: seq<T>)
    ensures |r| == |s|
    ensures multiset(r) == multiset(s)
  {
    if s == [] then []
    else
      assert s == [s[0]] + s[1..];
      Insert(s[0], SortBy(s[1..], le), le)
  }

  lemma {:induction false} InsertSorted<T(!new)>(x: T, s: seq<T>, le: (T, T) -> bool)
    requires Total(le) && Sorted(s, le)
    ensures Sorted(Insert(x, s, le), le)
    ensures s != [] && !le(x, s[0]) ==> Insert(x, s, le)[0] == s[0]
  {
    if s != [] && !le(x, s[0]) {
      InsertSorted(x, s[1..], le);
      var t := Insert(x, s[1..], le);
      assert t[0] == x || t[0] == s[1];
    }
  }

  /** Under a total relation, SortBy's result is sorted. */
  lemma {:induction false} SortBySorted<T(!new)>(s: seq<T>, le: (T, T) -> bool)
    requires Total(le)
    ensures Sorted(SortBy(s, le), le)
  {
    if s != [] {
      SortBySorted(s[1..], le);
      InsertSorted(s[0], SortBy(s[1..], le), le);
    }
  }

  /** Under a transitive relation, a sorted sequence is ordered pairwise. */
  lemma {:induction false} SortedPairwise<T(!new)>(s: seq<T>, le: (T, T) -> bool, i: nat, j: nat)
    requires Transitive(le) && Sorted(s, le)
    requires i < j < |s|
    ensures le(s[i], s[j])
    decreases j - i
  {
    if i + 1 < j {
      SortedPairwise(s, le, i + 1, j);
    }
  }

  /** A filter of a sorted sequence is sorted. */
  lemma {:induction false} FilterSorted<T(!new)>(s: seq<T>, p: T -> bool, le: (T, T) -> bool)
    requires Transitive(le) && Sorted(s, le)
    ensures Sorted(Filter(s, p), le)
  {
    if s != [] {
      FilterSorted(s[1..], p, le);
      var rest := Filter(s[1..], p);
      if p(s[0]) && rest != [] {
        assert rest[0] in s[1..];
        var k :| 0 <= k < |s| - 1 && s[1..][k] == rest[0];
        SortedPairwise(s, le, 0, k + 1);
        assert Filter(s, p) == [s[0]] + rest;
      }
    }
  }

  /** The parts one after another: JavaScript's `join('')` and a loop of `+=`. */
  function Flatten<T>(parts: seq<seq<T>>): seq<T> {
    if parts == [] then [] else parts[0] + Flatten(parts[1..])
  }

  lemma FlattenCons<T>(parts: seq<seq<T>>, x: seq<T>, rest: seq<seq<T>>)
    requires parts == [x] + rest
    ensures Flatten(parts) == x + Flatten(rest)
  {
    assert parts[1..] == rest;
  }

  lemma {:induction false} FlattenSnoc<T>(parts: seq<seq<T>>, x: seq<T>)
    ensures Flatten(parts + [x]) == Flatten(parts) + x
  {
    if parts == [] {
      assert [x][1..] == [];
    } else {
      assert (parts + [x])[1..] == parts[1..] + [x];
      FlattenSnoc(parts[1..], x);
    }
  }

  /** How many times `x` occurs in `s`. */
  function Count<T(==)>(x: T, s: seq<T>): (n: nat)
    ensures n <= |s|
    ensures n == 0 <==> x !in s
  {
    if s == [] then 0
    else (if s[0] == x then 1 else 0) + Count(x, s[1..])
  }

  lemma {:induction false} CountAppend<T>(x: T, a: seq<T>, b: seq<T>)
    ensures Count(x, a + b) == Count(x, a) + Count(x, b)
  {
    if a == [] {
      assert a + b == b;
    } else {
      assert (a + b)[1..] == a[1..] + b;
      CountAppend(x, a[1..], b);
    }
  }

  /** Occurrences in a middle part framed by two parts that have none. */
  lemma CountBetween<T>(x: T, pre: seq<T>, mid: seq<T>, post: seq<T>)
    requires x !in pre && x !in post
    ensures Count(x, pre + mid + post) == Count(x, mid)
  {
    CountAppend(x, pre, mid);
    CountAppend(x, pre + mid, post);
  }
}
