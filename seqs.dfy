/** List idioms the scripts share: removing duplicates while keeping the
    first occurrence (a `seen` set in a loop, or pandas' drop_duplicates),
    and sorting (Python's stable list.sort and pandas' sort_values). */
module Seqs {

  predicate NoDuplicates<T(==)>(s: seq<T>) {
    forall i, j :: 0 <= i < j < |s| ==> s[i] != s[j]
  }

  /** The elements of s without repeats, each where it first occurs. */
  function Distinct<T(==, !new)>(s: seq<T>): (r: seq<T>)
    ensures forall x :: x in r <==> x in s
  {
    if |s| == 0 then []
    else
      var d := Distinct(s[..|s| - 1]);
      var x := s[|s| - 1];
      assert s == s[..|s| - 1] + [x];
      if x in d then d else d + [x]
  }

  lemma {:induction false} DistinctNoDuplicates<T(!new)>(s: seq<T>)
    ensures NoDuplicates(Distinct(s))
  {
    if |s| > 0 {
      DistinctNoDuplicates(s[..|s| - 1]);
    }
  }

  /** Each element of a repeat-free sequence occurs once. */
  lemma {:induction false} MultisetCountOne<T>(a: seq<T>, x: T)
    requires NoDuplicates(a)
    ensures multiset(a)[x] <= 1
  {
    if a != [] {
      var init := a[..|a| - 1];
      MultisetCountOne(init, x);
      assert a == init + [a[|a| - 1]];
      assert a[|a| - 1] !in init;
    }
  }

  /** An element found at two positions occurs at least twice. */
  lemma TwoOccurrences<T>(s: seq<T>, i: nat, j: nat)
    requires i < j < |s| && s[i] == s[j]
    ensures multiset(s)[s[i]] >= 2
  {
    assert s == s[..i] + [s[i]] + s[i + 1..j] + [s[j]] + s[j + 1..];
  }

  /** A sequence has no repeats exactly when each of its elements occurs
      once. */
  lemma NoDuplicatesCounts<T>(s: seq<T>)
    ensures NoDuplicates(s) <==> forall n :: 0 <= n < |s| ==> multiset(s)[s[n]] == 1
  {
    if NoDuplicates(s) {
      forall n | 0 <= n < |s| ensures multiset(s)[s[n]] == 1 {
        MultisetCountOne(s, s[n]);
        assert s[n] in multiset(s);
      }
    } else {
      var i, j :| 0 <= i < j < |s| && s[i] == s[j];
      TwoOccurrences(s, i, j);
    }
  }

  /** Rearranging a sequence without repeats gives one without repeats. */
  lemma PermutationKeepsNoDuplicates<T>(a: seq<T>, b: seq<T>)
    requires NoDuplicates(a) && multiset(a) == multiset(b)
    ensures NoDuplicates(b)
  {
    forall i, j | 0 <= i < j < |b| ensures b[i] != b[j] {
      if b[i] == b[j] {
        assert multiset(b)[b[i]] >= 2 by {
          assert b == b[..i] + [b[i]] + b[i + 1..j] + [b[j]] + b[j + 1..];
        }
        MultisetCountOne(a, b[i]);
      }
    }
  }

  /** Distinct grows only at its end as the input grows, so its elements
      stand in the order of their first occurrences. */
  lemma {:induction false} DistinctPrefix<T(!new)>(s: seq<T>, n: nat)
    requires n <= |s|
    ensures Distinct(s[..n]) <= Distinct(s)
    decreases |s|
  {
    if n == |s| {
      assert s[..n] == s;
    } else {
      var init := s[..|s| - 1];
      DistinctPrefix(init, n);
      assert init[..n] == s[..n];
    }
  }

  /** A sequence without repeats is its own Distinct. */
  lemma {:induction false} DistinctOfDistinct<T(!new)>(s: seq<T>)
    requires NoDuplicates(s)
    ensures Distinct(s) == s
  {
    if |s| > 0 {
      var init := s[..|s| - 1];
      DistinctOfDistinct(init);
      assert s[|s| - 1] !in init;
      assert init + [s[|s| - 1]] == s;
    }
  }

  /** The `seen`-set loop: append an element unless it was seen before. */
  method Dedupe<T(==, !new)>(s: seq<T>) returns (r: seq<T>)
    ensures r == Distinct(s)
  {
    var seen: set<T> := {};
    r := [];
    for i := 0 to |s|
      invariant r == Distinct(s[..i])
      invariant forall x :: x in seen <==> x in r
    {
      assert s[..i + 1] == s[..i] + [s[i]];
      if s[i] !in seen {
        seen := seen + {s[i]};
        r := r + [s[i]];
      }
    }
    assert s[..|s|] == s;
  }

  /** f applied to each element, in order. */
  function MapAll<A, B>(f: A -> B, xs: seq<A>): (r: seq<B>)
    ensures |r| == |xs|
    ensures forall k :: 0 <= k < |xs| ==> r[k] == f(xs[k])
  {
    seq(|xs|, k requires 0 <= k < |xs| => f(xs[k]))
  }

  lemma MapAllSnoc<A, B>(f: A -> B, xs: seq<A>)
    requires xs != []
    ensures MapAll(f, xs) == MapAll(f, xs[..|xs| - 1]) + [f(xs[|xs| - 1])]
  {
    var n := |xs| - 1;
    forall k | 0 <= k < n ensures MapAll(f, xs)[k] == MapAll(f, xs[..n])[k] {
      assert xs[..n][k] == xs[k];
    }
  }

  /** The results of f on each element, concatenated in order. */
  function FlatMap<A, B>(f: A -> seq<B>, xs: seq<A>): seq<B> {
    if xs == [] then [] else FlatMap(f, xs[..|xs| - 1]) + f(xs[|xs| - 1])
  }

  lemma FlatMapStep<A, B>(f: A -> seq<B>, xs: seq<A>, k: nat)
    requires k < |xs|
    ensures FlatMap(f, xs[..k + 1]) == FlatMap(f, xs[..k]) + f(xs[k])
  {
    assert xs[..k + 1][..k] == xs[..k];
  }

  /** An element of the concatenation comes from the result on some element. */
  lemma {:induction false} FlatMapMembers<A, B>(f: A -> seq<B>, xs: seq<A>, x: B)
    ensures x in FlatMap(f, xs) <==> exists k :: 0 <= k < |xs| && x in f(xs[k])
  {
    if xs != [] {
      var n := |xs| - 1;
      var init := xs[..n];
      FlatMapMembers(f, init, x);
      if x in FlatMap(f, xs) {
        if x in FlatMap(f, init) {
          var k :| 0 <= k < n && x in f(init[k]);
          assert init[k] == xs[k];
        }
      } else {
        forall k | 0 <= k < |xs| ensures x !in f(xs[k]) {
          if k < n {
            assert init[k] == xs[k];
          }
        }
      }
    }
  }

  // ---------------------------------------------------------------------
  // Sorting by a comparison

  ghost predicate Total<T(!new)>(le: (T, T) -> bool) {
    forall x, y :: le(x, y) || le(y, x)
  }

  ghost predicate Transitive<T(!new)>(le: (T, T) -> bool) {
    forall x, y, z :: le(x, y) && le(y, z) ==> le(x, z)
  }

  ghost predicate Antisymmetric<T(!new)>(le: (T, T) -> bool) {
    forall x, y :: le(x, y) && le(y, x) ==> x == y
  }

  predicate SortedBy<T>(s: seq<T>, le: (T, T) -> bool) {
    forall i, j :: 0 <= i < j < |s| ==> le(s[i], s[j])
  }

  /** x placed before the first element it may precede. */
  function Insert<T>(x: T, s: seq<T>, le: (T, T) -> bool): (r: seq<T>)
    ensures multiset(r) == multiset{x} + multiset(s)
  {
    if s == [] || le(x, s[0]) then [x] + s
    else
      assert s == [s[0]] + s[1..];
      [s[0]] + Insert(x, s[1..], le)
  }

  /** Insertion sort. Elements that are equivalent under le keep their input
      order (SortByStable), as in Python's list.sort. */
  function SortBy<T>(s: seq<T>, le: (T, T) -> bool): (r: seq<T>)
    ensures multiset(r) == multiset(s)
  {
    if s == [] then []
    else
      assert s == [s[0]] + s[1..];
      Insert(s[0], SortBy(s[1..], le), le)
  }

  lemma {:induction false} InsertSorted<T(!new)>(x: T, s: seq<T>, le: (T, T) -> bool)
    requires Total(le) && Transitive(le) && SortedBy(s, le)
    ensures SortedBy(Insert(x, s, le), le)
  {
    if s == [] || le(x, s[0]) {
    } else {
      var t := Insert(x, s[1..], le);
      InsertSorted(x, s[1..], le);
      forall e | e in t ensures le(s[0], e) {
        assert e in multiset(t);
        assert e == x || e in multiset(s[1..]);
      }
      assert Insert(x, s, le) == [s[0]] + t;
    }
  }

  lemma {:induction false} SortBySorted<T(!new)>(s: seq<T>, le: (T, T) -> bool)
    requires Total(le) && Transitive(le)
    ensures SortedBy(SortBy(s, le), le)
  {
    if s != [] {
      SortBySorted(s[1..], le);
      InsertSorted(s[0], SortBy(s[1..], le), le);
    }
  }

  /** The elements of s equivalent to v under le, in order. */
  function EquivalentTo<T>(s: seq<T>, le: (T, T) -> bool, v: T): (r: seq<T>)
    ensures |r| <= |s|
  {
    if s == [] then []
    else (if le(s[0], v) && le(v, s[0]) then [s[0]] else []) + EquivalentTo(s[1..], le, v)
  }

  /** EquivalentTo of a sequence with a known first element. */
  lemma EquivalentToCons<T>(a: T, t: seq<T>, le: (T, T) -> bool, v: T)
    ensures EquivalentTo([a] + t, le, v) == (if le(a, v) && le(v, a) then [a] else []) + EquivalentTo(t, le, v)
  {
    assert ([a] + t)[1..] == t;
  }

  /** An element that may not precede y is not equivalent to v when y is. */
  lemma NotBothEquivalent<T(!new)>(x: T, y: T, le: (T, T) -> bool, v: T)
    requires Transitive(le) && !le(x, y)
    ensures !(le(x, v) && le(v, x)) || !(le(y, v) && le(v, y))
  {
  }

  lemma SwapEmpty<T>(a: seq<T>, b: seq<T>, c: seq<T>)
    requires a == [] || b == []
    ensures a + (b + c) == b + (a + c)
  {
    if a == [] {
      assert a + (b + c) == b + c == b + (a + c);
    } else {
      assert a + (b + c) == a + c == b + (a + c);
    }
  }

  lemma {:induction false} InsertStable<T(!new)>(x: T, s: seq<T>, le: (T, T) -> bool, v: T)
    requires Transitive(le)
    ensures EquivalentTo(Insert(x, s, le), le, v)
         == (if le(x, v) && le(v, x) then [x] else []) + EquivalentTo(s, le, v)
  {
    var ex := if le(x, v) && le(v, x) then [x] else [];
    if s == [] || le(x, s[0]) {
      EquivalentToCons(x, s, le, v);
    } else {
      var t := Insert(x, s[1..], le);
      var e0 := if le(s[0], v) && le(v, s[0]) then [s[0]] else [];
      var r := EquivalentTo(s[1..], le, v);
      InsertStable(x, s[1..], le, v);
      NotBothEquivalent(x, s[0], le, v);
      calc {
        EquivalentTo(Insert(x, s, le), le, v);
        EquivalentTo([s[0]] + t, le, v);
        { EquivalentToCons(s[0], t, le, v); }
        e0 + (ex + r);
        { SwapEmpty(e0, ex, r); }
        ex + (e0 + r);
        { EquivalentToCons(s[0], s[1..], le, v); assert [s[0]] + s[1..] == s; }
        ex + EquivalentTo(s, le, v);
      }
    }
  }

  /** Equivalent elements come out in the order they went in. */
  lemma {:induction false} SortByStable<T(!new)>(s: seq<T>, le: (T, T) -> bool, v: T)
    requires Transitive(le)
    ensures EquivalentTo(SortBy(s, le), le, v) == EquivalentTo(s, le, v)
  {
    if s != [] {
      SortByStable(s[1..], le, v);
      InsertStable(s[0], SortBy(s[1..], le), le, v);
    }
  }

  /** The head of a sorted arrangement may precede every element. */
  lemma HeadFirst<T>(a: seq<T>, b: seq<T>, le: (T, T) -> bool)
    requires SortedBy(b, le) && multiset(a) == multiset(b) && a != []
    ensures b != [] && (b[0] == a[0] || le(b[0], a[0]))
  {
    assert a[0] in multiset(b);
    var j :| 0 <= j < |b| && b[j] == a[0];
  }

  /** Two sorted arrangements of one multiset start alike, and what
      follows is again one multiset. */
  lemma SameHead<T(!new)>(a: seq<T>, b: seq<T>, le: (T, T) -> bool)
    requires Antisymmetric(le)
    requires SortedBy(a, le) && SortedBy(b, le) && multiset(a) == multiset(b) && a != []
    ensures b != [] && a[0] == b[0]
    ensures multiset(a[1..]) == multiset(b[1..])
  {
    HeadFirst(a, b, le);
    HeadFirst(b, a, le);
    var x := a[0];
    assert a == [x] + a[1..] && b == [x] + b[1..];
    assert multiset(a[1..]) == multiset(a) - multiset{x};
    assert multiset(b[1..]) == multiset(b) - multiset{x};
  }

  /** Under an order with no ties between distinct elements, there is only
      one sorted arrangement of a multiset. */
  lemma {:induction false} SortedUnique<T(!new)>(a: seq<T>, b: seq<T>, le: (T, T) -> bool)
    requires Antisymmetric(le)
    requires SortedBy(a, le) && SortedBy(b, le) && multiset(a) == multiset(b)
    ensures a == b
  {
    if a == [] {
      assert |b| == |multiset(b)| == 0;
    } else {
      SameHead(a, b, le);
      SortedUnique(a[1..], b[1..], le);
      assert a == [a[0]] + a[1..] && b == [b[0]] + b[1..];
    }
  }
}
