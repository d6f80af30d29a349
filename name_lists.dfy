/** Sequence operations that the two encrypt-rule handlers build from Java
    streams and collections: filtering names against a list, an
    insertion-ordered set, and `Collection.remove(Object)`. */
module NameLists {

  /** No element occurs twice. */
  predicate Distinct<T(==)>(s: seq<T>)
  {
    forall i, j :: 0 <= i < j < |s| ==> s[i] != s[j]
  }

  /** `a` is what is left of `b` after taking some elements out: the
      remaining elements keep their relative order. */
  predicate IsSubsequence<T(==)>(a: seq<T>, b: seq<T>)
    decreases |b|
  {
    a == [] || (b != [] && ((a[0] == b[0] && IsSubsequence(a[1..], b[1..])) || IsSubsequence(a, b[1..])))
  }

  lemma {:induction false} SubsequenceReflexive<T>(s: seq<T>)
    ensures IsSubsequence(s, s)
    decreases |s|
  {
    if s != [] {
      SubsequenceReflexive(s[1..]);
    }
  }

  lemma {:induction false} SubsequenceMembers<T>(a: seq<T>, b: seq<T>)
    requires IsSubsequence(a, b)
    ensures forall x :: x in a ==> x in b
    decreases |b|
  {
    if a != [] {
      if a[0] == b[0] && IsSubsequence(a[1..], b[1..]) {
        SubsequenceMembers(a[1..], b[1..]);
        forall x | x in a ensures x in b {
          if x != a[0] {
            assert x in a[1..];
          }
        }
      } else {
        SubsequenceMembers(a, b[1..]);
      }
    }
  }

  lemma {:induction false} SubsequenceTransitive<T>(a: seq<T>, b: seq<T>, c: seq<T>)
    requires IsSubsequence(a, b) && IsSubsequence(b, c)
    ensures IsSubsequence(a, c)
    decreases |c|
  {
    if a != [] {
      assert b != [] && c != [];
      if b[0] == c[0] && IsSubsequence(b[1..], c[1..]) {
        if a[0] == b[0] && IsSubsequence(a[1..], b[1..]) {
          SubsequenceTransitive(a[1..], b[1..], c[1..]);
        } else {
          SubsequenceTransitive(a, b[1..], c[1..]);
        }
      } else {
        SubsequenceTransitive(a, b, c[1..]);
      }
    }
  }

  /** Taking out the element at position `i` leaves a subsequence. */
  lemma {:induction false} RemovalIsSubsequence<T>(s: seq<T>, i: nat)
    requires i < |s|
    ensures IsSubsequence(s[..i] + s[i + 1..], s)
    decreases i
  {
    var a := s[..i] + s[i + 1..];
    if i == 0 {
      assert a == s[1..];
      SubsequenceReflexive(s[1..]);
    } else {
      RemovalIsSubsequence(s[1..], i - 1);
      assert a[0] == s[0];
      assert a[1..] == s[1..][..i - 1] + s[1..][i..];
    }
  }

  /** Removing the element at `i` takes exactly one copy of it out. */
  lemma RemovalMultiset<T>(s: seq<T>, i: nat)
    requires i < |s|
    ensures multiset(s[..i] + s[i + 1..]) + multiset{s[i]} == multiset(s)
  {
    assert s == s[..i] + [s[i]] + s[i + 1..];
  }

  /** Removing the element at `i` keeps every element that differs from it
      and adds none. */
  lemma RemovalMembers<T>(s: seq<T>, i: nat, x: T)
    requires i < |s|
    ensures x in s[..i] + s[i + 1..] ==> x in s
    ensures x != s[i] && x in s ==> x in s[..i] + s[i + 1..]
  {
    assert s == s[..i] + [s[i]] + s[i + 1..];
  }

  /** One removal step of a conservation proof: if `rest` splits into `kept`
      and `taken`, and `s` is `rest` plus `x`, then `s` splits into `kept`
      and `taken` with `x` in front. */
  lemma MultisetStep<T>(kept: seq<T>, taken: seq<T>, rest: seq<T>, x: T, s: seq<T>)
    requires multiset(kept) + multiset(taken) == multiset(rest)
    requires multiset(rest) + multiset{x} == multiset(s)
    ensures multiset(kept) + multiset([x] + taken) == multiset(s)
  {
    assert multiset([x] + taken) == multiset{x} + multiset(taken);
  }

  /** A new element in front of distinct ones keeps them distinct. */
  lemma DistinctCons<T>(x: T, s: seq<T>)
    requires Distinct(s) && x !in s
    ensures Distinct([x] + s)
  {
    var r := [x] + s;
    forall a, b | 0 <= a < b < |r| ensures r[a] != r[b] {
      assert r[b] == s[b - 1];
      if a > 0 {
        assert r[a] == s[a - 1];
      }
    }
  }

  /** Taking an element out of a duplicate-free sequence leaves a
      duplicate-free sequence without that element. */
  lemma RemovalKeepsDistinct<T>(s: seq<T>, i: nat)
    requires Distinct(s) && i < |s|
    ensures Distinct(s[..i] + s[i + 1..])
    ensures s[i] !in s[..i] + s[i + 1..]
  {
    var r := s[..i] + s[i + 1..];
    forall a, b | 0 <= a < b < |r| ensures r[a] != r[b] {
      var a' := if a < i then a else a + 1;
      var b' := if b < i then b else b + 1;
      assert r[a] == s[a'] && r[b] == s[b'];
    }
    forall k | 0 <= k < |r| ensures r[k] != s[i] {
      var k' := if k < i then k else k + 1;
      assert r[k] == s[k'];
    }
  }

  /** Position of the first occurrence of `x` in `s`; `|s|` when absent. */
  function IndexOf<T(==)>(s: seq<T>, x: T): (i: nat)
    ensures i <= |s|
    ensures i < |s| <==> x in s
    ensures i < |s| ==> s[i] == x
    ensures forall j :: 0 <= j < i ==> s[j] != x
  {
    if s == [] then 0 else if s[0] == x then 0 else 1 + IndexOf(s[1..], x)
  }

  lemma {:induction false} IndexOfExtend<T>(s: seq<T>, y: T, x: T)
    requires x in s
    ensures IndexOf(s + [y], x) == IndexOf(s, x)
    decreases |s|
  {
    if s[0] != x {
      assert (s + [y])[1..] == s[1..] + [y];
      IndexOfExtend(s[1..], y, x);
    }
  }

  /** Every element of `r` occurs in `s`, and `r` lists them in the order of
      their first occurrence in `s`, each once. */
  predicate InFirstSeenOrder<T(==)>(r: seq<T>, s: seq<T>)
  {
    && (forall x :: x in r ==> x in s)
    && (forall i, j :: 0 <= i < j < |r| ==> IndexOf(s, r[i]) < IndexOf(s, r[j]))
  }

  lemma FirstSeenOrderIsDistinct<T>(r: seq<T>, s: seq<T>)
    requires InFirstSeenOrder(r, s)
    ensures Distinct(r)
  {
    forall i, j | 0 <= i < j < |r| ensures r[i] != r[j] {
      assert IndexOf(s, r[i]) < IndexOf(s, r[j]);
    }
  }

  lemma {:induction false} SubsequenceKeepsFirstSeenOrder<T>(a: seq<T>, b: seq<T>, s: seq<T>)
    requires IsSubsequence(a, b) && InFirstSeenOrder(b, s)
    ensures InFirstSeenOrder(a, s)
    decreases |b|
  {
    SubsequenceMembers(a, b);
    if a != [] {
      assert InFirstSeenOrder(b[1..], s) by {
        forall i, j | 0 <= i < j < |b[1..]| ensures IndexOf(s, b[1..][i]) < IndexOf(s, b[1..][j]) {
          assert b[1..][i] == b[i + 1] && b[1..][j] == b[j + 1];
        }
      }
      if a[0] == b[0] && IsSubsequence(a[1..], b[1..]) {
        SubsequenceKeepsFirstSeenOrder(a[1..], b[1..], s);
        SubsequenceMembers(a[1..], b[1..]);
        forall i, j | 0 <= i < j < |a| ensures IndexOf(s, a[i]) < IndexOf(s, a[j]) {
          if i == 0 {
            assert a[j] == a[1..][j - 1];
            assert a[j] in b[1..];
            var m :| 0 <= m < |b[1..]| && b[1..][m] == a[j];
            assert b[m + 1] == a[j];
          } else {
            assert a[i] == a[1..][i - 1] && a[j] == a[1..][j - 1];
          }
        }
      } else {
        SubsequenceKeepsFirstSeenOrder(a, b[1..], s);
      }
    }
  }

  /** The requested names that are not among the existing ones, in request
      order and with repetitions kept: the list that results from keeping
      each requested name the existing names do not contain. */
  function Missing<T(==)>(requested: seq<T>, existing: seq<T>): seq<T>
    decreases |requested|
  {
    if requested == [] then []
    else (if requested[0] in existing then [] else [requested[0]]) + Missing(requested[1..], existing)
  }

  /** `Missing` keeps exactly the absent names, each as often as it was
      requested, in request order. */
  lemma MissingSpec<T>(requested: seq<T>, existing: seq<T>)
    ensures forall x :: x in Missing(requested, existing) <==> x in requested && x !in existing
    ensures forall x :: multiset(Missing(requested, existing))[x] == if x in existing then 0 else multiset(requested)[x]
    ensures IsSubsequence(Missing(requested, existing), requested)
    ensures Missing(requested, existing) == [] <==> forall x :: x in requested ==> x in existing
  {
    MissingCounts(requested, existing);
    MissingIsSubsequence(requested, existing);
    forall x ensures x in Missing(requested, existing) <==> x in requested && x !in existing {
      assert x in Missing(requested, existing) <==> multiset(Missing(requested, existing))[x] > 0;
      assert x in requested <==> multiset(requested)[x] > 0;
    }
  }

  lemma {:induction false} MissingCounts<T>(requested: seq<T>, existing: seq<T>)
    ensures forall x :: multiset(Missing(requested, existing))[x] == if x in existing then 0 else multiset(requested)[x]
    decreases |requested|
  {
    if requested != [] {
      var head, rest := requested[0], requested[1..];
      MissingCounts(rest, existing);
      assert requested == [head] + rest;
      assert multiset(requested) == multiset([head]) + multiset(rest);
      assert Missing(requested, existing) == (if head in existing then [] else [head]) + Missing(rest, existing);
    }
  }

  lemma {:induction false} MissingIsSubsequence<T>(requested: seq<T>, existing: seq<T>)
    ensures IsSubsequence(Missing(requested, existing), requested)
    decreases |requested|
  {
    if requested != [] {
      var rest := requested[1..];
      MissingIsSubsequence(rest, existing);
      var m := Missing(requested, existing);
      if requested[0] in existing {
        assert m == Missing(rest, existing);
      } else {
        assert m[0] == requested[0] && m[1..] == Missing(rest, existing);
      }
    }
  }

  /** The distinct elements of `s` in first-seen order: adding each element
      of `s` in turn to a `LinkedHashSet`. */
  function InsertionOrdered<T(==)>(s: seq<T>): seq<T>
    decreases |s|
  {
    if s == [] then []
    else
      var seen := InsertionOrdered(s[..|s| - 1]);
      if s[|s| - 1] in seen then seen else seen + [s[|s| - 1]]
  }

  lemma {:induction false} InsertionOrderedSpec<T>(s: seq<T>)
    ensures forall x :: x in InsertionOrdered(s) <==> x in s
    ensures InFirstSeenOrder(InsertionOrdered(s), s)
    ensures Distinct(InsertionOrdered(s))
    decreases |s|
  {
    if s != [] {
      var init, last := s[..|s| - 1], s[|s| - 1];
      assert s == init + [last];
      InsertionOrderedSpec(init);
      var seen := InsertionOrdered(init);
      forall x | x in init ensures IndexOf(s, x) == IndexOf(init, x) {
        IndexOfExtend(init, last, x);
      }
      if last !in seen {
        var r := seen + [last];
        assert IndexOf(s, last) == |init| by {
          assert last !in init;
          assert IndexOf(s, last) >= |init|;
        }
        forall i, j | 0 <= i < j < |r| ensures IndexOf(s, r[i]) < IndexOf(s, r[j]) {
          assert r[i] == seen[i] && r[i] in init;
        }
      }
      FirstSeenOrderIsDistinct(InsertionOrdered(s), s);
    }
  }

  /** The names that `resolvable` rejects, in their order in `s`. */
  function Unresolved<T(==)>(s: seq<T>, resolvable: T -> bool): seq<T>
    decreases |s|
  {
    if s == [] then []
    else (if resolvable(s[0]) then [] else [s[0]]) + Unresolved(s[1..], resolvable)
  }

  lemma {:induction false} UnresolvedSpec<T>(s: seq<T>, resolvable: T -> bool)
    ensures forall x :: x in Unresolved(s, resolvable) <==> x in s && !resolvable(x)
    ensures IsSubsequence(Unresolved(s, resolvable), s)
    decreases |s|
  {
    if s != [] {
      UnresolvedSpec(s[1..], resolvable);
      var u := Unresolved(s, resolvable);
      if resolvable(s[0]) {
        assert u == Unresolved(s[1..], resolvable);
        assert IsSubsequence(u, s) by {
          if u != [] {
            assert u[0] != s[0] || IsSubsequence(u, s[1..]);
          }
        }
      } else {
        assert u[1..] == Unresolved(s[1..], resolvable);
      }
      forall x ensures x in u ==> x in s && !resolvable(x) {
        if x in u && x != s[0] {
          assert x in Unresolved(s[1..], resolvable);
        }
      }
    }
  }

  /** `Collection.remove(Object)`: drops the first element equal to `x`,
      or returns `s` unchanged when there is none. */
  function RemoveFirst<T(==)>(s: seq<T>, x: T): (r: seq<T>)
    ensures x in s ==> r == s[..IndexOf(s, x)] + s[IndexOf(s, x) + 1..]
    ensures x !in s ==> r == s
    ensures multiset(r) == multiset(s) - multiset{x}
  {
    var i := IndexOf(s, x);
    if i == |s| then s
    else
      assert s == s[..i] + [x] + s[i + 1..];
      s[..i] + s[i + 1..]
  }
}
