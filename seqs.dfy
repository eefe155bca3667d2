/** Sequence operations that the dashboard's JavaScript reaches through
    Array.prototype.filter, Array.prototype.flatMap, Set and objects used as
    first-occurrence keyed dictionaries. */
module Seqs {

  /** `s.filter(p)`: the elements of `s` that satisfy `p`, in their order. */
  function Filter<T>(s: seq<T>, p: T -> bool): (r: seq<T>)
    ensures |r| <= |s|
    ensures forall i :: 0 <= i < |r| ==> r[i] in s && p(r[i])
    ensures forall i :: 0 <= i < |s| && p(s[i]) ==> s[i] in r
  {
    if s == [] then [] else (if p(s[0]) then [s[0]] else []) + Filter(s[1..], p)
  }

  /** `a` can be obtained from `b` by deleting elements. */
  predicate IsSubsequence<T(==)>(a: seq<T>, b: seq<T>)
    decreases |b|
  {
    if a == [] then true
    else if b == [] then false
    else (a[0] == b[0] && IsSubsequence(a[1..], b[1..])) || IsSubsequence(a, b[1..])
  }

  lemma {:induction false} FilterIsSubsequence<T>(s: seq<T>, p: T -> bool)
    ensures IsSubsequence(Filter(s, p), s)
  {
    if s != [] {
      FilterIsSubsequence(s[1..], p);
      var f := Filter(s, p);
      if p(s[0]) {
        assert f == [s[0]] + Filter(s[1..], p);
        assert f[0] == s[0] && f[1..] == Filter(s[1..], p);
      } else {
        assert f == Filter(s[1..], p);
      }
    }
  }

  /** `filter` keeps every occurrence of an element that satisfies `p`, and none of one
      that does not. */
  lemma {:induction false} FilterCount<T>(s: seq<T>, p: T -> bool, x: T)
    ensures multiset(Filter(s, p))[x] == if p(x) then multiset(s)[x] else 0
  {
    if s != [] {
      FilterCount(s[1..], p, x);
      assert s == [s[0]] + s[1..];
      assert multiset(s) == multiset([s[0]]) + multiset(s[1..]);
      var head := if p(s[0]) then [s[0]] else [];
      assert Filter(s, p) == head + Filter(s[1..], p);
      assert multiset(Filter(s, p)) == multiset(head) + multiset(Filter(s[1..], p));
    }
  }

  /** Two predicates that agree on the elements of `s` filter it alike. */
  lemma {:induction false} FilterCongruent<T>(s: seq<T>, p: T -> bool, q: T -> bool)
    requires forall i :: 0 <= i < |s| ==> p(s[i]) == q(s[i])
    ensures Filter(s, p) == Filter(s, q)
  {
    if s != [] {
      FilterCongruent(s[1..], p, q);
    }
  }

  /** `ss.flat()`, the concatenation of the inner sequences in order. */
  function Flatten<T>(ss: seq<seq<T>>): seq<T>
  {
    if ss == [] then [] else ss[0] + Flatten(ss[1..])
  }

  lemma {:induction false} FlattenAppend<T>(ss: seq<seq<T>>, s: seq<T>)
    ensures Flatten(ss + [s]) == Flatten(ss) + s
  {
    if ss == [] {
      assert ss + [s] == [s];
    } else {
      assert (ss + [s])[1..] == ss[1..] + [s];
      FlattenAppend(ss[1..], s);
    }
  }

  /** Replacing one inner sequence changes the flattened multiset by exactly the difference. */
  lemma {:induction false} FlattenUpdate<T>(ss: seq<seq<T>>, i: nat, s: seq<T>)
    requires i < |ss|
    ensures multiset(Flatten(ss[i := s])) + multiset(ss[i]) == multiset(Flatten(ss)) + multiset(s)
  {
    if i == 0 {
      assert ss[i := s][1..] == ss[1..];
    } else {
      assert ss[i := s][1..] == ss[1..][i - 1 := s];
      FlattenUpdate(ss[1..], i - 1, s);
      assert Flatten(ss[i := s]) == ss[0] + Flatten(ss[1..][i - 1 := s]);
      assert Flatten(ss) == ss[0] + Flatten(ss[1..]);
      assert ss[1..][i - 1] == ss[i];
      calc {
        multiset(Flatten(ss[i := s])) + multiset(ss[i]);
        multiset(ss[0]) + (multiset(Flatten(ss[1..][i - 1 := s])) + multiset(ss[1..][i - 1]));
        multiset(ss[0]) + (multiset(Flatten(ss[1..])) + multiset(s));
        multiset(Flatten(ss)) + multiset(s);
      }
    }
  }

  /** The same, for the set of elements, when the new inner sequence only adds `x`. */
  lemma {:induction false} FlattenUpdateElems<T>(ss: seq<seq<T>>, i: nat, s: seq<T>, x: T)
    requires i < |ss|
    requires Elems(s) == Elems(ss[i]) + {x}
    ensures Elems(Flatten(ss[i := s])) == Elems(Flatten(ss)) + {x}
  {
    if i == 0 {
      assert ss[i := s][1..] == ss[1..];
      ElemsConcat(s, Flatten(ss[1..]));
      ElemsConcat(ss[0], Flatten(ss[1..]));
    } else {
      assert ss[i := s][1..] == ss[1..][i - 1 := s];
      FlattenUpdateElems(ss[1..], i - 1, s, x);
      ElemsConcat(ss[0], Flatten(ss[1..]));
      ElemsConcat(ss[0], Flatten(ss[1..][i - 1 := s]));
    }
  }

  /** When every inner sequence has length `n`, the flattening has `|ss| * n` elements. */
  lemma {:induction false} FlattenUniformLength<T>(ss: seq<seq<T>>, n: nat)
    requires forall j :: 0 <= j < |ss| ==> |ss[j]| == n
    ensures |Flatten(ss)| == |ss| * n
  {
    if ss != [] {
      FlattenUniformLength(ss[1..], n);
    }
  }

  /** The set of the elements of a sequence (JavaScript's `new Set(s)`, up to order). */
  function Elems<T>(s: seq<T>): set<T>
  {
    set x | x in s
  }

  lemma {:induction false} ElemsConcat<T>(a: seq<T>, b: seq<T>)
    ensures Elems(a + b) == Elems(a) + Elems(b)
  {
  }

  predicate NoDuplicates<T(==)>(s: seq<T>)
  {
    forall i, j :: 0 <= i < j < |s| ==> s[i] != s[j]
  }

  /** The elements of `xs` on their first occurrence, in order of first occurrence. */
  function Distinct<T(==)>(xs: seq<T>): (r: seq<T>)
    ensures forall i :: 0 <= i < |r| ==> r[i] in xs
    ensures forall i :: 0 <= i < |xs| ==> xs[i] in r
    ensures NoDuplicates(r)
  {
    if xs == [] then []
    else
      var d := Distinct(xs[..|xs| - 1]);
      if xs[|xs| - 1] in d then d else d + [xs[|xs| - 1]]
  }

  /** The first position of `x` in `s`, or `|s|` when it does not occur. */
  function IndexOf<T(==)>(s: seq<T>, x: T): (i: nat)
    ensures i <= |s|
    ensures i < |s| ==> s[i] == x
    ensures forall j :: 0 <= j < i ==> s[j] != x
  {
    if s == [] then 0 else if s[0] == x then 0 else 1 + IndexOf(s[1..], x)
  }

  /** The position of an element that occurs in `s` does not change when `s` grows. */
  lemma {:induction false} IndexOfSnoc<T>(s: seq<T>, x: T, y: T)
    ensures y in s ==> IndexOf(s + [x], y) == IndexOf(s, y)
    ensures y !in s && y == x ==> IndexOf(s + [x], y) == |s|
  {
    var p, q := IndexOf(s, y), IndexOf(s + [x], y);
    if y in s {
      assert p < |s| && (s + [x])[p] == y;
    } else if y == x {
      assert (s + [x])[|s|] == y;
    }
  }

  /** `Distinct` lists the elements in order of their first occurrence. */
  lemma {:induction false} DistinctFirstOccurrence<T>(xs: seq<T>)
    ensures forall i, j :: 0 <= i < j < |Distinct(xs)| ==> IndexOf(xs, Distinct(xs)[i]) < IndexOf(xs, Distinct(xs)[j])
  {
    if xs != [] {
      var init, x := xs[..|xs| - 1], xs[|xs| - 1];
      assert xs == init + [x];
      DistinctFirstOccurrence(init);
      var d', d := Distinct(init), Distinct(xs);
      forall i | 0 <= i < |d'|
        ensures IndexOf(xs, d'[i]) == IndexOf(init, d'[i]) < |init|
      {
        IndexOfSnoc(init, x, d'[i]);
      }
      if x !in d' {
        assert d == d' + [x];
        IndexOfSnoc(init, x, x);
        forall i, j | 0 <= i < j < |d|
          ensures IndexOf(xs, d[i]) < IndexOf(xs, d[j])
        {
          assert d[i] == d'[i];
          if j < |d'| {
            assert d[j] == d'[j];
          }
        }
      } else {
        assert d == d';
        forall i, j | 0 <= i < j < |d|
          ensures IndexOf(xs, d[i]) < IndexOf(xs, d[j])
        {
          assert d[i] == d'[i] && d[j] == d'[j];
        }
      }
    }
  }

  /** A sequence that agrees with `a` everywhere but at `i`, where it holds `x`, is `a[i := x]`. */
  lemma {:induction false} UpdateAt<T>(a: seq<T>, b: seq<T>, i: nat, x: T)
    requires |a| == |b| && i < |a| && b[i] == x
    requires forall j :: 0 <= j < |a| && j != i ==> a[j] == b[j]
    ensures b == a[i := x]
  {
    forall j | 0 <= j < |a|
      ensures b[j] == a[i := x][j]
    {
    }
  }

  lemma {:induction false} MultisetCancel<T>(a: multiset<T>, b: multiset<T>, x: multiset<T>)
    requires a + x == b + x
    ensures a == b
  {
    forall y
      ensures a[y] == b[y]
    {
      assert (a + x)[y] == (b + x)[y];
    }
  }

  lemma {:induction false} FlattenSingleton<T>(s: seq<T>)
    ensures Flatten([s]) == s
  {
    assert [s][1..] == [];
  }
}
