/** Sequence helpers shared by the extractor: the order-preserving filter that LINQ `Where`
    performs, subsequences, and counting matches. */
module Seqs {

  /** `a` can be obtained from `b` by deleting elements, keeping the order of the rest. */
  predicate IsSubsequence<T(==)>(a: seq<T>, b: seq<T>)
    decreases |b|
  {
    a == [] || (b != [] && ((a[0] == b[0] && IsSubsequence(a[1..], b[1..])) || IsSubsequence(a, b[1..])))
  }

  lemma {:induction false} SubsequenceTransitive<T>(a: seq<T>, b: seq<T>, c: seq<T>)
    requires IsSubsequence(a, b) && IsSubsequence(b, c)
    ensures IsSubsequence(a, c)
    decreases |c|
  {
    if a == [] {
    } else if IsSubsequence(b, c[1..]) {
      SubsequenceTransitive(a, b, c[1..]);
    } else if a[0] == b[0] && IsSubsequence(a[1..], b[1..]) {
      SubsequenceTransitive(a[1..], b[1..], c[1..]);
    } else {
      SubsequenceTransitive(a, b[1..], c[1..]);
    }
  }

  /** The elements of `s` that satisfy `p`, in their original order (LINQ `Where`). */
  function Filter<T(==,!new)>(s: seq<T>, p: T -> bool): (r: seq<T>)
    ensures |r| <= |s|
  {
    if s == [] then []
    else
      var rest := Filter(s[1..], p);
      if p(s[0]) then [s[0]] + rest else rest
  }

  /** The filter keeps exactly the elements that pass. */
  lemma {:induction false} FilterMembers<T(!new)>(s: seq<T>, p: T -> bool)
    ensures forall x :: x in Filter(s, p) <==> x in s && p(x)
    ensures forall i :: 0 <= i < |Filter(s, p)| ==> p(Filter(s, p)[i])
  {
    if s != [] {
      FilterMembers(s[1..], p);
      assert s == [s[0]] + s[1..];
    }
  }

  /** The filter keeps the order of what it keeps. */
  lemma {:induction false} FilterIsSubsequence<T(!new)>(s: seq<T>, p: T -> bool)
    ensures IsSubsequence(Filter(s, p), s)
  {
    if s != [] {
      FilterIsSubsequence(s[1..], p);
      var rest := Filter(s[1..], p);
      if !p(s[0]) && rest != [] {
        assert IsSubsequence(rest, s[1..]);
      }
    }
  }

  /** The filter keeps every occurrence of every element that passes. */
  lemma {:induction false} FilterKeepsOccurrences<T(!new)>(s: seq<T>, p: T -> bool, x: T)
    requires p(x)
    ensures multiset(Filter(s, p))[x] == multiset(s)[x]
  {
    if s != [] {
      FilterKeepsOccurrences(s[1..], p, x);
      assert s == [s[0]] + s[1..];
    }
  }

  /** Filtering distributes over concatenation. */
  lemma {:induction false} FilterAppend<T(!new)>(a: seq<T>, b: seq<T>, p: T -> bool)
    ensures Filter(a + b, p) == Filter(a, p) + Filter(b, p)
  {
    if a == [] {
      assert a + b == b;
    } else {
      assert (a + b)[1..] == a[1..] + b;
      FilterAppend(a[1..], b, p);
    }
  }

  /** Filtering keeps a sequence whose every element passes. */
  lemma {:induction false} FilterAll<T(!new)>(s: seq<T>, p: T -> bool)
    requires forall i :: 0 <= i < |s| ==> p(s[i])
    ensures Filter(s, p) == s
  {
    if s != [] {
      FilterAll(s[1..], p);
    }
  }

  /** At least two elements pass the filter exactly when two distinct positions of `s` pass. */
  lemma {:induction false} FilterAtLeastTwo<T(!new)>(s: seq<T>, p: T -> bool)
    ensures |Filter(s, p)| >= 2 <==> exists i, j :: 0 <= i < j < |s| && p(s[i]) && p(s[j])
  {
    if s != [] {
      FilterAtLeastTwo(s[1..], p);
      FilterMembers(s[1..], p);
      if p(s[0]) {
        if |Filter(s[1..], p)| >= 1 {
          var x := Filter(s[1..], p)[0];
          var j :| 0 <= j < |s[1..]| && s[1..][j] == x;
          assert p(s[0]) && p(s[j + 1]);
        }
        if exists i, j :: 0 <= i < j < |s| && p(s[i]) && p(s[j]) {
          var i, j :| 0 <= i < j < |s| && p(s[i]) && p(s[j]);
          assert s[j] in s[1..];
        }
      } else {
        if exists i, j :: 0 <= i < j < |s| && p(s[i]) && p(s[j]) {
          var i, j :| 0 <= i < j < |s| && p(s[i]) && p(s[j]);
          assert s[1..][i - 1] == s[i] && s[1..][j - 1] == s[j];
        }
      }
    }
  }

  /** Position `i` is the only one of `s` whose element passes `p`. */
  predicate OnlyAt<T>(s: seq<T>, p: T -> bool, i: int) {
    0 <= i < |s| && p(s[i]) && forall j :: 0 <= j < |s| && j != i ==> !p(s[j])
  }

  /** `Where` keeps every occurrence of a passing element and none of the others. */
  lemma FilterOccurrences<T(!new)>(s: seq<T>, p: T -> bool)
    ensures forall x :: multiset(Filter(s, p))[x] == if p(x) then multiset(s)[x] else 0
  {
    FilterMembers(s, p);
    forall x ensures multiset(Filter(s, p))[x] == if p(x) then multiset(s)[x] else 0 {
      if p(x) {
        FilterKeepsOccurrences(s, p, x);
      } else {
        assert x !in Filter(s, p);
      }
    }
  }

  /** What LINQ `Single` needs to know about the filter: none passes, two or more pass, or
      exactly one passes and every passing element is that one. */
  lemma FilterSingle<T(!new)>(s: seq<T>, p: T -> bool)
    ensures |Filter(s, p)| == 0 <==> forall i :: 0 <= i < |s| ==> !p(s[i])
    ensures |Filter(s, p)| >= 2 <==> exists i, j :: 0 <= i < j < |s| && p(s[i]) && p(s[j])
    ensures |Filter(s, p)| == 1 ==>
      && Filter(s, p)[0] in s && p(Filter(s, p)[0])
      && forall i :: 0 <= i < |s| && p(s[i]) ==> s[i] == Filter(s, p)[0]
    ensures |Filter(s, p)| == 1 <==> exists i :: OnlyAt(s, p, i)
  {
    FilterMembers(s, p);
    FilterAtLeastTwo(s, p);
    if |Filter(s, p)| == 1 {
      var i :| 0 <= i < |s| && p(s[i]);
      assert OnlyAt(s, p, i);
    }
    if |Filter(s, p)| == 0 {
      forall i | 0 <= i < |s| ensures !p(s[i]) {
        assert s[i] in s;
      }
    }
    if |Filter(s, p)| == 1 {
      forall i | 0 <= i < |s| && p(s[i]) ensures s[i] == Filter(s, p)[0] {
        assert s[i] in Filter(s, p);
      }
    }
  }

  /** The images of the elements under `f`, concatenated in order (LINQ `SelectMany`, or a loop
      that appends each element's contribution to a list). */
  function FlatMap<T, U>(s: seq<T>, f: T -> seq<U>): seq<U> {
    if s == [] then [] else FlatMap(s[..|s| - 1], f) + f(s[|s| - 1])
  }

  /** One more element appends its image. */
  lemma FlatMapStep<T, U>(s: seq<T>, f: T -> seq<U>, i: nat)
    requires i < |s|
    ensures FlatMap(s[..i + 1], f) == FlatMap(s[..i], f) + f(s[i])
  {
    assert s[..i + 1][..i] == s[..i];
  }

  /** Mapping a concatenation concatenates the results. */
  lemma {:induction false} FlatMapAppend<T, U>(a: seq<T>, b: seq<T>, f: T -> seq<U>)
    ensures FlatMap(a + b, f) == FlatMap(a, f) + FlatMap(b, f)
    decreases |b|
  {
    if b == [] {
      assert a + b == a;
    } else {
      var init := b[..|b| - 1];
      assert (a + b)[..|a + b| - 1] == a + init;
      FlatMapAppend(a, init, f);
    }
  }

  /** An element of the result comes from the image of some element. */
  lemma {:induction false} FlatMapMembers<T, U(!new)>(s: seq<T>, f: T -> seq<U>)
    ensures forall y :: y in FlatMap(s, f) <==> exists i :: 0 <= i < |s| && y in f(s[i])
  {
    if s != [] {
      var init := s[..|s| - 1];
      FlatMapMembers(init, f);
      forall y ensures y in FlatMap(s, f) <==> exists i :: 0 <= i < |s| && y in f(s[i]) {
        if y in FlatMap(init, f) {
          var i :| 0 <= i < |init| && y in f(init[i]);
          assert s[i] == init[i];
        }
        if exists i :: 0 <= i < |s| && y in f(s[i]) {
          var i :| 0 <= i < |s| && y in f(s[i]);
          if i < |s| - 1 {
            assert init[i] == s[i];
          }
        }
      }
    }
  }
}
