/** Small, source-independent vocabulary shared by every other module:
    an optional value, distinctness of a sequence and counting. */
module Common {

  datatype Option<T> = None | Some(value: T) {
    function GetOr(default: T): T {
      match this
      case Some(v) => v
      case None => default
    }
  }

  /** No value occurs twice in `s`. */
  predicate Distinct<T(==)>(s: seq<T>) {
    forall i, j :: 0 <= i < j < |s| ==> s[i] != s[j]
  }

  /** The set of values occurring in `s`. */
  function Elems<T>(s: seq<T>): set<T> {
    set x | x in s
  }

  /** Number of elements of `s` that satisfy `p`. */
  function Count<T>(s: seq<T>, p: T -> bool): nat {
    if s == [] then 0 else (if p(s[0]) then 1 else 0) + Count(s[1..], p)
  }

  lemma DistinctCons<T>(x: T, s: seq<T>)
    ensures Distinct([x] + s) <==> x !in s && Distinct(s)
  {
    var xs := [x] + s;
    if x in s {
      var j :| 0 <= j < |s| && s[j] == x;
      assert xs[0] == xs[j + 1];
    }
    if x !in s && Distinct(s) {
      forall i, j | 0 <= i < j < |xs| ensures xs[i] != xs[j] {
        if i == 0 { assert xs[j] == s[j - 1]; } else { assert xs[i] == s[i - 1] && xs[j] == s[j - 1]; }
      }
    }
    if Distinct(xs) {
      forall i, j | 0 <= i < j < |s| ensures s[i] != s[j] {
        assert s[i] == xs[i + 1] && s[j] == xs[j + 1];
      }
    }
  }

  /** Distinctness is the same as every value having multiplicity at most one. */
  lemma {:induction false} DistinctIffSingleOccurrences<T>(s: seq<T>)
    ensures Distinct(s) <==> forall x :: multiset(s)[x] <= 1
  {
    if s == [] {
    } else {
      var t := s[1..];
      assert s == [s[0]] + t;
      DistinctCons(s[0], t);
      DistinctIffSingleOccurrences(t);
      assert multiset(s) == multiset{s[0]} + multiset(t);
      if Distinct(s) {
        forall x ensures multiset(s)[x] <= 1 {
          if x == s[0] { assert x !in multiset(t); }
        }
      }
      if forall x :: multiset(s)[x] <= 1 {
        assert multiset(s)[s[0]] <= 1;
        assert forall x :: multiset(t)[x] <= multiset(s)[x];
      }
    }
  }

  /** A sub-multiset of a duplicate-free sequence is duplicate-free (permutations and draws keep distinctness). */
  lemma DistinctSubMultiset<T>(a: seq<T>, b: seq<T>)
    requires Distinct(a) && multiset(b) <= multiset(a)
    ensures Distinct(b)
  {
    DistinctIffSingleOccurrences(a);
    DistinctIffSingleOccurrences(b);
    forall x ensures multiset(b)[x] <= 1 {
      assert multiset(b)[x] <= multiset(a)[x];
    }
  }

  lemma {:induction false} CountAppend<T>(a: seq<T>, b: seq<T>, p: T -> bool)
    ensures Count(a + b, p) == Count(a, p) + Count(b, p)
  {
    if a == [] {
      assert a + b == b;
    } else {
      assert (a + b)[1..] == a[1..] + b;
      CountAppend(a[1..], b, p);
    }
  }

  /** Counting is invariant under permutation. */
  lemma {:induction false} CountPermutation<T>(a: seq<T>, b: seq<T>, p: T -> bool)
    requires multiset(a) == multiset(b)
    ensures Count(a, p) == Count(b, p)
    decreases |a|
  {
    if a == [] {
      assert |b| == |multiset(b)| == 0;
    } else {
      var x := a[0];
      assert x in multiset(b);
      var i :| 0 <= i < |b| && b[i] == x;
      var rest := b[..i] + b[i + 1..];
      assert b == b[..i] + [x] + b[i + 1..];
      assert a == [x] + a[1..];
      assert multiset(rest) == multiset(b) - multiset{x};
      assert multiset(a[1..]) == multiset(a) - multiset{x};
      CountPermutation(a[1..], rest, p);
      CountAppend(b[..i] + [x], b[i + 1..], p);
      CountAppend(b[..i], [x], p);
      CountAppend(b[..i], b[i + 1..], p);
      assert Count([x], p) == (if p(x) then 1 else 0);
    }
  }

  /** A sequence never has more distinct values than elements, and has exactly as many iff it is duplicate-free. */
  lemma {:induction false} ElemsCard<T>(s: seq<T>)
    ensures |Elems(s)| <= |s|
    ensures |Elems(s)| == |s| <==> Distinct(s)
  {
    if s == [] {
      assert Elems(s) == {};
    } else {
      var t := s[1..];
      assert s == [s[0]] + t;
      ElemsCard(t);
      DistinctCons(s[0], t);
      assert Elems(s) == {s[0]} + Elems(t);
      if s[0] in t {
        assert Elems(s) == Elems(t);
      } else {
        assert s[0] !in Elems(t);
      }
    }
  }

  /** A subset as large as its superset is the superset. */
  lemma SubsetOfSameSize<T>(a: set<T>, b: set<T>)
    requires a <= b && |a| == |b|
    ensures a == b
  {
    var extra := b - a;
    assert b == a + extra;
    assert a * extra == {};
    assert |b| == |a| + |extra|;
  }
}
