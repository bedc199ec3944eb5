/** Sequences used as insertion-ordered sets, and sums over them. */
module Collections {

  /** No element occurs twice: what a `LinkedHashSet` keeps of its insertion order. */
  predicate Distinct<T(==)>(xs: seq<T>)
  {
    forall i, j :: 0 <= i < j < |xs| ==> xs[i] != xs[j]
  }

  /** The set of elements of a sequence. */
  function Elements<T>(xs: seq<T>): set<T>
  {
    set x | x in xs
  }

  /** `xs` lists every element of `s` exactly once, in some order. */
  predicate Enumerates<T(==)>(xs: seq<T>, s: set<T>)
  {
    Distinct(xs) && Elements(xs) == s
  }

  /** Every finite set can be iterated: some sequence enumerates it. */
  lemma {:induction false} EnumerationExists<T>(s: set<T>)
    ensures exists xs :: Enumerates(xs, s)
    decreases |s|
  {
    if s == {} {
      assert Enumerates([], s);
    } else {
      var x :| x in s;
      EnumerationExists(s - {x});
      var rest :| Enumerates(rest, s - {x});
      var xs := [x] + rest;
      assert Elements(xs) == {x} + Elements(rest);
      assert Enumerates(xs, s);
    }
  }

  /** `LinkedHashSet.add`: append `x` unless it is already present. */
  function AddIfAbsent<T(==)>(xs: seq<T>, x: T): (r: seq<T>)
    ensures xs <= r
    ensures Elements(r) == Elements(xs) + {x}
    ensures Distinct(xs) ==> Distinct(r)
    ensures x in xs <==> r == xs
  {
    if x in xs then xs else xs + [x]
  }

  /** The sum of `f` over a sequence, taken in iteration order. */
  function SeqSum<T>(xs: seq<T>, f: T -> int): int
  {
    if xs == [] then 0 else f(xs[0]) + SeqSum(xs[1..], f)
  }

  /** The sum of `f` over a set; the order of summation is immaterial (see SetSumRemove). */
  ghost function SetSum<T>(s: set<T>, f: T -> int): int
    decreases |s|
  {
    if s == {} then 0 else var x :| x in s; f(x) + SetSum(s - {x}, f)
  }

  /** Any element may be taken out of a set sum first. */
  lemma {:induction false} SetSumRemove<T>(s: set<T>, y: T, f: T -> int)
    requires y in s
    ensures SetSum(s, f) == f(y) + SetSum(s - {y}, f)
    decreases |s|
  {
    var x :| x in s && SetSum(s, f) == f(x) + SetSum(s - {x}, f);
    if x != y {
      SetSumRemove(s - {x}, y, f);
      SetSumRemove(s - {y}, x, f);
      assert s - {x} - {y} == s - {y} - {x};
    }
  }

  /** Summing a duplicate-free sequence in its order gives the sum over its set of elements. */
  lemma {:induction false} SeqSumAsSetSum<T>(xs: seq<T>, f: T -> int)
    requires Distinct(xs)
    ensures SeqSum(xs, f) == SetSum(Elements(xs), f)
  {
    if xs != [] {
      var rest := xs[1..];
      assert Distinct(rest) by {
        forall i, j | 0 <= i < j < |rest| ensures rest[i] != rest[j] {
          assert rest[i] == xs[i + 1] && rest[j] == xs[j + 1];
        }
      }
      SeqSumAsSetSum(rest, f);
      SetSumRemove(Elements(xs), xs[0], f);
      assert xs[0] !in rest by {
        forall k | 0 <= k < |rest| ensures rest[k] != xs[0] {
          assert rest[k] == xs[k + 1];
        }
      }
      assert Elements(xs) - {xs[0]} == Elements(rest) by {
        assert xs == [xs[0]] + rest;
      }
    }
  }
}
