/** Order-preserving filtering and mapping of sequences: Java's
    `stream().filter(..).collect(toList())`, `removeIf` and `map`. */
module Sequences {

  /** The elements of `s` that satisfy `keep`, in their original order. */
  function Filter<T>(keep: T -> bool, s: seq<T>): (r: seq<T>)
    ensures |r| <= |s|
    ensures forall k :: 0 <= k < |r| ==> r[k] in s && keep(r[k])
    ensures forall k :: 0 <= k < |s| && keep(s[k]) ==> s[k] in r
  {
    if s == [] then []
    else
      var rest := Filter(keep, s[1..]);
      assert forall k :: 1 <= k < |s| ==> s[k] == s[1..][k - 1];
      if keep(s[0]) then [s[0]] + rest else rest
  }

  /** Filtering a concatenation filters each part: the order of the kept
      elements is the order of the input. */
  lemma {:induction false} FilterAppend<T>(keep: T -> bool, a: seq<T>, b: seq<T>)
    ensures Filter(keep, a + b) == Filter(keep, a) + Filter(keep, b)
  {
    if a != [] {
      assert (a + b)[0] == a[0];
      assert (a + b)[1..] == a[1..] + b;
      FilterAppend(keep, a[1..], b);
    } else {
      assert a + b == b;
    }
  }

  /** Nothing is dropped when every element is kept. */
  lemma {:induction false} FilterKeepsAll<T>(keep: T -> bool, s: seq<T>)
    requires forall k :: 0 <= k < |s| ==> keep(s[k])
    ensures Filter(keep, s) == s
  {
    if s != [] {
      FilterKeepsAll(keep, s[1..]);
      assert [s[0]] + s[1..] == s;
    }
  }

  /** Filtering twice with the same test filters once. */
  lemma FilterIdempotent<T>(keep: T -> bool, s: seq<T>)
    ensures Filter(keep, Filter(keep, s)) == Filter(keep, s)
  {
    FilterKeepsAll(keep, Filter(keep, s));
  }

  /** Removal shrinks the sequence exactly when some element fails the test. */
  lemma {:induction false} FilterShrinks<T>(keep: T -> bool, s: seq<T>)
    ensures |Filter(keep, s)| < |s| <==> exists k :: 0 <= k < |s| && !keep(s[k])
  {
    if s != [] {
      FilterShrinks(keep, s[1..]);
      if !keep(s[0]) {
        assert 0 <= 0 < |s| && !keep(s[0]);
      } else if exists k :: 0 <= k < |s| && !keep(s[k]) {
        var k :| 0 <= k < |s| && !keep(s[k]);
        assert s[1..][k - 1] == s[k];
      } else {
        assert forall k :: 0 <= k < |s[1..]| ==> keep(s[1..][k]) by {
          forall k | 0 <= k < |s[1..]| ensures keep(s[1..][k]) { assert s[1..][k] == s[k + 1]; }
        }
      }
    }
  }

  /** Two tests that agree on every element keep the same elements. */
  lemma {:induction false} FilterCongruent<T>(f: T -> bool, g: T -> bool, s: seq<T>)
    requires forall k :: 0 <= k < |s| ==> f(s[k]) == g(s[k])
    ensures Filter(f, s) == Filter(g, s)
  {
    if s != [] {
      assert forall k :: 0 <= k < |s[1..]| ==> s[1..][k] == s[k + 1];
      FilterCongruent(f, g, s[1..]);
    }
  }

  /** A sequence none of whose elements passes the test filters to nothing. */
  lemma {:induction false} FilterNone<T>(keep: T -> bool, s: seq<T>)
    requires forall k :: 0 <= k < |s| ==> !keep(s[k])
    ensures Filter(keep, s) == []
  {
    if s != [] {
      assert forall k :: 0 <= k < |s[1..]| ==> s[1..][k] == s[k + 1];
      FilterNone(keep, s[1..]);
    }
  }

  /** When exactly one element passes the test, the filter yields it alone. */
  lemma FilterOnly<T>(keep: T -> bool, s: seq<T>, k: nat)
    requires k < |s| && keep(s[k])
    requires forall j :: 0 <= j < |s| && j != k ==> !keep(s[j])
    ensures Filter(keep, s) == [s[k]]
  {
    var a, b := s[..k], s[k + 1..];
    assert s == a + [s[k]] + b;
    assert forall j :: 0 <= j < |a| ==> a[j] == s[j];
    assert forall j :: 0 <= j < |b| ==> b[j] == s[k + 1 + j];
    FilterNone(keep, a);
    FilterNone(keep, b);
    FilterAppend(keep, a + [s[k]], b);
    FilterAppend(keep, a, [s[k]]);
    assert Filter(keep, [s[k]]) == [s[k]] by {
      assert [s[k]][1..] == [];
    }
  }

  /** When two elements pass the test, the filter keeps at least two. */
  lemma FilterTwo<T>(keep: T -> bool, s: seq<T>, i: nat, j: nat)
    requires i < j < |s| && keep(s[i]) && keep(s[j])
    ensures |Filter(keep, s)| >= 2
  {
    var a, b := s[..j], s[j..];
    assert s == a + b;
    assert a[i] == s[i] && b[0] == s[j];
    FilterAppend(keep, a, b);
  }

  /** `f` applied to every element, in order. */
  function Map<T, U>(f: T -> U, s: seq<T>): (r: seq<U>)
    ensures |r| == |s|
    ensures forall k :: 0 <= k < |s| ==> r[k] == f(s[k])
  {
    seq(|s|, k requires 0 <= k < |s| => f(s[k]))
  }
}
