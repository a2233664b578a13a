/** util.Sum and the set helpers the card solvers use. */
module Util {

  /** The sum of s, added up from the left as the Go loop does. */
  function Total(s: seq<int>): int
  {
    if s == [] then 0 else Total(s[..|s| - 1]) + s[|s| - 1]
  }

  /** The sum of five values. */
  lemma TotalOfFive(vs: seq<int>)
    requires |vs| == 5
    ensures Total(vs) == vs[0] + vs[1] + vs[2] + vs[3] + vs[4]
  {
    assert Total(vs[..0]) == 0;
    assert vs[..1][..0] == vs[..0];
    assert Total(vs[..1]) == vs[0];
    assert vs[..2][..1] == vs[..1];
    assert Total(vs[..2]) == vs[0] + vs[1];
    assert vs[..3][..2] == vs[..2];
    assert Total(vs[..3]) == vs[0] + vs[1] + vs[2];
    assert vs[..4][..3] == vs[..3];
    assert Total(vs[..4]) == vs[0] + vs[1] + vs[2] + vs[3];
    assert vs[..4] == vs[..|vs| - 1];
    assert vs[..5] == vs;
  }

  /** util.Sum: the accumulator loop over a slice of integers. */
  method Sum(s: seq<int>) returns (ret: int)
    ensures ret == Total(s)
  {
    ret := 0;
    for i := 0 to |s|
      invariant ret == Total(s[..i])
    {
      assert s[..i + 1][..i] == s[..i];
      ret := ret + s[i];
    }
    assert s[..|s|] == s;
  }

  /** Adding one more element adds its value. */
  lemma TotalSnoc(s: seq<int>, v: int)
    ensures Total(s + [v]) == Total(s) + v
  {
    assert (s + [v])[..|s|] == s;
  }

  /** The sum of a concatenation is the sum of the sums. */
  lemma {:induction false} TotalConcat(a: seq<int>, b: seq<int>)
    ensures Total(a + b) == Total(a) + Total(b)
    decreases |b|
  {
    if b == [] {
      assert a + b == a;
    } else {
      var b' := b[..|b| - 1];
      TotalConcat(a, b');
      assert a + b == (a + b') + [b[|b| - 1]];
      TotalSnoc(a + b', b[|b| - 1]);
    }
  }

  /** Adding one to one element adds one to the sum. */
  lemma {:induction false} TotalIncrement(s: seq<int>, k: nat)
    requires k < |s|
    ensures Total(s[k := s[k] + 1]) == Total(s) + 1
    decreases |s|
  {
    var t := s[k := s[k] + 1];
    if k < |s| - 1 {
      TotalIncrement(s[..|s| - 1], k);
      assert t[..|t| - 1] == s[..|s| - 1][k := s[k] + 1];
    } else {
      assert t[..|t| - 1] == s[..|s| - 1];
    }
  }

  /** A sum of non-negative numbers is non-negative. */
  lemma {:induction false} TotalNonNegative(s: seq<int>)
    requires forall i :: 0 <= i < |s| ==> s[i] >= 0
    ensures Total(s) >= 0
  {
    if s != [] {
      TotalNonNegative(s[..|s| - 1]);
    }
  }

  /** A sum of at-least-one values is at least the length. */
  lemma {:induction false} TotalAtLeastLength(s: seq<int>)
    requires forall i :: 0 <= i < |s| ==> s[i] >= 1
    ensures Total(s) >= |s|
  {
    if s != [] {
      TotalAtLeastLength(s[..|s| - 1]);
    }
  }

  /** util.NewSet(a).Intersection(util.NewSet(b)).Values(): the distinct
      values present in both slices, in ascending order. */
  function Intersection(a: seq<int>, b: seq<int>): (r: seq<int>)
    ensures forall i, j :: 0 <= i < j < |r| ==> r[i] < r[j]
    ensures forall x :: x in r <==> x in a && x in b
  {
    if a == [] then []
    else
      var r' := Intersection(a[..|a| - 1], b);
      var x := a[|a| - 1];
      assert forall y :: y in a <==> y in a[..|a| - 1] || y == x by {
        assert a == a[..|a| - 1] + [x];
      }
      if x in b then InsertDistinct(x, r') else r'
  }

  /** Inserts x into a strictly increasing sequence unless it is already there. */
  function InsertDistinct(x: int, s: seq<int>): (r: seq<int>)
    requires forall i, j :: 0 <= i < j < |s| ==> s[i] < s[j]
    ensures forall i, j :: 0 <= i < j < |r| ==> r[i] < r[j]
    ensures forall y :: y in r <==> y in s || y == x
  {
    if s == [] then [x]
    else if x < s[0] then [x] + s
    else if x == s[0] then s
    else
      var r' := InsertDistinct(x, s[1..]);
      assert forall i :: 0 <= i < |r'| ==> r'[i] in s[1..] || r'[i] == x;
      assert forall i :: 0 <= i < |s| - 1 ==> s[0] < s[1..][i];
      [s[0]] + r'
  }

  /** The intersection holds each common value once: its length is the
      size of the set intersection. */
  lemma IntersectionSize(a: seq<int>, b: seq<int>)
    ensures |Intersection(a, b)| == |(set x | x in a) * (set x | x in b)|
  {
    var r := Intersection(a, b);
    DistinctCard(r);
    assert (set x | x in r) == (set x | x in a) * (set x | x in b);
  }

  /** A strictly increasing sequence has as many elements as its set. */
  lemma {:induction false} DistinctCard(r: seq<int>)
    requires forall i, j :: 0 <= i < j < |r| ==> r[i] < r[j]
    ensures |set x | x in r| == |r|
  {
    if r != [] {
      var r' := r[..|r| - 1];
      DistinctCard(r');
      var x := r[|r| - 1];
      assert (set y | y in r) == (set y | y in r') + {x} by {
        assert r == r' + [x];
      }
      assert x !in r';
    }
  }

  /** Two strictly increasing sequences with the same elements are equal. */
  lemma {:induction false} IncreasingUnique(r: seq<int>, t: seq<int>)
    requires forall i, j :: 0 <= i < j < |r| ==> r[i] < r[j]
    requires forall i, j :: 0 <= i < j < |t| ==> t[i] < t[j]
    requires forall x :: x in r <==> x in t
    ensures r == t
    decreases |r|
  {
    assert r != [] ==> r[0] in r;
    assert t != [] ==> t[0] in t;
    if r != [] && t != [] {
      assert r[0] == t[0] by {
        if r[0] < t[0] {
          HeadIsLeast(t, r[0]);
        } else if t[0] < r[0] {
          HeadIsLeast(r, t[0]);
        }
      }
      forall x ensures x in r[1..] <==> x in t[1..] {
        TailMembers(r, x);
        TailMembers(t, x);
      }
      IncreasingUnique(r[1..], t[1..]);
      assert r == [r[0]] + r[1..] && t == [t[0]] + t[1..];
    }
  }

  /** Nothing in a strictly increasing sequence is below its head. */
  lemma HeadIsLeast(s: seq<int>, x: int)
    requires forall i, j :: 0 <= i < j < |s| ==> s[i] < s[j]
    requires s != [] && x < s[0]
    ensures x !in s
  {
    forall i | 0 < i < |s| ensures s[i] != x {
      assert s[0] < s[i];
    }
  }

  /** The tail of a strictly increasing sequence holds everything but its head. */
  lemma TailMembers(s: seq<int>, x: int)
    requires forall i, j :: 0 <= i < j < |s| ==> s[i] < s[j]
    requires s != []
    ensures x in s[1..] <==> x in s && x != s[0]
  {
    if x in s[1..] {
      var i :| 0 <= i < |s| - 1 && s[1..][i] == x;
      assert s[i + 1] == x;
    }
    if x in s && x != s[0] {
      var i :| 0 <= i < |s| && s[i] == x;
      assert s[1..][i - 1] == x;
    }
  }

  /** The intersection is the strictly increasing sequence of the common
      values. */
  lemma IntersectionIs(a: seq<int>, b: seq<int>, m: seq<int>)
    requires forall i, j :: 0 <= i < j < |m| ==> m[i] < m[j]
    requires forall x :: x in m <==> x in a && x in b
    ensures Intersection(a, b) == m
  {
    IncreasingUnique(Intersection(a, b), m);
  }
}
