/** Small facts about sequences shared by every component: duplicate-freedom,
    sums of reals, occurrence counts and Python's `list.remove`. */
module Seqs {

  /** No element occurs twice. */
  predicate Distinct<T(==)>(s: seq<T>) {
    forall i, j :: 0 <= i < j < |s| ==> s[i] != s[j]
  }

  /** Sum of a sequence of reals, folded from the left as Python's `sum` does. */
  function Sum(s: seq<real>): real {
    if |s| == 0 then 0.0 else Sum(s[..|s| - 1]) + s[|s| - 1]
  }

  lemma {:induction false} SumAppend(a: seq<real>, b: seq<real>)
    ensures Sum(a + b) == Sum(a) + Sum(b)
    decreases |b|
  {
    if |b| == 0 {
      assert a + b == a;
    } else {
      assert (a + b)[..|a + b| - 1] == a + b[..|b| - 1];
      SumAppend(a, b[..|b| - 1]);
    }
  }

  lemma {:induction false} SumNonNegative(s: seq<real>)
    requires forall i :: 0 <= i < |s| ==> s[i] >= 0.0
    ensures Sum(s) >= 0.0
    decreases |s|
  {
    if |s| > 0 {
      SumNonNegative(s[..|s| - 1]);
    }
  }

  /** Replacing one element changes the sum by the difference. */
  lemma {:induction false} SumUpdate(s: seq<real>, i: nat, v: real)
    requires i < |s|
    ensures Sum(s[i := v]) == Sum(s) - s[i] + v
    decreases |s|
  {
    if i < |s| - 1 {
      assert s[i := v][..|s| - 1] == s[..|s| - 1][i := v];
      SumUpdate(s[..|s| - 1], i, v);
    } else {
      assert s[i := v][..|s| - 1] == s[..|s| - 1];
    }
  }

  /** Number of occurrences of `x` in `s`. */
  function Count<T(==)>(s: seq<T>, x: T): nat {
    if |s| == 0 then 0 else Count(s[..|s| - 1], x) + (if s[|s| - 1] == x then 1 else 0)
  }

  lemma {:induction false} CountAppend<T>(a: seq<T>, b: seq<T>, x: T)
    ensures Count(a + b, x) == Count(a, x) + Count(b, x)
    decreases |b|
  {
    if |b| == 0 {
      assert a + b == a;
    } else {
      assert (a + b)[..|a + b| - 1] == a + b[..|b| - 1];
      CountAppend(a, b[..|b| - 1], x);
    }
  }

  lemma {:induction false} CountPositive<T>(s: seq<T>, x: T)
    ensures Count(s, x) > 0 <==> x in s
    decreases |s|
  {
    if |s| > 0 {
      CountPositive(s[..|s| - 1], x);
      assert s == s[..|s| - 1] + [s[|s| - 1]];
    }
  }

  /** Python's `list.remove(x)`: drops the first occurrence of `x`; callers guard it with `x in s`. */
  function RemoveFirst<T(==)>(s: seq<T>, x: T): (r: seq<T>)
    ensures x in s ==> |r| == |s| - 1
    ensures x !in s ==> r == s
    ensures forall y :: y in r ==> y in s
    ensures forall y :: y in s && y != x ==> y in r
  {
    if |s| == 0 then s
    else if s[0] == x then s[1..]
    else [s[0]] + RemoveFirst(s[1..], x)
  }

  lemma {:induction false} RemoveFirstDistinct<T>(s: seq<T>, x: T)
    requires Distinct(s)
    ensures Distinct(RemoveFirst(s, x))
    ensures x !in RemoveFirst(s, x)
    decreases |s|
  {
    if |s| > 0 && s[0] != x {
      RemoveFirstDistinct(s[1..], x);
      var r := RemoveFirst(s, x);
      assert r == [s[0]] + RemoveFirst(s[1..], x);
      assert s[0] !in RemoveFirst(s[1..], x);
    }
  }

  /** `s` with every occurrence of `x` removed, keeping the order of the rest. */
  function Without<T(==)>(s: seq<T>, x: T): (r: seq<T>)
    ensures |r| <= |s|
    ensures forall y :: y in r ==> y in s && y != x
    ensures forall y :: y in s && y != x ==> y in r
  {
    if |s| == 0 then s
    else (if s[0] == x then [] else [s[0]]) + Without(s[1..], x)
  }

  lemma {:induction false} WithoutDistinct<T>(s: seq<T>, x: T)
    requires Distinct(s)
    ensures Distinct(Without(s, x))
    decreases |s|
  {
    if |s| > 0 {
      WithoutDistinct(s[1..], x);
      assert s[0] !in s[1..];
      assert s[0] !in Without(s[1..], x);
    }
  }

  /** Membership in a non-empty sequence: in its front or its last element. */
  lemma InSnoc<T>(s: seq<T>, x: T)
    requires |s| > 0
    ensures x in s <==> x in s[..|s| - 1] || x == s[|s| - 1]
  {
    assert s == s[..|s| - 1] + [s[|s| - 1]];
  }

  lemma {:induction false} WithoutAbsent<T>(s: seq<T>, x: T)
    requires x !in s
    ensures Without(s, x) == s
    decreases |s|
  {
    if |s| > 0 {
      WithoutAbsent(s[1..], x);
    }
  }

  lemma {:induction false} WithoutAppend<T>(a: seq<T>, b: seq<T>, x: T)
    ensures Without(a + b, x) == Without(a, x) + Without(b, x)
    decreases |a|
  {
    if |a| == 0 {
      assert a + b == b;
    } else {
      assert (a + b)[0] == a[0];
      assert (a + b)[1..] == a[1..] + b;
      WithoutAppend(a[1..], b, x);
    }
  }

  lemma {:induction false} WithoutShorter<T>(s: seq<T>, x: T)
    ensures x in s ==> |Without(s, x)| < |s|
    decreases |s|
  {
    if |s| > 0 && s[0] != x {
      WithoutShorter(s[1..], x);
    }
  }

  /** Removing a value that occurs once shortens the sequence by one. */
  lemma {:induction false} WithoutCount<T>(s: seq<T>, x: T)
    requires Distinct(s) && x in s
    ensures |Without(s, x)| == |s| - 1
    decreases |s|
  {
    if s[0] == x {
      assert x !in s[1..];
      WithoutAbsent(s[1..], x);
    } else {
      WithoutCount(s[1..], x);
    }
  }

  /** `list(dict.fromkeys(s))`: the first occurrence of each element, in order. */
  function Dedup<T(==)>(s: seq<T>): (r: seq<T>)
    ensures Distinct(r)
    ensures forall x :: x in r ==> x in s
    ensures forall x :: x in s ==> x in r
    ensures |r| <= |s|
  {
    if |s| == 0 then []
    else
      var init := Dedup(s[..|s| - 1]);
      assert s == s[..|s| - 1] + [s[|s| - 1]];
      if s[|s| - 1] in init then init else init + [s[|s| - 1]]
  }

  /** Concatenation of a sequence of sequences. */
  function Flatten<T>(ss: seq<seq<T>>): seq<T> {
    if |ss| == 0 then [] else Flatten(ss[..|ss| - 1]) + ss[|ss| - 1]
  }

  lemma {:induction false} FlattenMember<T>(ss: seq<seq<T>>, x: T)
    ensures x in Flatten(ss) <==> exists i :: 0 <= i < |ss| && x in ss[i]
    decreases |ss|
  {
    if |ss| > 0 {
      FlattenMember(ss[..|ss| - 1], x);
      if x in ss[|ss| - 1] {
        assert x in Flatten(ss);
      }
    }
  }

  /** A list comprehension with a condition: the elements satisfying `p`, in
      their original order. */
  function Filter<T(!new)>(s: seq<T>, p: T -> bool): (r: seq<T>)
    ensures |r| <= |s|
    ensures forall x :: x in r <==> x in s && p(x)
  {
    if |s| == 0 then []
    else
      var init := Filter(s[..|s| - 1], p);
      assert s == s[..|s| - 1] + [s[|s| - 1]];
      if p(s[|s| - 1]) then init + [s[|s| - 1]] else init
  }

  /** A condition every element meets keeps the whole sequence. */
  lemma {:induction false} FilterAll<T(!new)>(s: seq<T>, p: T -> bool)
    requires forall i :: 0 <= i < |s| ==> p(s[i])
    ensures Filter(s, p) == s
  {
    if |s| > 0 {
      FilterAll(s[..|s| - 1], p);
    }
  }

  /** How many elements satisfy `p`. */
  function CountWhere<T>(s: seq<T>, p: T -> bool): nat {
    if |s| == 0 then 0
    else CountWhere(s[..|s| - 1], p) + (if p(s[|s| - 1]) then 1 else 0)
  }

  /** The filtered sequence has one element per element satisfying `p`. */
  lemma {:induction false} FilterLength<T(!new)>(s: seq<T>, p: T -> bool)
    ensures |Filter(s, p)| == CountWhere(s, p)
  {
    if |s| > 0 {
      FilterLength(s[..|s| - 1], p);
    }
  }

  /** The `i`-th kept element is an element of `s` satisfying `p` with
      exactly `i` such elements before it: order and multiplicity are kept. */
  lemma {:induction false} FilterNth<T(!new)>(s: seq<T>, p: T -> bool, i: nat)
    requires i < |Filter(s, p)|
    ensures exists j :: 0 <= j < |s| && p(s[j]) && s[j] == Filter(s, p)[i] && CountWhere(s[..j], p) == i
  {
    var n := |s|;
    var front := s[..n - 1];
    var init := Filter(front, p);
    var full := Filter(s, p);
    assert full == init + (if p(s[n - 1]) then [s[n - 1]] else []);
    if i < |init| {
      FilterNth(front, p, i);
      var j :| 0 <= j < |front| && p(front[j]) && front[j] == init[i] && CountWhere(front[..j], p) == i;
      assert front[..j] == s[..j] && front[j] == s[j];
      assert full[i] == init[i];
      assert 0 <= j < |s| && p(s[j]) && s[j] == full[i] && CountWhere(s[..j], p) == i;
    } else {
      FilterLength(front, p);
      assert p(s[n - 1]) && full[i] == s[n - 1];
      assert s[..n - 1] == front;
      assert CountWhere(s[..n - 1], p) == i;
    }
  }

  /** Every kept element has a position in `s` that accounts for its place. */
  lemma FilterPositions<T(!new)>(s: seq<T>, p: T -> bool)
    ensures var r := Filter(s, p);
      forall i :: 0 <= i < |r| ==>
        exists j :: 0 <= j < |s| && p(s[j]) && s[j] == r[i] && CountWhere(s[..j], p) == i
  {
    forall i | 0 <= i < |Filter(s, p)|
      ensures exists j :: 0 <= j < |s| && p(s[j]) && s[j] == Filter(s, p)[i] && CountWhere(s[..j], p) == i
    {
      FilterNth(s, p, i);
    }
  }

  /** `s[::-1]`. */
  function Reverse<T>(s: seq<T>): (r: seq<T>)
    ensures |r| == |s|
    ensures forall i :: 0 <= i < |s| ==> r[i] == s[|s| - 1 - i]
  {
    seq(|s|, i requires 0 <= i < |s| => s[|s| - 1 - i])
  }

  /** `n` copies of `1.0`. */
  function Ones(n: nat): (r: seq<real>)
    ensures |r| == n
    ensures forall i :: 0 <= i < n ==> r[i] == 1.0
  {
    seq(n, i => 1.0)
  }

  /** Every element divided by `c`. */
  function Scaled(s: seq<real>, c: real): (r: seq<real>)
    requires c != 0.0
    ensures |r| == |s|
    ensures forall i :: 0 <= i < |s| ==> r[i] == s[i] / c
  {
    seq(|s|, i requires 0 <= i < |s| => s[i] / c)
  }

  /** Dividing every element by `c` divides the sum by `c`. */
  lemma {:induction false} SumScaled(s: seq<real>, c: real)
    requires c != 0.0
    ensures Sum(Scaled(s, c)) == Sum(s) / c
    decreases |s|
  {
    if |s| > 0 {
      var init := s[..|s| - 1];
      assert Scaled(s, c)[..|s| - 1] == Scaled(init, c);
      SumScaled(init, c);
    }
  }

  /** A sum of terms each at most `m` is at most `|s| * m`. */
  lemma {:induction false} SumAtMost(s: seq<real>, m: real)
    requires forall i :: 0 <= i < |s| ==> s[i] <= m
    ensures Sum(s) <= |s| as real * m
    decreases |s|
  {
    if |s| > 0 {
      SumAtMost(s[..|s| - 1], m);
    }
  }

  /** A sum of terms each at least `m` is at least `|s| * m`. */
  lemma {:induction false} SumAtLeast(s: seq<real>, m: real)
    requires forall i :: 0 <= i < |s| ==> s[i] >= m
    ensures Sum(s) >= |s| as real * m
    decreases |s|
  {
    if |s| > 0 {
      SumAtLeast(s[..|s| - 1], m);
    }
  }

  /** Weights of at least one add up to at least their number. */
  lemma SumAtLeastLength(s: seq<real>)
    requires forall i :: 0 <= i < |s| ==> s[i] >= 1.0
    ensures Sum(s) >= |s| as real
  {
    SumAtLeast(s, 1.0);
  }

  /** The mean of terms each at most `m` is at most `m`. */
  lemma MeanAtMost(s: seq<real>, m: real)
    requires |s| > 0 && forall i :: 0 <= i < |s| ==> s[i] <= m
    ensures Sum(s) / |s| as real <= m
  {
    SumAtMost(s, m);
    var n := |s| as real;
    assert Sum(s) / n * n == Sum(s);
  }

  /** The mean of terms each at least `m` is at least `m`. */
  lemma MeanAtLeast(s: seq<real>, m: real)
    requires |s| > 0 && forall i :: 0 <= i < |s| ==> s[i] >= m
    ensures Sum(s) / |s| as real >= m
  {
    SumAtLeast(s, m);
    var n := |s| as real;
    assert Sum(s) / n * n == Sum(s);
  }

  lemma SumOfThree(a: real, b: real, c: real)
    ensures Sum([a, b, c]) == a + b + c
  {
    assert [a][..0] == [];
    assert Sum([a]) == a;
    assert [a, b][..1] == [a];
    assert Sum([a, b]) == a + b;
    assert [a, b, c][..2] == [a, b];
  }

  /** Taking one element out of a sum. */
  lemma SumRemoveAt(s: seq<real>, j: nat)
    requires j < |s|
    ensures Sum(s) == Sum(s[..j] + s[j + 1..]) + s[j]
  {
    var pre, x, rest := s[..j], s[j], s[j + 1..];
    assert s == pre + ([x] + rest);
    SumAppend(pre, [x] + rest);
    SumAppend([x], rest);
    SumAppend(pre, rest);
    assert Sum([x]) == x by {
      assert [x][..0] == [];
    }
  }

  /** A duplicate-free sequence holds each of its elements exactly once. */
  lemma {:induction false} DistinctMultiplicity<T>(s: seq<T>, x: T)
    requires Distinct(s)
    ensures multiset(s)[x] == if x in s then 1 else 0
    decreases |s|
  {
    if |s| > 0 {
      var init := s[..|s| - 1];
      assert s == init + [s[|s| - 1]];
      DistinctMultiplicity(init, x);
    }
  }

  /** Two duplicate-free sequences with the same elements are permutations of each other. */
  lemma SameElementsPermutation<T>(a: seq<T>, b: seq<T>)
    requires Distinct(a) && Distinct(b)
    requires forall x :: x in a ==> x in b
    requires forall x :: x in b ==> x in a
    ensures multiset(a) == multiset(b)
  {
    forall x
      ensures multiset(a)[x] == multiset(b)[x]
    {
      DistinctMultiplicity(a, x);
      DistinctMultiplicity(b, x);
    }
  }

  /** A sequence holding nothing twice is duplicate-free. */
  lemma {:induction false} MultiplicityDistinct<T>(s: seq<T>)
    requires forall x :: multiset(s)[x] <= 1
    ensures Distinct(s)
    decreases |s|
  {
    if |s| > 0 {
      var init := s[..|s| - 1];
      var y := s[|s| - 1];
      assert s == init + [y];
      assert forall x :: multiset(init)[x] <= multiset(s)[x];
      MultiplicityDistinct(init);
      assert multiset(init)[y] == 0;
    }
  }

  /** The largest element, as Python's `max`. */
  function Max(s: seq<real>): (r: real)
    requires |s| > 0
    ensures r in s
    ensures forall i :: 0 <= i < |s| ==> s[i] <= r
  {
    if |s| == 1 then s[0]
    else
      var m := Max(s[..|s| - 1]);
      assert forall i :: 0 <= i < |s| - 1 ==> s[..|s| - 1][i] == s[i];
      if s[|s| - 1] > m then s[|s| - 1] else m
  }

  /** The position of the first occurrence of `x`, as `list.index`. */
  function IndexOf<T(==)>(s: seq<T>, x: T): (r: nat)
    requires x in s
    ensures r < |s| && s[r] == x && x !in s[..r]
  {
    if x in s[..|s| - 1] then
      var i := IndexOf(s[..|s| - 1], x);
      assert s[..|s| - 1][..i] == s[..i];
      i
    else
      assert s == s[..|s| - 1] + [x];
      |s| - 1
  }
}
