/** Ranking of scored entries, shared by every estimator:
    `sorted(entries, key=lambda e: e[1], reverse=True)` (a stable sort, so
    ties keep their original order) and the threshold cuts applied to the
    ranked list afterwards. */
module Ranking {
  import Seqs

  /** Scores never increase along the list. */
  predicate SortedDesc<K>(s: seq<(K, real)>) {
    forall i, j :: 0 <= i < j < |s| ==> s[i].1 >= s[j].1
  }

  /** The entries whose score is exactly `v`, in their order in `s`. */
  function WithScore<K>(s: seq<(K, real)>, v: real): seq<(K, real)> {
    if |s| == 0 then []
    else (if s[0].1 == v then [s[0]] else []) + WithScore(s[1..], v)
  }

  /** Places `x` after every entry scoring at least as much as it does. */
  function Insert<K>(x: (K, real), s: seq<(K, real)>): (r: seq<(K, real)>)
    ensures |r| == |s| + 1
    ensures multiset(r) == multiset(s) + multiset{x}
  {
    if |s| == 0 then [x]
    else if s[0].1 < x.1 then [x] + s
    else
      assert s == [s[0]] + s[1..];
      [s[0]] + Insert(x, s[1..])
  }

  /** Stable descending sort by score (insertion sort, front to back). */
  function SortDesc<K>(s: seq<(K, real)>): (r: seq<(K, real)>)
    ensures |r| == |s|
    ensures multiset(r) == multiset(s)
  {
    if |s| == 0 then []
    else
      assert s == s[..|s| - 1] + [s[|s| - 1]];
      Insert(s[|s| - 1], SortDesc(s[..|s| - 1]))
  }

  /** Inserting below a bound keeps every score below it. */
  lemma {:induction false} InsertBounded<K>(x: (K, real), s: seq<(K, real)>, b: real)
    requires x.1 <= b
    requires forall i :: 0 <= i < |s| ==> s[i].1 <= b
    ensures forall j :: 0 <= j < |Insert(x, s)| ==> Insert(x, s)[j].1 <= b
    decreases |s|
  {
    if |s| > 0 && s[0].1 >= x.1 {
      InsertBounded(x, s[1..], b);
    }
  }

  lemma {:induction false} InsertSorted<K>(x: (K, real), s: seq<(K, real)>)
    requires SortedDesc(s)
    ensures SortedDesc(Insert(x, s))
    decreases |s|
  {
    if |s| > 0 && s[0].1 >= x.1 {
      InsertSorted(x, s[1..]);
      InsertBounded(x, s[1..], s[0].1);
      var t := Insert(x, s[1..]);
      assert Insert(x, s) == [s[0]] + t;
    }
  }

  /** The sort yields a descending ranking. */
  lemma {:induction false} SortDescSorted<K>(s: seq<(K, real)>)
    ensures SortedDesc(SortDesc(s))
    decreases |s|
  {
    if |s| > 0 {
      SortDescSorted(s[..|s| - 1]);
      InsertSorted(s[|s| - 1], SortDesc(s[..|s| - 1]));
    }
  }

  lemma {:induction false} WithScoreAppend<K>(a: seq<(K, real)>, b: seq<(K, real)>, v: real)
    ensures WithScore(a + b, v) == WithScore(a, v) + WithScore(b, v)
    decreases |a|
  {
    if |a| == 0 {
      assert a + b == b;
    } else {
      var c := a + b;
      var head: seq<(K, real)> := if a[0].1 == v then [a[0]] else [];
      assert c[0] == a[0] && c[1..] == a[1..] + b;
      WithScoreAppend(a[1..], b, v);
      assert WithScore(c, v) == head + WithScore(c[1..], v);
      assert WithScore(a, v) == head + WithScore(a[1..], v);
    }
  }

  lemma {:induction false} WithScoreNone<K>(s: seq<(K, real)>, v: real)
    requires forall i :: 0 <= i < |s| ==> s[i].1 < v
    ensures WithScore(s, v) == []
    decreases |s|
  {
    if |s| > 0 {
      WithScoreNone(s[1..], v);
    }
  }

  lemma {:induction false} InsertStable<K>(x: (K, real), s: seq<(K, real)>, v: real)
    requires SortedDesc(s)
    ensures WithScore(Insert(x, s), v) == WithScore(s, v) + WithScore([x], v)
    decreases |s|
  {
    if |s| == 0 {
      assert Insert(x, s) == [x];
    } else if s[0].1 < x.1 {
      assert Insert(x, s) == [x] + s;
      WithScoreAppend([x], s, v);
      if x.1 == v {
        assert forall i :: 0 <= i < |s| ==> s[i].1 <= s[0].1;
        WithScoreNone(s, v);
      } else {
        assert WithScore([x], v) == [];
      }
    } else {
      var tail := s[1..];
      assert SortedDesc(tail);
      assert Insert(x, s) == [s[0]] + Insert(x, tail);
      InsertStable(x, tail, v);
      WithScoreAppend([s[0]], Insert(x, tail), v);
      WithScoreAppend([s[0]], tail, v);
      assert s == [s[0]] + tail;
    }
  }

  /** Stability: for every score, the entries having it keep their input order. */
  lemma {:induction false} SortDescStable<K>(s: seq<(K, real)>, v: real)
    ensures WithScore(SortDesc(s), v) == WithScore(s, v)
    decreases |s|
  {
    if |s| > 0 {
      var init := s[..|s| - 1];
      SortDescStable(init, v);
      SortDescSorted(init);
      InsertStable(s[|s| - 1], SortDesc(init), v);
      WithScoreAppend(init, [s[|s| - 1]], v);
      assert s == init + [s[|s| - 1]];
    }
  }

  /** The first components, as `[k for k, _ in entries]`. */
  function KeysOf<K>(s: seq<(K, real)>): (r: seq<K>)
    ensures |r| == |s|
    ensures forall i :: 0 <= i < |s| ==> r[i] == s[i].0
  {
    seq(|s|, i requires 0 <= i < |s| => s[i].0)
  }

  /** The source's "append while score >= t, else break" loop over a ranking. */
  function PrefixAtLeast<K>(s: seq<(K, real)>, t: real): seq<(K, real)> {
    if |s| == 0 || s[0].1 < t then [] else [s[0]] + PrefixAtLeast(s[1..], t)
  }

  /** Every entry scoring at least `t`, in list order. */
  function AtLeast<K>(s: seq<(K, real)>, t: real): seq<(K, real)> {
    if |s| == 0 then []
    else (if s[0].1 >= t then [s[0]] else []) + AtLeast(s[1..], t)
  }

  /** Every entry scoring strictly more than `t`, in list order. */
  function Above<K>(s: seq<(K, real)>, t: real): (r: seq<(K, real)>)
    ensures |r| <= |s|
    ensures forall e :: e in r ==> e in s && e.1 > t
    ensures forall e :: e in s && e.1 > t ==> e in r
  {
    if |s| == 0 then []
    else
      assert forall e :: e in s ==> e == s[0] || e in s[1..];
      (if s[0].1 > t then [s[0]] else []) + Above(s[1..], t)
  }

  lemma {:induction false} AtLeastNone<K>(s: seq<(K, real)>, t: real)
    requires forall i :: 0 <= i < |s| ==> s[i].1 < t
    ensures AtLeast(s, t) == []
    decreases |s|
  {
    if |s| > 0 {
      AtLeastNone(s[1..], t);
    }
  }

  /** On a descending ranking the early-exit loop keeps exactly the entries
      scoring at least `t`: breaking at the first miss loses nobody. */
  lemma {:induction false} PrefixAtLeastIsFilter<K>(s: seq<(K, real)>, t: real)
    requires SortedDesc(s)
    ensures PrefixAtLeast(s, t) == AtLeast(s, t)
    decreases |s|
  {
    if |s| > 0 {
      if s[0].1 < t {
        AtLeastNone(s[1..], t);
      } else {
        PrefixAtLeastIsFilter(s[1..], t);
      }
    }
  }

  /** The early-exit loop returns a prefix of the ranking, each entry meeting `t`,
      and stops only at an entry below `t` or at the end. */
  lemma {:induction false} PrefixAtLeastShape<K>(s: seq<(K, real)>, t: real)
    ensures var p := PrefixAtLeast(s, t);
      && |p| <= |s| && p == s[..|p|]
      && (forall i :: 0 <= i < |p| ==> p[i].1 >= t)
      && (|p| < |s| ==> s[|p|].1 < t)
    decreases |s|
  {
    if |s| > 0 && s[0].1 >= t {
      PrefixAtLeastShape(s[1..], t);
    }
  }

  lemma {:induction false} AboveAppend<K>(a: seq<(K, real)>, b: seq<(K, real)>, t: real)
    ensures Above(a + b, t) == Above(a, t) + Above(b, t)
    decreases |a|
  {
    if |a| == 0 {
      assert a + b == b;
    } else {
      assert (a + b)[0] == a[0];
      assert (a + b)[1..] == a[1..] + b;
      AboveAppend(a[1..], b, t);
    }
  }

  lemma {:induction false} AboveNone<K>(s: seq<(K, real)>, t: real)
    requires forall i :: 0 <= i < |s| ==> s[i].1 <= t
    ensures Above(s, t) == []
    decreases |s|
  {
    if |s| > 0 {
      AboveNone(s[1..], t);
    }
  }

  /** On a descending ranking the strict filter keeps a prefix of it. */
  lemma {:induction false} AboveIsPrefix<K>(s: seq<(K, real)>, t: real)
    requires SortedDesc(s)
    ensures Above(s, t) == s[..|Above(s, t)|]
    decreases |s|
  {
    if |s| > 0 {
      if s[0].1 > t {
        var tail := s[1..];
        SortedTail(s);
        AboveIsPrefix(tail, t);
        var a := Above(tail, t);
        assert Above(s, t) == [s[0]] + a;
        assert a == tail[..|a|];
        PrefixCons(s, |a|);
      } else {
        SortedHeadTop(s);
        AboveNone(s, t);
      }
    }
  }

  lemma PrefixCons<K>(s: seq<K>, m: nat)
    requires m < |s|
    ensures s[..m + 1] == [s[0]] + s[1..][..m]
  {
  }

  lemma SortedTail<K>(s: seq<(K, real)>)
    requires SortedDesc(s) && |s| > 0
    ensures SortedDesc(s[1..])
  {
    forall i, j | 0 <= i < j < |s| - 1
      ensures s[1..][i].1 >= s[1..][j].1
    {
      assert s[1..][i] == s[i + 1] && s[1..][j] == s[j + 1];
    }
  }

  lemma SortedHeadTop<K>(s: seq<(K, real)>)
    requires SortedDesc(s) && |s| > 0
    ensures forall i :: 0 <= i < |s| ==> s[i].1 <= s[0].1
  {
    forall i | 0 < i < |s|
      ensures s[i].1 <= s[0].1
    {
    }
  }

  /** The second components, as `[v for _, v in entries]`. */
  function ScoresOf<K>(s: seq<(K, real)>): (r: seq<real>)
    ensures |r| == |s|
    ensures forall i :: 0 <= i < |s| ==> r[i] == s[i].1
  {
    seq(|s|, i requires 0 <= i < |s| => s[i].1)
  }

  /** The head of a descending ranking scores at least as much as every entry
      of any list with the same entries. */
  lemma TopBoundsAll<K>(s: seq<(K, real)>, t: seq<(K, real)>)
    requires SortedDesc(s) && |s| > 0 && multiset(s) == multiset(t)
    ensures forall i :: 0 <= i < |t| ==> t[i].1 <= s[0].1
  {
    forall i | 0 <= i < |t|
      ensures t[i].1 <= s[0].1
    {
      assert t[i] in multiset(t);
      assert t[i] in s;
      var j :| 0 <= j < |s| && s[j] == t[i];
    }
  }

  /** An entry scoring no more than anything in a ranking goes to its end. */
  lemma {:induction false} InsertLast<K>(x: (K, real), s: seq<(K, real)>)
    requires forall i :: 0 <= i < |s| ==> s[i].1 >= x.1
    ensures Insert(x, s) == s + [x]
    decreases |s|
  {
    if |s| > 0 {
      InsertLast(x, s[1..]);
      assert s == [s[0]] + s[1..];
    }
  }

  /** Sorting a list that is already descending leaves it as it is. */
  lemma {:induction false} SortDescIdentity<K>(s: seq<(K, real)>)
    requires SortedDesc(s)
    ensures SortDesc(s) == s
    decreases |s|
  {
    if |s| > 0 {
      var init := s[..|s| - 1];
      assert SortedDesc(init);
      SortDescIdentity(init);
      InsertLast(s[|s| - 1], init);
      assert init + [s[|s| - 1]] == s;
    }
  }

  /** The mean score of a non-empty, non-negative head of a ranking lies
      between zero and the top score. */
  lemma PrefixMeanBounds<K>(s: seq<(K, real)>, n: nat)
    requires SortedDesc(s) && 0 < n <= |s|
    requires forall i :: 0 <= i < n ==> s[i].1 >= 0.0
    ensures 0.0 <= Seqs.Sum(ScoresOf(s[..n])) / n as real <= s[0].1
  {
    var scores := ScoresOf(s[..n]);
    assert forall i :: 0 <= i < n ==> scores[i] == s[i].1;
    Seqs.MeanAtMost(scores, s[0].1);
    Seqs.MeanAtLeast(scores, 0.0);
  }

  /** Scaling a non-negative value by a factor of at most one cannot raise it. */
  lemma ScaleAtMost(v: real, factor: real)
    requires v >= 0.0 && factor <= 1.0
    ensures v * factor <= v
  {
    assert v * (1.0 - factor) >= 0.0;
  }

  /** The keys of a prefix are the prefix of the keys. */
  lemma KeysOfPrefix<K>(s: seq<(K, real)>, n: nat)
    requires n <= |s|
    ensures KeysOf(s[..n]) == KeysOf(s)[..n]
  {
  }

  lemma KeysOfAppend<K>(a: seq<(K, real)>, b: seq<(K, real)>)
    ensures KeysOf(a + b) == KeysOf(a) + KeysOf(b)
  {
  }

  /** Inserting an entry adds its key to the keys, and keeps them distinct when it is new. */
  lemma {:induction false} InsertKeys<K>(x: (K, real), s: seq<(K, real)>)
    ensures multiset(KeysOf(Insert(x, s))) == multiset(KeysOf(s)) + multiset{x.0}
    decreases |s|
  {
    if |s| > 0 && s[0].1 >= x.1 {
      InsertKeys(x, s[1..]);
      KeysOfAppend([s[0]], s[1..]);
      KeysOfAppend([s[0]], Insert(x, s[1..]));
      assert s == [s[0]] + s[1..];
    } else if |s| > 0 {
      KeysOfAppend([x], s);
    }
  }

  /** Sorting permutes the keys. */
  lemma {:induction false} SortDescKeys<K>(s: seq<(K, real)>)
    ensures multiset(KeysOf(SortDesc(s))) == multiset(KeysOf(s))
    decreases |s|
  {
    if |s| > 0 {
      var init := s[..|s| - 1];
      var x := s[|s| - 1];
      var sorted := SortDesc(init);
      assert SortDesc(s) == Insert(x, sorted);
      assert KeysOf(s) == KeysOf(init) + [x.0] by {
        assert s == init + [x];
        KeysOfAppend(init, [x]);
      }
      calc {
        multiset(KeysOf(SortDesc(s)));
        multiset(KeysOf(Insert(x, sorted)));
        { InsertKeys(x, sorted); }
        multiset(KeysOf(sorted)) + multiset{x.0};
        { SortDescKeys(init); }
        multiset(KeysOf(init)) + multiset{x.0};
        multiset(KeysOf(s));
      }
    }
  }
}
