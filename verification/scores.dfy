/** Score tables: an insertion-ordered dict from contributor key to a real
    score, built by the "add to the entry, creating it" loops the estimators
    share, and ranked with the shared stable sort. */
module Scores {
  import opened Wrappers
  import Seqs
  import Dicts
  import Ranking

  type Table = Dicts.Dict<string, real>

  /** `d[k] = d[k] + w if k in d else w`. */
  function Credit(d: Table, k: string, w: real): (r: Table)
    ensures Dicts.Valid(d) ==> Dicts.Valid(r)
    ensures r.vals.Keys == d.vals.Keys + {k}
    ensures r.vals[k] == Dicts.Get(d, k).GetOr(0.0) + w
    ensures forall j :: j in d.vals && j != k ==> r.vals[j] == d.vals[j]
  {
    Dicts.Put(d, k, Dicts.Get(d, k).GetOr(0.0) + w)
  }

  /** Credits `ws[i]` to `ks[i]` for each position in turn. */
  function Tally(ks: seq<string>, ws: seq<real>): (r: Table)
    requires |ks| == |ws|
    ensures Dicts.Valid(r)
    ensures forall k :: k in r.vals ==> k in ks
    ensures forall i :: 0 <= i < |ks| ==> ks[i] in r.vals
  {
    if |ks| == 0 then Dicts.Empty()
    else
      var init := ks[..|ks| - 1];
      var d := Tally(init, ws[..|ws| - 1]);
      assert ks == init + [ks[|ks| - 1]];
      CreditKeys(d, init, ks[|ks| - 1], ws[|ws| - 1]);
      Credit(d, ks[|ks| - 1], ws[|ws| - 1])
  }

  /** Crediting `k` to a table keyed by `ks` gives one keyed by `ks + [k]`. */
  lemma CreditKeys(d: Table, ks: seq<string>, k: string, w: real)
    requires Dicts.Valid(d)
    requires forall j :: j in d.vals ==> j in ks
    requires forall i :: 0 <= i < |ks| ==> ks[i] in d.vals
    ensures var r := Credit(d, k, w);
      && Dicts.Valid(r)
      && (forall j :: j in r.vals ==> j in ks + [k])
      && (forall i :: 0 <= i < |ks| + 1 ==> (ks + [k])[i] in r.vals)
  {
  }

  /** The total weight paired with `k`. */
  function WeightOf(ks: seq<string>, ws: seq<real>, k: string): real
    requires |ks| == |ws|
  {
    if |ks| == 0 then 0.0
    else WeightOf(ks[..|ks| - 1], ws[..|ws| - 1], k) + (if ks[|ks| - 1] == k then ws[|ws| - 1] else 0.0)
  }

  /** Each key ends with exactly the weight paired with it; an absent key has none. */
  lemma {:induction false} TallyValue(ks: seq<string>, ws: seq<real>, k: string)
    requires |ks| == |ws|
    ensures Dicts.Get(Tally(ks, ws), k).GetOr(0.0) == WeightOf(ks, ws, k)
    decreases |ks|
  {
    if |ks| > 0 {
      TallyValue(ks[..|ks| - 1], ws[..|ws| - 1], k);
    }
  }

  /** The table's values add up to the total weight credited. */
  lemma {:induction false} TallySum(ks: seq<string>, ws: seq<real>)
    requires |ks| == |ws|
    ensures Dicts.SumValues(Tally(ks, ws)) == Seqs.Sum(ws)
    decreases |ks|
  {
    if |ks| > 0 {
      var ki, wi := ks[..|ks| - 1], ws[..|ws| - 1];
      var init := Tally(ki, wi);
      var k, w := ks[|ks| - 1], ws[|ws| - 1];
      TallySum(ki, wi);
      assert Tally(ks, ws) == Credit(init, k, w);
      assert Seqs.Sum(ws) == Seqs.Sum(wi) + w;
      CreditSum(init, k, w);
    }
  }

  lemma CreditSum(d: Table, k: string, w: real)
    requires Dicts.Valid(d)
    ensures Dicts.SumValues(Credit(d, k, w)) == Dicts.SumValues(d) + w
  {
    if k in d.vals {
      Dicts.SumValuesPutExisting(d, k, d.vals[k] + w);
    } else {
      Dicts.SumValuesPutNew(d, k, w);
    }
  }

  /** With unit weights the tally counts occurrences. */
  lemma {:induction false} WeightOfOnes(ks: seq<string>, k: string)
    ensures WeightOf(ks, Seqs.Ones(|ks|), k) == Seqs.Count(ks, k) as real
    decreases |ks|
  {
    if |ks| > 0 {
      assert Seqs.Ones(|ks|)[..|ks| - 1] == Seqs.Ones(|ks| - 1);
      WeightOfOnes(ks[..|ks| - 1], k);
    }
  }

  /** Crediting one to each key counts its occurrences. */
  lemma TallyCounts(ks: seq<string>)
    ensures var d := Tally(ks, Seqs.Ones(|ks|));
      forall k :: k in d.vals ==> d.vals[k] == Seqs.Count(ks, k) as real
  {
    forall k | k in Tally(ks, Seqs.Ones(|ks|)).vals
      ensures Tally(ks, Seqs.Ones(|ks|)).vals[k] == Seqs.Count(ks, k) as real
    {
      TallyValue(ks, Seqs.Ones(|ks|), k);
      WeightOfOnes(ks, k);
    }
  }

  /** Positive weights give every credited key a positive score. */
  lemma {:induction false} TallyPositive(ks: seq<string>, ws: seq<real>)
    requires |ks| == |ws|
    requires forall i :: 0 <= i < |ws| ==> ws[i] > 0.0
    ensures forall k :: k in Tally(ks, ws).vals ==> Tally(ks, ws).vals[k] > 0.0
    decreases |ks|
  {
    if |ks| > 0 {
      TallyPositive(ks[..|ks| - 1], ws[..|ws| - 1]);
    }
  }

  /** The table ranked by descending score, ties in insertion order. */
  function Ranked(d: Table): (r: seq<(string, real)>)
    requires Dicts.Valid(d)
    ensures |r| == |d.keys|
    ensures Ranking.SortedDesc(r)
    ensures multiset(r) == multiset(Dicts.Items(d))
  {
    Ranking.SortDescSorted(Dicts.Items(d));
    Ranking.SortDesc(Dicts.Items(d))
  }

  /** Every entry of a ranking is an entry of the table. */
  lemma RankedEntries(d: Table, i: int)
    requires Dicts.Valid(d) && 0 <= i < |Ranked(d)|
    ensures Ranked(d)[i].0 in d.vals && Ranked(d)[i].1 == d.vals[Ranked(d)[i].0]
  {
    var r := Ranked(d);
    assert r[i] in multiset(Dicts.Items(d));
    var j :| 0 <= j < |Dicts.Items(d)| && Dicts.Items(d)[j] == r[i];
  }

  /** The head of the ranking is a largest score, so it is at least the mean. */
  lemma RankedTopAtLeastMean(d: Table)
    requires Dicts.Valid(d) && |d.keys| > 0
    ensures Ranked(d)[0].1 >= Dicts.SumValues(d) / |d.keys| as real
  {
    var r := Ranked(d);
    var items := Dicts.Items(d);
    Ranking.TopBoundsAll(r, items);
    var vs := Dicts.Values(d);
    assert forall i :: 0 <= i < |vs| ==> vs[i] == items[i].1;
    Seqs.MeanAtMost(vs, r[0].1);
  }
}
