/** Cosentino et al.'s file-level bus-factor estimator: a degree of knowledge
    (DoK) per author and file under one of four policies, the primary and
    secondary (bus) expert cuts per file, and the same cut repeated over the
    share of files each expert covers. */
module Cosentino {
  import opened Wrappers
  import Seqs
  import Dicts
  import Ranking
  import Scores
  import ContributorStore
  import opened Records
  import AnalysisTarget
  import AuthorKeys

  datatype KnowledgeMetric =
    | LastChange               // M1: the last change takes it all
    | EqualChanges             // M2: every change counts once
    | NonConsecutive           // M3: every run of consecutive changes counts once
    | WeightedNonConsecutive   // M4: the i-th run counts i

  // ━━━━ Degree of knowledge over a file's oldest-first author sequence ━━━━

  /** M1: the author of the newest change gets everything; no changes is the
      `IndexError` of `commits[-1]`. */
  function LastChangeDoks(authors: seq<string>): (r: Option<Scores.Table>)
    ensures r.None? <==> |authors| == 0
    ensures r.Some? ==> Dicts.Valid(r.value) && r.value.keys == [authors[|authors| - 1]]
    ensures r.Some? ==> Dicts.Get(r.value, authors[|authors| - 1]) == Some(1.0)
  {
    if |authors| == 0 then None
    else
      var a := authors[|authors| - 1];
      Some(Dicts.Dict([a], map[a := 1.0]))
  }

  /** Every value as a share of the total, `{k: v / divisor ...}`; the source
      divides only inside the comprehension, so an empty table is returned
      as is. */
  function Normalise(d: Scores.Table): (r: Scores.Table)
    requires Dicts.Valid(d)
    requires |d.keys| > 0 ==> Dicts.SumValues(d) != 0.0
    ensures Dicts.Valid(r) && r.keys == d.keys && r.vals.Keys == d.vals.Keys
    ensures forall k :: k in r.vals ==> r.vals[k] == d.vals[k] / Dicts.SumValues(d)
  {
    Dicts.Dict(d.keys, map k | k in d.vals :: d.vals[k] / Dicts.SumValues(d))
  }

  /** The shares sum to one. */
  lemma NormaliseSumsToOne(d: Scores.Table)
    requires Dicts.Valid(d) && |d.keys| > 0 && Dicts.SumValues(d) != 0.0
    ensures Dicts.SumValues(Normalise(d)) == 1.0
  {
    var total := Dicts.SumValues(d);
    var vs := Dicts.Values(d);
    NormaliseValues(d);
    Seqs.SumScaled(vs, total);
    assert Dicts.SumValues(Normalise(d)) == Seqs.Sum(vs) / total;
    SelfShare(total);
  }

  lemma SelfShare(t: real)
    requires t != 0.0
    ensures t / t == 1.0
  {
  }

  /** Normalising divides every value, in key order, by the total. */
  lemma NormaliseValues(d: Scores.Table)
    requires Dicts.Valid(d) && |d.keys| > 0 && Dicts.SumValues(d) != 0.0
    ensures Dicts.Values(Normalise(d)) == Seqs.Scaled(Dicts.Values(d), Dicts.SumValues(d))
  {
    var total := Dicts.SumValues(d);
    var n := Normalise(d);
    var shares := Dicts.Values(n);
    var scaled := Seqs.Scaled(Dicts.Values(d), total);
    forall i | 0 <= i < |shares|
      ensures shares[i] == scaled[i]
    {
      var k := d.keys[i];
      assert shares[i] == n.vals[k] == d.vals[k] / total;
    }
  }

  /** Credits `ws[i]` to `ks[i]` and turns the tallies into shares of the total:
      the common shape of M2, M3 and M4. */
  function Shares(ks: seq<string>, ws: seq<real>): (r: Scores.Table)
    requires |ks| == |ws| && forall i :: 0 <= i < |ws| ==> ws[i] >= 1.0
    ensures Dicts.Valid(r)
    ensures forall k :: k in r.vals ==> k in ks
    ensures forall i :: 0 <= i < |ks| ==> ks[i] in r.vals
  {
    var raw := Scores.Tally(ks, ws);
    Scores.TallySum(ks, ws);
    Seqs.SumAtLeastLength(ws);
    assert |raw.keys| > 0 ==> |ks| > 0 by {
      if |raw.keys| > 0 {
        assert raw.keys[0] in raw.vals;
      }
    }
    Normalise(raw)
  }

  /** A key's share is its credited weight over the total weight. */
  lemma SharesValue(ks: seq<string>, ws: seq<real>, a: string)
    requires |ks| == |ws| && forall i :: 0 <= i < |ws| ==> ws[i] >= 1.0
    requires a in ks
    ensures Seqs.Sum(ws) >= 1.0 && Shares(ks, ws).vals[a] == Scores.WeightOf(ks, ws, a) / Seqs.Sum(ws)
  {
    Scores.TallyValue(ks, ws, a);
    Scores.TallySum(ks, ws);
    Seqs.SumAtLeastLength(ws);
  }

  /** The shares of a non-empty credit list sum to one. */
  lemma SharesSumToOne(ks: seq<string>, ws: seq<real>)
    requires |ks| == |ws| && forall i :: 0 <= i < |ws| ==> ws[i] >= 1.0
    requires |ks| > 0
    ensures Dicts.SumValues(Shares(ks, ws)) == 1.0
  {
    var raw := Scores.Tally(ks, ws);
    Scores.TallySum(ks, ws);
    Seqs.SumAtLeastLength(ws);
    assert ks[0] in raw.vals;
    assert ks[0] in raw.keys;
    assert |raw.keys| > 0;
    assert Dicts.SumValues(raw) >= 1.0;
    NormaliseSumsToOne(raw);
    assert Shares(ks, ws) == Normalise(raw);
  }

  /** The author sequence with each run of consecutive equal entries kept once;
      `prev` is the author taken to precede the first entry. */
  function Runs(authors: seq<string>, prev: string): (r: seq<string>)
    ensures |r| <= |authors|
    ensures |r| > 0 ==> r[0] != prev
    ensures forall i :: 0 <= i < |r| - 1 ==> r[i] != r[i + 1]
    ensures forall x :: x in r ==> x in authors
    ensures forall x :: x in authors && x != prev ==> x in r
  {
    if |authors| == 0 then []
    else if authors[0] != prev then [authors[0]] + Runs(authors[1..], authors[0])
    else
      assert forall x :: x in authors ==> x == authors[0] || x in authors[1..];
      Runs(authors[1..], prev)
  }

  /** The source starts its scan with an empty "previous author"; store keys
      are never empty, so no author is lost to it. */
  function RunsOf(authors: seq<string>): seq<string> {
    Runs(authors, "")
  }

  /** Every non-empty author heads some run. */
  lemma RunsCover(authors: seq<string>)
    ensures forall i :: 0 <= i < |authors| && authors[i] != "" ==>
      exists j :: 0 <= j < |RunsOf(authors)| && RunsOf(authors)[j] == authors[i]
  {
    forall i | 0 <= i < |authors| && authors[i] != ""
      ensures exists j :: 0 <= j < |RunsOf(authors)| && RunsOf(authors)[j] == authors[i]
    {
      assert authors[i] in authors;
      assert authors[i] in RunsOf(authors);
    }
  }

  /** Position weights 1, 2, ..., n. */
  function Positions(n: nat): (r: seq<real>)
    ensures |r| == n
    ensures forall i :: 0 <= i < n ==> r[i] == (i + 1) as real
  {
    seq(n, i => (i + 1) as real)
  }

  /** The raw M4 total is the triangular number n(n+1)/2. */
  lemma {:induction false} PositionsSum(n: nat)
    ensures Seqs.Sum(Positions(n)) == (n * (n + 1)) as real / 2.0
    decreases n
  {
    if n > 0 {
      assert Positions(n)[..n - 1] == Positions(n - 1);
      PositionsSum(n - 1);
    }
  }

  /** M2: each author's share of the changes. */
  function EqualChangesDoks(authors: seq<string>): (r: Scores.Table)
    ensures Dicts.Valid(r)
    ensures forall k :: k in r.vals ==> k in authors
    ensures forall i :: 0 <= i < |authors| ==> authors[i] in r.vals
  {
    Shares(authors, Seqs.Ones(|authors|))
  }

  /** M2 gives an author the number of their changes over the number of changes. */
  lemma EqualChangesValue(authors: seq<string>, a: string)
    requires a in authors
    ensures EqualChangesDoks(authors).vals[a] == Seqs.Count(authors, a) as real / |authors| as real
  {
    var ws := Seqs.Ones(|authors|);
    SharesValue(authors, ws, a);
    Scores.WeightOfOnes(authors, a);
    OnesSum(|authors|);
  }

  lemma {:induction false} OnesSum(n: nat)
    ensures Seqs.Sum(Seqs.Ones(n)) == n as real
    decreases n
  {
    if n > 0 {
      assert Seqs.Ones(n)[..n - 1] == Seqs.Ones(n - 1);
      OnesSum(n - 1);
    }
  }

  /** M3: each author's share of the runs. */
  function NonConsecutiveDoks(authors: seq<string>): (r: Scores.Table)
    ensures Dicts.Valid(r)
    ensures forall k :: k in r.vals ==> k in authors
    ensures forall i :: 0 <= i < |authors| && authors[i] != "" ==> authors[i] in r.vals
  {
    var runs := RunsOf(authors);
    RunsCover(authors);
    Shares(runs, Seqs.Ones(|runs|))
  }

  /** M3 gives an author the number of their runs over the number of runs. */
  lemma NonConsecutiveValue(authors: seq<string>, a: string)
    requires a in RunsOf(authors)
    ensures var runs := RunsOf(authors);
      NonConsecutiveDoks(authors).vals[a] == Seqs.Count(runs, a) as real / |runs| as real
  {
    var runs := RunsOf(authors);
    SharesValue(runs, Seqs.Ones(|runs|), a);
    Scores.WeightOfOnes(runs, a);
    OnesSum(|runs|);
  }

  /** M4: each author's share of the position-weighted runs. */
  function WeightedNonConsecutiveDoks(authors: seq<string>): (r: Scores.Table)
    ensures Dicts.Valid(r)
    ensures forall k :: k in r.vals ==> k in authors
    ensures forall i :: 0 <= i < |authors| && authors[i] != "" ==> authors[i] in r.vals
  {
    var runs := RunsOf(authors);
    RunsCover(authors);
    Shares(runs, Positions(|runs|))
  }

  /** M4 gives an author the sum of their runs' positions over the sum of all
      positions, n(n+1)/2 by `PositionsSum`. */
  lemma WeightedNonConsecutiveValue(authors: seq<string>, a: string)
    requires a in RunsOf(authors)
    ensures var runs := RunsOf(authors);
      Seqs.Sum(Positions(|runs|)) >= 1.0 &&
      WeightedNonConsecutiveDoks(authors).vals[a] ==
        Scores.WeightOf(runs, Positions(|runs|), a) / Seqs.Sum(Positions(|runs|))
  {
    var runs := RunsOf(authors);
    SharesValue(runs, Positions(|runs|), a);
  }

  /** Under M2, M3 and M4 the degrees of knowledge of a touched file sum to one. */
  lemma DoksSumToOne(metric: KnowledgeMetric, authors: seq<string>)
    requires metric != LastChange && |authors| > 0 && "" !in authors
    ensures Dicts.SumValues(FileDoks(metric, authors).value) == 1.0
  {
    var runs := RunsOf(authors);
    assert authors[0] in runs;
    match metric
    case EqualChanges => SharesSumToOne(authors, Seqs.Ones(|authors|));
    case NonConsecutive => SharesSumToOne(runs, Seqs.Ones(|runs|));
    case WeightedNonConsecutive => SharesSumToOne(runs, Positions(|runs|));
  }

  /** The DoK table of one file under the configured policy. */
  function FileDoks(metric: KnowledgeMetric, authors: seq<string>): (r: Option<Scores.Table>)
    ensures r.Some? ==> Dicts.Valid(r.value)
    ensures r.None? <==> metric == LastChange && |authors| == 0
    ensures r.Some? ==> forall k :: k in r.value.vals ==> k in authors
  {
    match metric
    case LastChange => LastChangeDoks(authors)
    case EqualChanges => Some(EqualChangesDoks(authors))
    case NonConsecutive => Some(NonConsecutiveDoks(authors))
    case WeightedNonConsecutive => Some(WeightedNonConsecutiveDoks(authors))
  }

  /** [A, B, A, C] has four runs: A gets two of them. */
  lemma NonConsecutiveExampleSpread(authors: seq<string>)
    requires authors == ["A", "B", "A", "C"]
    ensures var d := NonConsecutiveDoks(authors);
      Dicts.Get(d, "A") == Some(0.5) && Dicts.Get(d, "B") == Some(0.25) && Dicts.Get(d, "C") == Some(0.25)
  {
    RunsSpread(authors);
    SpreadShare(authors, "A", 2, 0.5);
    SpreadShare(authors, "B", 1, 0.25);
    SpreadShare(authors, "C", 1, 0.25);
  }

  lemma SpreadShare(authors: seq<string>, a: string, count: nat, share: real)
    requires authors == ["A", "B", "A", "C"] && a in authors
    requires Seqs.Count(authors, a) == count && share == count as real / 4.0
    ensures Dicts.Get(NonConsecutiveDoks(authors), a) == Some(share)
  {
    RunsSpread(authors);
    OwnRunsShare(authors, a, count, share);
  }

  lemma OwnRunsShare(authors: seq<string>, a: string, count: nat, share: real)
    requires RunsOf(authors) == authors && |authors| == 4 && a in authors
    requires Seqs.Count(authors, a) == count && share == count as real / 4.0
    ensures Dicts.Get(NonConsecutiveDoks(authors), a) == Some(share)
  {
    NonConsecutiveShare(authors, authors, a, count, 4, share);
  }

  /** The run share of one author, read through `get`. */
  lemma NonConsecutiveShare(authors: seq<string>, runs: seq<string>, a: string, count: nat, total: nat, share: real)
    requires RunsOf(authors) == runs && a in runs
    requires Seqs.Count(runs, a) == count && |runs| == total
    requires total > 0 && share == count as real / total as real
    ensures Dicts.Get(NonConsecutiveDoks(authors), a) == Some(share)
  {
    NonConsecutiveValue(authors, a);
  }

  lemma RunsSpread(authors: seq<string>)
    requires authors == ["A", "B", "A", "C"]
    ensures RunsOf(authors) == authors
    ensures Seqs.Count(authors, "A") == 2 && Seqs.Count(authors, "B") == 1 && Seqs.Count(authors, "C") == 1
  {
    assert Runs(authors[3..], "A") == ["C"];
    assert Runs(authors[2..], "B") == ["A", "C"];
    assert Runs(authors[1..], "A") == ["B", "A", "C"];
    var s1, s2, s3 := authors[..1], authors[..2], authors[..3];
    assert s1[..0] == [] && s2[..1] == s1 && s3[..2] == s2 && authors[..3] == s3;
    assert Seqs.Count(s1, "A") == 1 && Seqs.Count(s1, "B") == 0 && Seqs.Count(s1, "C") == 0;
    assert Seqs.Count(s2, "A") == 1 && Seqs.Count(s2, "B") == 1 && Seqs.Count(s2, "C") == 0;
    assert Seqs.Count(s3, "A") == 2 && Seqs.Count(s3, "B") == 1 && Seqs.Count(s3, "C") == 0;
  }

  /** [A, A, B] has two runs, one each. */
  lemma NonConsecutiveExampleRun(authors: seq<string>)
    requires authors == ["A", "A", "B"]
    ensures var d := NonConsecutiveDoks(authors);
      Dicts.Get(d, "A") == Some(0.5) && Dicts.Get(d, "B") == Some(0.5)
  {
    RunsCollapse(authors);
    NonConsecutiveShare(authors, ["A", "B"], "A", 1, 2, 0.5);
    NonConsecutiveShare(authors, ["A", "B"], "B", 1, 2, 0.5);
  }

  lemma RunsCollapse(authors: seq<string>)
    requires authors == ["A", "A", "B"]
    ensures RunsOf(authors) == ["A", "B"]
    ensures Seqs.Count(["A", "B"], "A") == 1 && Seqs.Count(["A", "B"], "B") == 1
  {
    assert Runs(authors[2..], "A") == ["B"];
    assert Runs(authors[1..], "A") == ["B"];
    var s1: seq<string> := ["A"];
    assert s1[..0] == [] && ["A", "B"][..1] == s1;
    assert Seqs.Count(s1, "A") == 1 && Seqs.Count(s1, "B") == 0;
  }

  /** Under M4 the later run of [A, A, B] weighs twice the earlier one. */
  lemma WeightedExampleRun(authors: seq<string>)
    requires authors == ["A", "A", "B"]
    ensures var d := WeightedNonConsecutiveDoks(authors);
      Dicts.Get(d, "A") == Some(1.0 / 3.0) && Dicts.Get(d, "B") == Some(2.0 / 3.0)
  {
    WeightedPairRun(authors, "A", "B");
  }

  /** The same for any two distinct non-empty names. */
  lemma WeightedPairRun(authors: seq<string>, a: string, b: string)
    requires a != b && a != "" && authors == [a, a, b]
    ensures var d := WeightedNonConsecutiveDoks(authors);
      Dicts.Get(d, a) == Some(1.0 / 3.0) && Dicts.Get(d, b) == Some(2.0 / 3.0)
  {
    PairRunShare(authors, a, b, a, 1.0);
    PairRunShare(authors, a, b, b, 2.0);
  }

  /** In [a, a, b] the runs are [a, b], weighing one and two out of three. */
  lemma PairRunShare(authors: seq<string>, a: string, b: string, x: string, weight: real)
    requires a != b && a != "" && authors == [a, a, b]
    requires (x == a && weight == 1.0) || (x == b && weight == 2.0)
    ensures Dicts.Get(WeightedNonConsecutiveDoks(authors), x) == Some(weight / 3.0)
  {
    assert Runs(authors[2..], a) == [b];
    assert Runs(authors[1..], a) == [b];
    assert RunsOf(authors) == [a, b];
    TwoRunWeights([a, b], a, b);
    WeightedShare(authors, [a, b], x, weight, 3.0, weight / 3.0);
  }

  lemma TwoRunWeights(runs: seq<string>, a: string, b: string)
    requires a != b && runs == [a, b]
    ensures Seqs.Sum(Positions(|runs|)) == 3.0
    ensures Scores.WeightOf(runs, Positions(|runs|), a) == 1.0
    ensures Scores.WeightOf(runs, Positions(|runs|), b) == 2.0
  {
    var ws := Positions(|runs|);
    assert ws == [1.0, 2.0];
    assert ws[..1] == [1.0] && runs[..1] == [a];
    assert Scores.WeightOf(runs[..1], ws[..1], a) == 1.0;
    assert Scores.WeightOf(runs[..1], ws[..1], b) == 0.0;
    PositionsSum(2);
  }

  lemma WeightedShare(authors: seq<string>, runs: seq<string>, a: string, weight: real, total: real, share: real)
    requires RunsOf(authors) == runs && a in runs
    requires Scores.WeightOf(runs, Positions(|runs|), a) == weight
    requires Seqs.Sum(Positions(|runs|)) == total && total > 0.0 && share == weight / total
    ensures Dicts.Get(WeightedNonConsecutiveDoks(authors), a) == Some(share)
  {
    WeightedNonConsecutiveValue(authors, a);
  }

  // ━━━━ Expert cuts ━━━━

  /** `_identify_primary_experts`: the ranked authors while their DoK is at least
      1/N for N authors; no authors is the division by zero. */
  function PrimaryExperts(doks: Scores.Table): (r: Option<seq<(string, real)>>)
    requires Dicts.Valid(doks)
    ensures r.None? <==> |doks.keys| == 0
    ensures r.Some? ==> var t := 1.0 / |doks.keys| as real;
      r.value == Ranking.AtLeast(Scores.Ranked(doks), t) && (forall i :: 0 <= i < |r.value| ==> r.value[i].1 >= t)
  {
    if |doks.keys| == 0 then None
    else
      var t := 1.0 / |doks.keys| as real;
      Ranking.PrefixAtLeastIsFilter(Scores.Ranked(doks), t);
      Ranking.PrefixAtLeastShape(Scores.Ranked(doks), t);
      Some(Ranking.PrefixAtLeast(Scores.Ranked(doks), t))
  }

  /** When the DoKs sum to one the top-ranked author is always a primary expert:
      the largest share is at least the mean 1/N. */
  lemma PrimaryExpertsHaveTop(doks: Scores.Table)
    requires Dicts.Valid(doks) && |doks.keys| > 0 && Dicts.SumValues(doks) == 1.0
    ensures |PrimaryExperts(doks).value| > 0
    ensures PrimaryExperts(doks).value[0] == Scores.Ranked(doks)[0]
  {
    Scores.RankedTopAtLeastMean(doks);
    Ranking.PrefixAtLeastShape(Scores.Ranked(doks), 1.0 / |doks.keys| as real);
  }

  /** The bus threshold: the primary experts' mean DoK times the factor,
      or 1/N times the factor when there is no primary expert. */
  function BusThreshold(primary: seq<(string, real)>, n: nat, factor: real): real
    requires n > 0
  {
    if |primary| == 0 then (1.0 / n as real) * factor
    else (Seqs.Sum(Ranking.ScoresOf(primary)) / |primary| as real) * factor
  }

  /** The file's bus experts: the ranked authors while their DoK reaches the threshold. */
  function FileExperts(doks: Scores.Table, factor: real): (r: Option<seq<(string, real)>>)
    requires Dicts.Valid(doks)
    ensures r.None? <==> |doks.keys| == 0
    ensures r.Some? ==> var t := BusThreshold(PrimaryExperts(doks).value, |doks.keys|, factor);
      && r.value == Ranking.AtLeast(Scores.Ranked(doks), t)
      && |r.value| <= |doks.keys| && r.value == Scores.Ranked(doks)[..|r.value|]
      && (forall i :: 0 <= i < |r.value| ==> r.value[i].1 >= t)
      && (|r.value| < |doks.keys| ==> Scores.Ranked(doks)[|r.value|].1 < t)
  {
    var primary :- PrimaryExperts(doks);
    var t := BusThreshold(primary, |doks.keys|, factor);
    Ranking.PrefixAtLeastIsFilter(Scores.Ranked(doks), t);
    Ranking.PrefixAtLeastShape(Scores.Ranked(doks), t);
    Some(Ranking.PrefixAtLeast(Scores.Ranked(doks), t))
  }

  /** With a factor of at most one, the top-ranked author is always a bus
      expert of the file. */
  lemma FileExpertsHaveTop(doks: Scores.Table, factor: real)
    requires Dicts.Valid(doks) && |doks.keys| > 0 && Dicts.SumValues(doks) == 1.0
    requires factor <= 1.0
    ensures |FileExperts(doks, factor).value| > 0
    ensures FileExperts(doks, factor).value[0] == Scores.Ranked(doks)[0]
  {
    var ranked := Scores.Ranked(doks);
    var n := |doks.keys|;
    var primary := PrimaryExperts(doks).value;
    PrimaryExpertsHaveTop(doks);
    Ranking.PrefixAtLeastShape(ranked, 1.0 / n as real);
    ThresholdAtMostTop(ranked, primary, n, factor);
    Ranking.PrefixAtLeastShape(ranked, BusThreshold(primary, n, factor));
  }

  /** A non-empty run of primary experts taken from the head of a ranking of
      positive shares puts the threshold no higher than the top share. */
  lemma ThresholdAtMostTop(ranked: seq<(string, real)>, primary: seq<(string, real)>, n: nat, factor: real)
    requires Ranking.SortedDesc(ranked) && n > 0 && factor <= 1.0
    requires 0 < |primary| <= |ranked| && primary == ranked[..|primary|]
    requires forall i :: 0 <= i < |primary| ==> primary[i].1 >= 1.0 / n as real
    ensures BusThreshold(primary, n, factor) <= ranked[0].1
  {
    PrimaryMean(ranked, primary, n);
    var mean := Seqs.Sum(Ranking.ScoresOf(primary)) / |primary| as real;
    assert BusThreshold(primary, n, factor) == mean * factor;
    ScaledBelow(mean, factor, ranked[0].1);
  }

  lemma PrimaryMean(ranked: seq<(string, real)>, primary: seq<(string, real)>, n: nat)
    requires Ranking.SortedDesc(ranked) && n > 0
    requires 0 < |primary| <= |ranked| && primary == ranked[..|primary|]
    requires forall i :: 0 <= i < |primary| ==> primary[i].1 >= 1.0 / n as real
    ensures 0.0 <= Seqs.Sum(Ranking.ScoresOf(primary)) / |primary| as real <= ranked[0].1
  {
    forall i | 0 <= i < |primary|
      ensures ranked[i].1 >= 0.0
    {
      assert ranked[i] == primary[i];
    }
    Ranking.PrefixMeanBounds(ranked, |primary|);
  }

  lemma ScaledBelow(mean: real, factor: real, top: real)
    requires 0.0 <= mean <= top && factor <= 1.0
    ensures mean * factor <= top
  {
    Ranking.ScaleAtMost(mean, factor);
  }

  /** A primary expert need not be a bus expert, even with a factor below one:
      shares 0.6, 0.35 and 0.05 make the first two primary (at least 1/3),
      but the threshold 0.8 × 0.475 = 0.38 leaves the second out. */
  lemma PrimaryExpertNotFileExpert(d: Scores.Table)
    requires d == Dicts.Dict(["a", "b", "c"], map["a" := 0.6, "b" := 0.35, "c" := 0.05])
    ensures Dicts.Valid(d) && Dicts.SumValues(d) == 1.0
    ensures PrimaryExperts(d) == Some([("a", 0.6), ("b", 0.35)])
    ensures FileExperts(d, 0.8) == Some([("a", 0.6)])
  {
    CounterexampleRanked(d);
    CounterexampleCuts(Scores.Ranked(d));
  }

  /** The counterexample's shares sum to one and are already in ranked order. */
  lemma CounterexampleRanked(d: Scores.Table)
    requires d == Dicts.Dict(["a", "b", "c"], map["a" := 0.6, "b" := 0.35, "c" := 0.05])
    ensures Dicts.Valid(d) && Dicts.SumValues(d) == 1.0 && |d.keys| == 3
    ensures Scores.Ranked(d) == [("a", 0.6), ("b", 0.35), ("c", 0.05)]
  {
    CounterexampleSum(d);
    CounterexampleItems(d);
    RankedAsListed(d, [("a", 0.6), ("b", 0.35), ("c", 0.05)]);
  }

  lemma CounterexampleSum(d: Scores.Table)
    requires d == Dicts.Dict(["a", "b", "c"], map["a" := 0.6, "b" := 0.35, "c" := 0.05])
    ensures Dicts.Valid(d) && Dicts.SumValues(d) == 1.0 && |d.keys| == 3
  {
    assert Dicts.Values(d) == [0.6, 0.35, 0.05];
    Seqs.SumOfThree(0.6, 0.35, 0.05);
  }

  lemma CounterexampleItems(d: Scores.Table)
    requires d == Dicts.Dict(["a", "b", "c"], map["a" := 0.6, "b" := 0.35, "c" := 0.05])
    requires Dicts.Valid(d)
    ensures Dicts.Items(d) == [("a", 0.6), ("b", 0.35), ("c", 0.05)]
  {
  }

  /** A table whose items are already in descending order ranks as listed. */
  lemma RankedAsListed(d: Scores.Table, items: seq<(string, real)>)
    requires Dicts.Valid(d) && Dicts.Items(d) == items && Ranking.SortedDesc(items)
    ensures Scores.Ranked(d) == items
  {
    Ranking.SortDescIdentity(items);
  }

  /** The two cuts of the counterexample ranking. */
  lemma CounterexampleCuts(items: seq<(string, real)>)
    requires items == [("a", 0.6), ("b", 0.35), ("c", 0.05)]
    ensures Ranking.PrefixAtLeast(items, 1.0 / 3.0) == [("a", 0.6), ("b", 0.35)]
    ensures BusThreshold([("a", 0.6), ("b", 0.35)], 3, 0.8) == 0.38
    ensures Ranking.PrefixAtLeast(items, 0.38) == [("a", 0.6)]
  {
    var primary := [("a", 0.6), ("b", 0.35)];
    var tail := items[1..];
    assert tail == [("b", 0.35), ("c", 0.05)];
    assert tail[1..] == [("c", 0.05)];
    assert Ranking.PrefixAtLeast(tail[1..], 1.0 / 3.0) == [];
    assert Ranking.PrefixAtLeast(tail, 1.0 / 3.0) == [("b", 0.35)];
    assert Ranking.PrefixAtLeast(tail, 0.38) == [];
    assert Ranking.ScoresOf(primary) == [0.6, 0.35];
    assert [0.6, 0.35][..1] == [0.6];
    assert [0.6][..0] == [];
    assert Seqs.Sum([0.6, 0.35]) == 0.95;
  }

  // ━━━━ Project level ━━━━

  /** One entry per (file, expert of that file), files in map order. */
  function ExpertCredits(fileExperts: seq<seq<(string, real)>>): seq<string> {
    Seqs.Flatten(seq(|fileExperts|, i requires 0 <= i < |fileExperts| => Ranking.KeysOf(fileExperts[i])))
  }

  /** Each expert's share of the files, passed through the rounding `round`
      (Python's `round(x, 4)`), in first-credit order. */
  function Coverage(fileExperts: seq<seq<(string, real)>>, round: real -> real): (r: Scores.Table)
    requires |fileExperts| > 0
    ensures Dicts.Valid(r)
    ensures forall k :: k in r.vals ==> k in ExpertCredits(fileExperts)
    ensures forall k :: k in r.vals ==>
      r.vals[k] == round(Seqs.Count(ExpertCredits(fileExperts), k) as real / |fileExperts| as real)
  {
    var credits := ExpertCredits(fileExperts);
    var counts := Scores.Tally(credits, Seqs.Ones(|credits|));
    Scores.TallyCounts(credits);
    Dicts.Dict(counts.keys, map k | k in counts.vals :: round(counts.vals[k] / |fileExperts| as real))
  }

  /** `_file_experts_to_proj_experts`: the experts, by descending coverage, while
      their coverage reaches the mean coverage times the factor. `None` is the
      division by zero when no file has an expert. */
  function ProjectExperts(fileExperts: seq<seq<(string, real)>>, factor: real, round: real -> real): (r: Option<seq<string>>)
    ensures r.None? <==> ExpertCredits(fileExperts) == []
    ensures r.Some? ==> |fileExperts| > 0 && |Coverage(fileExperts, round).keys| > 0
    ensures r.Some? ==> r.value == ExpertsOf(Coverage(fileExperts, round), factor)
  {
    if |fileExperts| == 0 then
      assert ExpertCredits(fileExperts) == [];
      None
    else
      var cov := Coverage(fileExperts, round);
      if |cov.keys| == 0 then
        assert ExpertCredits(fileExperts) == [];
        None
      else
        Some(ExpertsOf(cov, factor))
  }

  /** The ranked authors while their coverage reaches the threshold. */
  function ExpertsOf(cov: Scores.Table, factor: real): seq<string>
    requires Dicts.Valid(cov) && |cov.keys| > 0
  {
    Ranking.KeysOf(Ranking.PrefixAtLeast(Scores.Ranked(cov), ProjectThreshold(cov, factor)))
  }

  function ProjectThreshold(cov: Scores.Table, factor: real): real
    requires Dicts.Valid(cov) && |cov.keys| > 0
  {
    (Dicts.SumValues(cov) / |cov.keys| as real) * factor
  }

  /** The project experts are the head of the coverage ranking up to the first
      expert below the threshold, every one of them at or above it. */
  lemma ProjectExpertsShape(fileExperts: seq<seq<(string, real)>>, factor: real, round: real -> real)
    requires ProjectExperts(fileExperts, factor, round).Some?
    ensures var cov := Coverage(fileExperts, round);
      var ranked := Scores.Ranked(cov);
      var t := ProjectThreshold(cov, factor);
      var r := ProjectExperts(fileExperts, factor, round).value;
      && |r| <= |ranked| && r == Ranking.KeysOf(ranked[..|r|])
      && (forall i :: 0 <= i < |r| ==> ranked[i].1 >= t)
      && (|r| < |ranked| ==> ranked[|r|].1 < t)
      && Ranking.PrefixAtLeast(ranked, t) == Ranking.AtLeast(ranked, t)
  {
    ExpertsShape(Coverage(fileExperts, round), factor);
  }

  lemma ExpertsShape(cov: Scores.Table, factor: real)
    requires Dicts.Valid(cov) && |cov.keys| > 0
    ensures var ranked := Scores.Ranked(cov);
      var t := ProjectThreshold(cov, factor);
      var r := ExpertsOf(cov, factor);
      && |r| <= |ranked| && r == Ranking.KeysOf(ranked[..|r|])
      && (forall i :: 0 <= i < |r| ==> ranked[i].1 >= t)
      && (|r| < |ranked| ==> ranked[|r|].1 < t)
      && Ranking.PrefixAtLeast(ranked, t) == Ranking.AtLeast(ranked, t)
  {
    CutShape(Scores.Ranked(cov), ProjectThreshold(cov, factor), ExpertsOf(cov, factor));
  }

  lemma CutShape(ranked: seq<(string, real)>, t: real, r: seq<string>)
    requires Ranking.SortedDesc(ranked) && r == Ranking.KeysOf(Ranking.PrefixAtLeast(ranked, t))
    ensures |r| <= |ranked| && r == Ranking.KeysOf(ranked[..|r|])
    ensures forall i :: 0 <= i < |r| ==> ranked[i].1 >= t
    ensures |r| < |ranked| ==> ranked[|r|].1 < t
    ensures Ranking.PrefixAtLeast(ranked, t) == Ranking.AtLeast(ranked, t)
  {
    Ranking.PrefixAtLeastShape(ranked, t);
    Ranking.PrefixAtLeastIsFilter(ranked, t);
  }

  /** With a factor of at most one and non-negative coverages the best-covering
      expert is always kept, so the estimate is at least one. */
  lemma ProjectExpertsHaveTop(fileExperts: seq<seq<(string, real)>>, factor: real, round: real -> real)
    requires ProjectExperts(fileExperts, factor, round).Some?
    requires factor <= 1.0
    requires forall k :: k in Coverage(fileExperts, round).vals ==> Coverage(fileExperts, round).vals[k] >= 0.0
    ensures |ProjectExperts(fileExperts, factor, round).value| > 0
  {
    var cov := Coverage(fileExperts, round);
    var ranked := Scores.Ranked(cov);
    var t := ProjectThreshold(cov, factor);
    TopAboveThreshold(cov, factor);
    Ranking.PrefixAtLeastShape(ranked, t);
  }

  /** The top coverage reaches the threshold when coverages are non-negative. */
  lemma TopAboveThreshold(cov: Scores.Table, factor: real)
    requires Dicts.Valid(cov) && |cov.keys| > 0 && factor <= 1.0
    requires forall k :: k in cov.vals ==> cov.vals[k] >= 0.0
    ensures Scores.Ranked(cov)[0].1 >= ProjectThreshold(cov, factor)
  {
    Scores.RankedTopAtLeastMean(cov);
    var vs := Dicts.Values(cov);
    Seqs.MeanAtLeast(vs, 0.0);
    var mean := Dicts.SumValues(cov) / |cov.keys| as real;
    Ranking.ScaleAtMost(mean, factor);
    assert ProjectThreshold(cov, factor) == mean * factor;
  }

  // ━━━━ The estimator ━━━━

  /** The author keys a metric reads from the oldest-first commits: M1 keys
      only the newest commit (`commits[-1]`), the other metrics key every
      commit. */
  function DokKeys(metric: KnowledgeMetric, store: ContributorStore.Store, ordered: seq<Commit>): (r: Option<seq<string>>)
    requires Dicts.Valid(store)
    ensures metric == LastChange && |ordered| > 0 ==>
      && (r.Some? <==> AuthorKeys.CommitKey(store, ordered[|ordered| - 1]).Some?)
      && (r.Some? ==> r.value == [AuthorKeys.CommitKey(store, ordered[|ordered| - 1]).value])
    ensures metric != LastChange ==> r == AuthorKeys.CommitKeys(store, ordered)
  {
    if metric == LastChange && |ordered| > 0 then
      var k :- AuthorKeys.CommitKey(store, ordered[|ordered| - 1]);
      Some([k])
    else AuthorKeys.CommitKeys(store, ordered)
  }

  /** The bus experts of one file from its commit hashes: the commits are looked
      up, put oldest first and scored. Under M1 only the newest commit's
      author is keyed, so an unkeyable older author does not matter; the
      other metrics key every commit. */
  function ExpertsOfFile(metric: KnowledgeMetric, factor: real, store: ContributorStore.Store,
                         commits: seq<Commit>, hashes: seq<string>): (r: Option<seq<(string, real)>>)
    requires Dicts.Valid(store)
    ensures r.Some? ==> var relevant := AnalysisTarget.GetCommits(commits, hashes);
      && relevant.Some?
      && var keys := DokKeys(metric, store, Seqs.Reverse(relevant.value));
      && keys.Some? && FileDoks(metric, keys.value).Some?
      && r == FileExperts(FileDoks(metric, keys.value).value, factor)
  {
    var relevant :- AnalysisTarget.GetCommits(commits, hashes);
    var ordered := Seqs.Reverse(relevant);
    assert |ordered| > 0 && ordered[|ordered| - 1] == relevant[0];
    var keys :- DokKeys(metric, store, ordered);
    var doks := FileDoks(metric, keys);
    if doks.None? then None else FileExperts(doks.value, factor)
  }

  /** Under M1 a file's experts depend on the newest commit's author alone:
      the file succeeds exactly when its commits are found and that author
      has a key, whatever the older authors are. */
  lemma LastChangeNewestOnly(factor: real, store: ContributorStore.Store, commits: seq<Commit>, hashes: seq<string>)
    requires Dicts.Valid(store)
    ensures var relevant := AnalysisTarget.GetCommits(commits, hashes);
      var r := ExpertsOfFile(LastChange, factor, store, commits, hashes);
      && (r.Some? <==> relevant.Some? && AuthorKeys.CommitKey(store, relevant.value[0]).Some?)
      && (r.Some? ==> r == FileExperts(LastChangeDoks([AuthorKeys.CommitKey(store, relevant.value[0]).value]).value, factor))
  {
    var relevant := AnalysisTarget.GetCommits(commits, hashes);
    if relevant.Some? {
      var ordered := Seqs.Reverse(relevant.value);
      assert ordered[|ordered| - 1] == relevant.value[0];
      var k := AuthorKeys.CommitKey(store, relevant.value[0]);
      if k.Some? {
        assert DokKeys(LastChange, store, ordered) == Some([k.value]);
        assert FileDoks(LastChange, [k.value]) == LastChangeDoks([k.value]);
      }
    }
  }

  /** Keying only the newest commit gives M1 the same table as keying every
      commit would, whenever every commit has a key. */
  lemma LastChangeKeysAgree(store: ContributorStore.Store, ordered: seq<Commit>)
    requires Dicts.Valid(store) && |ordered| > 0
    requires AuthorKeys.CommitKeys(store, ordered).Some?
    ensures DokKeys(LastChange, store, ordered).Some?
    ensures FileDoks(LastChange, DokKeys(LastChange, store, ordered).value)
         == FileDoks(LastChange, AuthorKeys.CommitKeys(store, ordered).value)
  {
    var all := AuthorKeys.CommitKeys(store, ordered).value;
    assert all[|all| - 1] == AuthorKeys.CommitKey(store, ordered[|ordered| - 1]).value;
  }

  /** The bus experts of every file in `files`, file by file; the listing
      fails exactly when some file fails. */
  function ExpertsOfFiles(metric: KnowledgeMetric, factor: real, store: ContributorStore.Store,
                          commits: seq<Commit>, byFile: Dicts.Dict<string, seq<string>>, files: seq<string>): (r: Option<seq<seq<(string, real)>>>)
    requires Dicts.Valid(store)
    requires forall i :: 0 <= i < |files| ==> files[i] in byFile.vals
    ensures r.Some? <==> forall i :: 0 <= i < |files| ==> ExpertsOfFile(metric, factor, store, commits, byFile.vals[files[i]]).Some?
    ensures r.Some? ==> |r.value| == |files|
    ensures r.Some? ==> forall i :: 0 <= i < |files| ==>
      Some(r.value[i]) == ExpertsOfFile(metric, factor, store, commits, byFile.vals[files[i]])
  {
    var each := seq(|files|, i requires 0 <= i < |files| => ExpertsOfFile(metric, factor, store, commits, byFile.vals[files[i]]));
    assert forall i :: 0 <= i < |files| ==> each[i] == ExpertsOfFile(metric, factor, store, commits, byFile.vals[files[i]]);
    AllSome(each)
  }

  /** `run_estimation`: the truck factor and the project experts. */
  function Estimate(metric: KnowledgeMetric, factor: real, round: real -> real, store: ContributorStore.Store,
                    commits: seq<Commit>, byFile: Dicts.Dict<string, seq<string>>): (r: Option<(nat, seq<string>)>)
    requires Dicts.Valid(store) && Dicts.Valid(byFile)
    ensures r.Some? ==> r.value.0 == |r.value.1|
    ensures |byFile.keys| == 0 ==> r.None?
    ensures var e := ExpertsOfFiles(metric, factor, store, commits, byFile, byFile.keys);
      && (r.Some? <==> e.Some? && ProjectExperts(e.value, factor, round).Some?)
      && (r.Some? ==> r.value.1 == ProjectExperts(e.value, factor, round).value)
  {
    var experts :- ExpertsOfFiles(metric, factor, store, commits, byFile, byFile.keys);
    var tf :- ProjectExperts(experts, factor, round);
    Some((|tf|, tf))
  }

  /** With a factor of at most one and a rounding that keeps shares
      non-negative, a successful estimate names at least one expert. */
  lemma EstimateHasExpert(metric: KnowledgeMetric, factor: real, round: real -> real, store: ContributorStore.Store,
                          commits: seq<Commit>, byFile: Dicts.Dict<string, seq<string>>)
    requires Dicts.Valid(store) && Dicts.Valid(byFile)
    requires factor <= 1.0 && forall x: real :: x >= 0.0 ==> round(x) >= 0.0
    ensures var r := Estimate(metric, factor, round, store, commits, byFile);
      r.Some? ==> r.value.0 >= 1
  {
    var experts := ExpertsOfFiles(metric, factor, store, commits, byFile, byFile.keys);
    if experts.Some? && ProjectExperts(experts.value, factor, round).Some? {
      CoverageNonNegative(experts.value, round);
      ProjectExpertsHaveTop(experts.value, factor, round);
    }
  }

  /** A rounding that keeps shares non-negative gives non-negative coverages. */
  lemma CoverageNonNegative(fileExperts: seq<seq<(string, real)>>, round: real -> real)
    requires |fileExperts| > 0 && forall x: real :: x >= 0.0 ==> round(x) >= 0.0
    ensures forall k :: k in Coverage(fileExperts, round).vals ==> Coverage(fileExperts, round).vals[k] >= 0.0
  {
    var cov := Coverage(fileExperts, round);
    forall k | k in cov.vals
      ensures cov.vals[k] >= 0.0
    {
      RoundedShare(Seqs.Count(ExpertCredits(fileExperts), k), |fileExperts|, round);
    }
  }

  lemma RoundedShare(count: nat, n: nat, round: real -> real)
    requires n > 0 && forall x: real :: x >= 0.0 ==> round(x) >= 0.0
    ensures round(count as real / n as real) >= 0.0
  {
    assert count as real / n as real >= 0.0;
  }
}
