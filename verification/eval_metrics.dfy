/** The in-depth evaluation's scores: for each estimator, the normalised
    mean absolute error of its truck factors over the projects, and for each
    project the precision, recall and F1 of its contributor list against the
    developers' own list. */
module EvalMetrics {
  import opened Wrappers
  import Seqs
  import Dicts

  /** One project's contributor comparison: who was rightly included (true
      positives), wrongly included (false positives) and wrongly left out
      (false negatives), and the three scores, 0.0 until computed. */
  datatype Classification = Classification(
    truePositives: seq<string>,
    falsePositives: seq<string>,
    falseNegatives: seq<string>,
    precision: real,
    recall: real,
    f1: real)

  function NewClassification(tp: seq<string>, fp: seq<string>, fn: seq<string>): Classification {
    Classification(tp, fp, fn, 0.0, 0.0, 0.0)
  }

  /** The scores are computed only when both divisions are defined and say
      something: some true positive, or both kinds of error. */
  predicate Scored(tp: nat, fp: nat, fn: nat) {
    tp > 0 || (fp > 0 && fn > 0)
  }

  /** `2pr / (p + r)` when both are positive, else 0. */
  function F1(p: real, r: real): (f: real)
    ensures p > 0.0 && r > 0.0 ==> f * (p + r) == 2.0 * p * r
    ensures !(p > 0.0 && r > 0.0) ==> f == 0.0
  {
    if p > 0.0 && r > 0.0 then (2.0 * p * r) / (p + r) else 0.0
  }

  /** The F1 score lies between precision and recall. */
  lemma F1Between(p: real, r: real)
    requires p > 0.0 && r > 0.0
    ensures (if p <= r then p else r) <= F1(p, r) <= (if p <= r then r else p)
  {
    var f := F1(p, r);
    if p <= r {
      OrderedBetween(p, r, f);
    } else {
      assert f * (r + p) == 2.0 * r * p;
      OrderedBetween(r, p, f);
    }
  }

  /** `2ab / (a + b)` for `0 < a <= b` lies in [a, b]. */
  lemma OrderedBetween(a: real, b: real, f: real)
    requires 0.0 < a <= b && f * (a + b) == 2.0 * a * b
    ensures a <= f <= b
  {
    LowerProduct(a, b);
    UpperProduct(a, b);
    ScaleDown(a, f, a + b);
    ScaleDown(f, b, a + b);
  }

  lemma LowerProduct(a: real, b: real)
    requires 0.0 < a <= b
    ensures a * (a + b) <= 2.0 * a * b
  {
    assert a * (a + b) == a * a + a * b;
    assert a * a <= a * b;
  }

  lemma UpperProduct(a: real, b: real)
    requires 0.0 < a <= b
    ensures 2.0 * a * b <= b * (a + b)
  {
    assert b * (a + b) == a * b + b * b;
    assert a * b <= b * b;
  }

  /** Dividing both sides of an inequality by a positive number. */
  lemma ScaleDown(x: real, y: real, s: real)
    requires s > 0.0 && x * s <= y * s
    ensures x <= y
  {
  }

  /** One comparison after `calc_metrics`: the scores are set from the three
      counts when `Scored`, and left as they were otherwise. */
  function Score(c: Classification): (r: Classification)
    ensures r.truePositives == c.truePositives && r.falsePositives == c.falsePositives
    ensures r.falseNegatives == c.falseNegatives
    ensures var tp, fp, fn := |c.truePositives|, |c.falsePositives|, |c.falseNegatives|;
      Scored(tp, fp, fn) ==>
        && tp + fp > 0 && tp + fn > 0
        && r.precision * (tp + fp) as real == tp as real
        && r.recall * (tp + fn) as real == tp as real
        && r.f1 == F1(r.precision, r.recall)
    ensures var tp, fp, fn := |c.truePositives|, |c.falsePositives|, |c.falseNegatives|;
      !Scored(tp, fp, fn) ==> r == c
  {
    var tp, fp, fn := |c.truePositives|, |c.falsePositives|, |c.falseNegatives|;
    if Scored(tp, fp, fn) then
      var precision := tp as real / (tp + fp) as real;
      var recall := tp as real / (tp + fn) as real;
      c.(precision := precision, recall := recall, f1 := F1(precision, recall))
    else c
  }

  /** Scored precision and recall are fractions. */
  lemma ScoresAreFractions(c: Classification)
    requires Scored(|c.truePositives|, |c.falsePositives|, |c.falseNegatives|)
    ensures var r := Score(c);
      0.0 <= r.precision <= 1.0 && 0.0 <= r.recall <= 1.0 && 0.0 <= r.f1 <= 1.0
  {
    var r := Score(c);
    var tp, fp, fn := |c.truePositives| as real, |c.falsePositives| as real, |c.falseNegatives| as real;
    Fraction(r.precision, tp + fp, tp);
    Fraction(r.recall, tp + fn, tp);
    if r.precision > 0.0 && r.recall > 0.0 {
      F1Between(r.precision, r.recall);
    }
  }

  /** `x = b / a` with `0 <= b <= a` lies in [0, 1]. */
  lemma Fraction(x: real, a: real, b: real)
    requires 0.0 <= b <= a && a > 0.0 && x * a == b
    ensures 0.0 <= x <= 1.0
  {
    ScaleDown(0.0, x, a);
    ScaleDown(x, 1.0, a);
  }

  /** With some true positive, F1 is `2tp / (2tp + fp + fn)`. */
  lemma F1FromCounts(c: Classification)
    requires |c.truePositives| > 0
    ensures var tp, fp, fn := |c.truePositives| as real, |c.falsePositives| as real, |c.falseNegatives| as real;
      Score(c).f1 * (2.0 * tp + fp + fn) == 2.0 * tp
  {
    var r := Score(c);
    var tp, fp, fn := |c.truePositives| as real, |c.falsePositives| as real, |c.falseNegatives| as real;
    var p, q := r.precision, r.recall;
    assert p == tp / (tp + fp);
    assert q == tp / (tp + fn);
    assert p > 0.0 && q > 0.0;
    F1Counts(tp, fp, fn, p, q, r.f1);
  }

  lemma F1Counts(tp: real, fp: real, fn: real, p: real, q: real, f: real)
    requires tp > 0.0 && fp >= 0.0 && fn >= 0.0
    requires p == tp / (tp + fp) && q == tp / (tp + fn)
    requires f * (p + q) == 2.0 * p * q
    ensures f * (2.0 * tp + fp + fn) == 2.0 * tp
  {
    var a, b := tp + fp, tp + fn;
    assert p * a == tp && q * b == tp;
    // Multiplying `f * (p + q) == 2pq` through by `a * b`.
    calc {
      f * (2.0 * tp + fp + fn) * tp;
      f * (tp * b + tp * a);
      { assert tp * b == p * a * b && tp * a == q * b * a; }
      f * (p + q) * a * b;
      2.0 * p * q * a * b;
      2.0 * (p * a) * (q * b);
      2.0 * tp * tp;
    }
  }

  /** No true positive but both kinds of error: everything scores 0. */
  lemma NoTruePositives(c: Classification)
    requires |c.truePositives| == 0 && |c.falsePositives| > 0 && |c.falseNegatives| > 0
    ensures Score(c).precision == 0.0 && Score(c).recall == 0.0 && Score(c).f1 == 0.0
  {
  }

  /** Scoring twice is scoring once. */
  lemma ScoreIdempotent(c: Classification)
    ensures Score(Score(c)) == Score(c)
  {
  }

  /** A new comparison that is not scored keeps its 0.0 defaults. */
  lemma UnscoredStaysZero(tp: seq<string>, fp: seq<string>, fn: seq<string>)
    requires !Scored(|tp|, |fp|, |fn|)
    ensures var r := Score(NewClassification(tp, fp, fn));
      r.precision == 0.0 && r.recall == 0.0 && r.f1 == 0.0
  {
  }

  // ━━━━ Estimators ━━━━

  /** One estimator's results: per project its normalised absolute error and
      its comparison, and the mean error. */
  datatype Performance = Performance(breakdowns: Dicts.Dict<string, (real, Classification)>, nmae: real)

  /** `project_count` and the performance of each estimator. */
  datatype Container = Container(projectCount: int, entries: Dicts.Dict<string, Performance>)

  ghost predicate Wf(c: Container) {
    Dicts.Valid(c.entries) && forall k :: k in c.entries.vals ==> Dicts.Valid(c.entries.vals[k].breakdowns)
  }

  /** The normalised errors of one estimator, in project order. */
  function Errors(p: Performance): (r: seq<real>)
    requires Dicts.Valid(p.breakdowns)
    ensures |r| == |p.breakdowns.keys|
    ensures forall i :: 0 <= i < |r| ==> r[i] == p.breakdowns.vals[p.breakdowns.keys[i]].0
  {
    seq(|p.breakdowns.keys|, i requires 0 <= i < |p.breakdowns.keys| => p.breakdowns.vals[p.breakdowns.keys[i]].0)
  }

  /** One estimator after `calc_metrics`: its mean error and every project's
      scores. `None` when it has no projects (division by zero). */
  function ScorePerformance(p: Performance): (r: Option<Performance>)
    requires Dicts.Valid(p.breakdowns)
    ensures r.Some? <==> |p.breakdowns.keys| > 0
    ensures r.Some? ==> r.value.nmae * |p.breakdowns.keys| as real == Seqs.Sum(Errors(p))
    ensures r.Some? ==> r.value.breakdowns.keys == p.breakdowns.keys && Dicts.Valid(r.value.breakdowns)
    ensures r.Some? ==> forall k :: k in p.breakdowns.vals <==> k in r.value.breakdowns.vals
    ensures r.Some? ==> forall k :: k in p.breakdowns.vals ==>
      r.value.breakdowns.vals[k] == (p.breakdowns.vals[k].0, Score(p.breakdowns.vals[k].1))
  {
    var n := |p.breakdowns.keys|;
    if n == 0 then None
    else
      var nmae := Seqs.Sum(Errors(p)) / n as real;
      var scored := map k | k in p.breakdowns.vals :: (p.breakdowns.vals[k].0, Score(p.breakdowns.vals[k].1));
      Some(Performance(Dicts.Dict(p.breakdowns.keys, scored), nmae))
  }

  /** The mean error lies between the smallest and largest project error. */
  lemma NmaeBounded(p: Performance, lo: real, hi: real)
    requires Dicts.Valid(p.breakdowns) && |p.breakdowns.keys| > 0
    requires forall k :: k in p.breakdowns.vals ==> lo <= p.breakdowns.vals[k].0 <= hi
    ensures lo <= ScorePerformance(p).value.nmae <= hi
  {
    var e := Errors(p);
    assert forall i :: 0 <= i < |e| ==> p.breakdowns.keys[i] in p.breakdowns.vals;
    Seqs.MeanAtMost(e, hi);
    Seqs.MeanAtLeast(e, lo);
  }

  /** `calc_metrics` over every estimator: `None` when any estimator has no
      projects. */
  function CalcMetrics(c: Container): (r: Option<Container>)
    requires Wf(c)
    ensures r.Some? <==> forall k :: k in c.entries.vals ==> |c.entries.vals[k].breakdowns.keys| > 0
    ensures r.Some? ==> Wf(r.value) && r.value.projectCount == c.projectCount
    ensures r.Some? ==> r.value.entries.keys == c.entries.keys
    ensures r.Some? ==> forall k :: k in c.entries.vals ==>
      ScorePerformance(c.entries.vals[k]) == Some(r.value.entries.vals[k])
  {
    if exists k :: k in c.entries.vals && |c.entries.vals[k].breakdowns.keys| == 0 then None
    else
      var scored := ScoreAll(c.entries.vals);
      Some(Container(c.projectCount, Dicts.Dict(c.entries.keys, scored)))
  }

  function ScoreAll(entries: map<string, Performance>): (r: map<string, Performance>)
    requires forall k :: k in entries ==> Dicts.Valid(entries[k].breakdowns) && |entries[k].breakdowns.keys| > 0
    ensures r.Keys == entries.Keys
    ensures forall k :: k in entries ==> ScorePerformance(entries[k]) == Some(r[k])
  {
    map k | k in entries :: ScorePerformance(entries[k]).value
  }

  /** `get`: the estimator's performance, `None` for an unknown key. */
  function Get(c: Container, key: string): (r: Option<Performance>)
    ensures r.Some? <==> key in c.entries.vals
    ensures r.Some? ==> r.value == c.entries.vals[key]
  {
    Dicts.Get(c.entries, key)
  }
}
