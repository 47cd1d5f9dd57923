/** The Haratian estimator: Avelino's file authors, but authors are ranked by
    the total importance of their files in the import graph, and coverage is
    the importance share of the files that still have an author. The
    importance scores (a centrality of the import graph) are an input here;
    an absent graph (unsupported language, failed construction) makes the
    estimator report a truck factor of 0 with no contributors. */
module Haratian {
  import opened Wrappers
  import Seqs
  import Dicts
  import opened Records
  import ContributorStore
  import Ranking
  import Avelino
  import Greedy
  import HaratianPaths
  import GraphMeasures
  import ImportGraph

  type Scores = Dicts.Dict<string, real>

  /** The keys of `keys` that are in `s`, in order. */
  function KeysIn(keys: seq<string>, s: set<string>): (r: seq<string>)
    ensures Seqs.Distinct(keys) ==> Seqs.Distinct(r)
    ensures forall k :: k in r <==> k in keys && k in s
  {
    if |keys| == 0 then []
    else
      var n := |keys| - 1;
      assert keys == keys[..n] + [keys[n]];
      var init := KeysIn(keys[..n], s);
      if keys[n] in s then init + [keys[n]] else init
  }

  /** The importance scores of the files in the author map only (third-party
      files and files nobody authored in the map's sense drop out). */
  function Restrict(imp: Scores, m: Greedy.AuthorMap): (r: Scores)
    requires Dicts.Valid(imp)
    ensures Dicts.Valid(r)
    ensures forall f :: f in r.vals <==> f in imp.vals && f in m.vals
    ensures forall f :: f in r.vals ==> r.vals[f] == imp.vals[f]
  {
    var keys := KeysIn(imp.keys, m.vals.Keys);
    var vals := map f | f in imp.vals && f in m.vals :: imp.vals[f];
    assert forall f :: f in vals <==> f in keys;
    assert forall i :: 0 <= i < |keys| ==> keys[i] in keys;
    Dicts.Dict(keys, vals)
  }

  // ━━━━ Ranking by importance ━━━━

  /** (author, summed importance of the author's files), in author order;
      `None` is the `KeyError` of a file without a score. */
  function ImportanceTotals(inv: Greedy.AuthorMap, imp: Scores): (r: Option<seq<(string, real)>>)
    requires Dicts.Valid(inv)
    ensures r.Some? <==> forall i :: 0 <= i < |inv.keys| ==> Greedy.ImportanceOf(imp, inv.vals[inv.keys[i]]).Some?
    ensures r.Some? ==> Ranking.KeysOf(r.value) == inv.keys
    ensures r.Some? ==> forall i :: 0 <= i < |inv.keys| ==>
      r.value[i].1 == Greedy.ImportanceOf(imp, inv.vals[inv.keys[i]]).value
  {
    var totals := seq(|inv.keys|, i requires 0 <= i < |inv.keys| => Greedy.ImportanceOf(imp, inv.vals[inv.keys[i]]));
    assert forall i :: 0 <= i < |inv.keys| ==> totals[i] == Greedy.ImportanceOf(imp, inv.vals[inv.keys[i]]);
    var vs :- AllSome(totals);
    Some(seq(|inv.keys|, i requires 0 <= i < |inv.keys| => (inv.keys[i], vs[i])))
  }

  /** The authors by descending total importance, ties in first-seen order. */
  function RankByImportance(inv: Greedy.AuthorMap, imp: Scores): (r: Option<seq<string>>)
    requires Dicts.Valid(inv)
    ensures r.Some? <==> ImportanceTotals(inv, imp).Some?
    ensures r.Some? ==> |r.value| == |inv.keys| && Seqs.Distinct(r.value)
    ensures r.Some? ==> forall a :: a in r.value <==> a in inv.vals
  {
    var totals :- ImportanceTotals(inv, imp);
    Greedy.SortedKeys(totals);
    Some(Ranking.KeysOf(Ranking.SortDesc(totals)))
  }

  /** The summed importance of an author's files (0 when undefined). */
  function TotalOf(inv: Greedy.AuthorMap, imp: Scores, a: string): real {
    if a in inv.vals && Greedy.ImportanceOf(imp, inv.vals[a]).Some? then Greedy.ImportanceOf(imp, inv.vals[a]).value else 0.0
  }

  /** Each sorted entry carries its author's total. */
  lemma SortedEntry(inv: Greedy.AuthorMap, imp: Scores, i: nat)
    requires Dicts.Valid(inv) && ImportanceTotals(inv, imp).Some?
    requires i < |inv.keys|
    ensures var sorted := Ranking.SortDesc(ImportanceTotals(inv, imp).value);
      sorted[i].0 in inv.vals && TotalOf(inv, imp, sorted[i].0) == sorted[i].1
  {
    var totals := ImportanceTotals(inv, imp).value;
    var sorted := Ranking.SortDesc(totals);
    assert sorted[i] in multiset(totals);
    var j :| 0 <= j < |totals| && totals[j] == sorted[i];
    assert totals[j].0 == inv.keys[j];
  }

  /** The ranking puts authors with more total importance first. */
  lemma RankByImportanceOrder(inv: Greedy.AuthorMap, imp: Scores)
    requires Dicts.Valid(inv) && RankByImportance(inv, imp).Some?
    ensures var r := RankByImportance(inv, imp).value;
      forall i :: 0 <= i < |r| ==> r[i] in inv.vals
    ensures var r := RankByImportance(inv, imp).value;
      forall i, j :: 0 <= i < j < |r| ==> TotalOf(inv, imp, r[i]) >= TotalOf(inv, imp, r[j])
  {
    var totals := ImportanceTotals(inv, imp).value;
    var sorted := Ranking.SortDesc(totals);
    Ranking.SortDescSorted(totals);
    var r := Ranking.KeysOf(sorted);
    assert r == RankByImportance(inv, imp).value;
    forall i | 0 <= i < |r|
      ensures r[i] in inv.vals && TotalOf(inv, imp, r[i]) == sorted[i].1
    {
      SortedEntry(inv, imp, i);
    }
  }

  /** `sorted` is stable: authors of equal total importance keep the order of
      the inverted map. */
  lemma RankByImportanceStable(inv: Greedy.AuthorMap, imp: Scores, v: real)
    requires Dicts.Valid(inv) && ImportanceTotals(inv, imp).Some?
    ensures var totals := ImportanceTotals(inv, imp).value;
      Ranking.WithScore(Ranking.SortDesc(totals), v) == Ranking.WithScore(totals, v)
  {
    Ranking.SortDescStable(ImportanceTotals(inv, imp).value, v);
  }

  // ━━━━ Estimation ━━━━

  /** `run_estimation`. `importance` is the centrality of each graph node, or
      `None` when the graph could not be built. `None` as a result is a crash:
      a failed lookup or normalisation while building the author map, a file
      without a score, or the ranking running out. */
  method Estimate(cfg: Avelino.Config, ln: real -> real, isThirdParty: string -> bool, store: ContributorStore.Store,
                  commits: seq<Commit>, byFile: Dicts.Dict<string, seq<string>>, importance: Option<Scores>)
    returns (r: Option<(nat, seq<string>)>)
    requires Dicts.Valid(store) && Dicts.Valid(byFile)
    requires importance.Some? ==> Dicts.Valid(importance.value)
    ensures importance.None? ==> r == Some((0, []))
    ensures importance.Some? && r.Some? ==> Avelino.AuthorMap(cfg, ln, isThirdParty, store, commits, byFile).Some?
    ensures importance.Some? && r.Some? ==> r.value.0 == |r.value.1| && Seqs.Distinct(r.value.1)
    ensures importance.Some? && r.Some? ==>
      var m := Avelino.AuthorMap(cfg, ln, isThirdParty, store, commits, byFile).value;
      var k := Greedy.Weighted(Restrict(importance.value, m));
      && Greedy.CoverageAfter(k, m, r.value.1).Some?
      && Greedy.CoverageAfter(k, m, r.value.1).value <= cfg.coverageThreshold
      && (forall a :: a in r.value.1 ==> exists f :: f in m.vals && a in m.vals[f])
    ensures importance.Some? && r.Some? ==>
      PicksRankedPrefix(Avelino.AuthorMap(cfg, ln, isThirdParty, store, commits, byFile).value,
                        importance.value, cfg.coverageThreshold, r.value.1)
    ensures var m := Avelino.AuthorMap(cfg, ln, isThirdParty, store, commits, byFile);
      && importance.Some? && m.Some? && |m.value.keys| > 0 && cfg.coverageThreshold >= 0.0
      && (forall f :: f in m.value.vals ==> f in importance.value.vals)
      ==> r.Some?
  {
    if importance.None? {
      return Some((0, []));
    }
    var m :- Avelino.AuthorMap(cfg, ln, isThirdParty, store, commits, byFile);
    r := EstimateOn(m, importance.value, cfg.coverageThreshold);
  }

  /** `picks` are the first authors of the importance ranking, and the
      coverage stayed above the threshold before each of them was popped. */
  ghost predicate PicksRankedPrefix(m: Greedy.AuthorMap, importance: Scores, threshold: real, picks: seq<string>)
    requires Greedy.Wf(m) && Dicts.Valid(importance)
  {
    var imp := Restrict(importance, m);
    var ranked := RankByImportance(Greedy.Invert(m), imp);
    && ranked.Some? && |picks| <= |ranked.value| && picks == ranked.value[..|picks|]
    && forall j :: 0 <= j < |picks| ==> Greedy.Continues(Greedy.Weighted(imp), m, ranked.value[..j], threshold)
  }

  /** The estimate over a built author map and the graph's importance scores. */
  method EstimateOn(m: Greedy.AuthorMap, importance: Scores, threshold: real) returns (r: Option<(nat, seq<string>)>)
    requires Greedy.Wf(m) && Dicts.Valid(importance)
    ensures r.Some? ==> r.value.0 == |r.value.1| && Seqs.Distinct(r.value.1)
    ensures r.Some? ==>
      var k := Greedy.Weighted(Restrict(importance, m));
      && Greedy.CoverageAfter(k, m, r.value.1).Some?
      && Greedy.CoverageAfter(k, m, r.value.1).value <= threshold
      && (forall a :: a in r.value.1 ==> exists f :: f in m.vals && a in m.vals[f])
    ensures r.Some? ==> PicksRankedPrefix(m, importance, threshold, r.value.1)
    ensures |m.keys| > 0 && threshold >= 0.0 && (forall f :: f in m.vals ==> f in importance.vals) ==> r.Some?
  {
    var imp := Restrict(importance, m);
    var inv := Greedy.Invert(m);
    if (forall f :: f in m.vals ==> f in importance.vals) {
      RankingDefined(m, imp);
    }
    var ranked :- RankByImportance(inv, imp);
    RankedAreAuthors(m, ranked);
    if |m.keys| > 0 && (forall f :: f in m.vals ==> f in importance.vals) {
      RankedComplete(m, imp, ranked);
    }
    r := Greedy.Select(Greedy.Weighted(imp), m, ranked, threshold);
    if r.Some? {
      assert forall a :: a in r.value.1 ==> a in ranked;
    }
  }

  /** A ranking of the inverted map names exactly the authors of the map. */
  lemma RankedAreAuthors(m: Greedy.AuthorMap, ranked: seq<string>)
    requires Greedy.Wf(m) && forall a :: a in ranked <==> a in Greedy.Invert(m).vals
    ensures forall a :: a in ranked <==> exists f :: f in m.vals && a in m.vals[f]
  {
    forall a
      ensures a in ranked <==> exists f :: f in m.vals && a in m.vals[f]
    {
      Greedy.InvertContents(m, a);
    }
  }

  /** With every file of a non-empty map scored, the importance ranking is
      complete for weighted coverage. */
  lemma RankedComplete(m: Greedy.AuthorMap, imp: Scores, ranked: seq<string>)
    requires Greedy.Wf(m) && |m.keys| > 0
    requires forall a :: a in ranked <==> exists f :: f in m.vals && a in m.vals[f]
    requires forall f :: f in imp.vals <==> f in m.vals
    ensures Greedy.Complete(Greedy.Weighted(imp), m, ranked)
  {
  }

  /** Once every file of the map has a score, every author's total is defined. */
  lemma RankingDefined(m: Greedy.AuthorMap, imp: Scores)
    requires Greedy.Wf(m) && forall f :: f in m.vals ==> f in imp.vals
    ensures ImportanceTotals(Greedy.Invert(m), imp).Some?
  {
    var inv := Greedy.Invert(m);
    forall i | 0 <= i < |inv.keys|
      ensures Greedy.ImportanceOf(imp, inv.vals[inv.keys[i]]).Some?
    {
      var a := inv.keys[i];
      Greedy.InvertContents(m, a);
      forall j | 0 <= j < |inv.vals[a]|
        ensures inv.vals[a][j] in imp.vals
      {
        Greedy.FilesOfMember(m, m.keys, a, inv.vals[a][j]);
      }
    }
  }

  /** `run_estimation` from the start: build the import graph (no graph for a
      language without a parser), score its files with the configured metric
      and estimate. `None` is a crash; a failed graph build is one. */
  method Run(cfg: Avelino.Config, metric: GraphMeasures.Metric, lang: Option<HaratianPaths.Language>,
             res: ImportGraph.Resolver, files: seq<ImportGraph.SourceFile>,
             pageRank: GraphMeasures.Graph -> Dicts.Dict<string, real>,
             betweenness: GraphMeasures.Graph -> Dicts.Dict<string, real>,
             ln: real -> real, isThirdParty: string -> bool, store: ContributorStore.Store,
             commits: seq<Commit>, byFile: Dicts.Dict<string, seq<string>>)
    returns (r: Option<(nat, seq<string>)>)
    requires Dicts.Valid(store) && Dicts.Valid(byFile)
    requires forall g :: Dicts.Valid(pageRank(g)) && Dicts.Valid(betweenness(g))
    ensures lang.None? ==> r == Some((0, []))
    ensures lang.Some? && ImportGraph.BuildGraph(lang.value, res, files).None? ==> r.None?
    ensures lang.Some? && r.Some? ==> ImportGraph.BuildGraph(lang.value, res, files).Some?
    ensures lang.Some? && r.Some? ==> Avelino.AuthorMap(cfg, ln, isThirdParty, store, commits, byFile).Some?
    ensures lang.Some? && r.Some? ==>
      var g := ImportGraph.BuildGraph(lang.value, res, files).value;
      var m := Avelino.AuthorMap(cfg, ln, isThirdParty, store, commits, byFile).value;
      var imp := GraphMeasures.Importance(metric, g, pageRank, betweenness);
      var k := Greedy.Weighted(Restrict(imp, m));
      && r.value.0 == |r.value.1| && Seqs.Distinct(r.value.1)
      && Greedy.CoverageAfter(k, m, r.value.1).Some?
      && Greedy.CoverageAfter(k, m, r.value.1).value <= cfg.coverageThreshold
      && PicksRankedPrefix(m, imp, cfg.coverageThreshold, r.value.1)
  {
    if lang.None? {
      return Some((0, []));
    }
    var g :- ImportGraph.BuildGraph(lang.value, res, files);
    var imp := GraphMeasures.Importance(metric, g, pageRank, betweenness);
    r := Estimate(cfg, ln, isThirdParty, store, commits, byFile, Some(imp));
  }
}
