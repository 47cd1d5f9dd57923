/** The greedy truck-factor selection shared by the authorship-based
    estimators. A map from each file to its authors is inverted, the authors
    are ranked, and the top-ranked authors are taken away one at a time until
    the coverage (how much of the project still has an author) is no longer
    above the threshold. Coverage is either the share of files that still have
    an author, or the share of file importance those files hold. */
module Greedy {
  import opened Wrappers
  import Seqs
  import Dicts
  import Ranking

  /** File path to the authors of that file. */
  type AuthorMap = Dicts.Dict<string, seq<string>>

  /** A valid dict whose author lists name no author twice (every list is
      built from the keys of a dict). */
  ghost predicate Wf(m: AuthorMap) {
    && Dicts.Valid(m)
    && forall f :: f in m.vals ==> Seqs.Distinct(m.vals[f])
  }

  /** The map holding `lists[i]` under `files[i]`, in file order. */
  function FromLists(files: seq<string>, lists: seq<seq<string>>): (r: AuthorMap)
    requires |files| == |lists| && Seqs.Distinct(files)
    requires forall i :: 0 <= i < |lists| ==> Seqs.Distinct(lists[i])
    ensures Wf(r) && r.keys == files
    ensures forall i :: 0 <= i < |files| ==> r.vals[files[i]] == lists[i]
  {
    var vals := map i | 0 <= i < |files| :: files[i] := lists[i];
    assert forall f :: f in vals ==> exists i :: 0 <= i < |files| && files[i] == f && vals[f] == lists[i];
    Dicts.Dict(files, vals)
  }

  // ━━━━ Inversion ━━━━

  /** One (author, file) pair per author of `f`, in list order. */
  function FilePairs(f: string, authors: seq<string>): (r: seq<(string, string)>)
    ensures |r| == |authors|
    ensures forall i :: 0 <= i < |authors| ==> r[i] == (authors[i], f)
  {
    seq(|authors|, i requires 0 <= i < |authors| => (authors[i], f))
  }

  /** The (author, file) pairs of `files`, files in order. */
  function AuthorPairs(m: AuthorMap, files: seq<string>): seq<(string, string)>
    requires forall i :: 0 <= i < |files| ==> files[i] in m.vals
  {
    if |files| == 0 then []
    else AuthorPairs(m, files[..|files| - 1]) + FilePairs(files[|files| - 1], m.vals[files[|files| - 1]])
  }

  /** `_invert_file_author_map`: each author to the files it authors. */
  function Invert(m: AuthorMap): (r: AuthorMap)
    requires Dicts.Valid(m)
    ensures Dicts.Valid(r)
  {
    Dicts.Group(AuthorPairs(m, m.keys))
  }

  /** The files among `files` whose author list names `a`, in order. */
  function FilesOf(m: AuthorMap, files: seq<string>, a: string): seq<string>
    requires forall i :: 0 <= i < |files| ==> files[i] in m.vals
  {
    if |files| == 0 then []
    else FilesOf(m, files[..|files| - 1], a) + (if a in m.vals[files[|files| - 1]] then [files[|files| - 1]] else [])
  }

  /** Inverting lists each author exactly under the files naming it, in file
      order, and lists every author that occurs. */
  lemma InvertContents(m: AuthorMap, a: string)
    requires Wf(m)
    ensures a in Invert(m).vals <==> exists f :: f in m.vals && a in m.vals[f]
    ensures a in Invert(m).vals ==> Invert(m).vals[a] == FilesOf(m, m.keys, a)
  {
    Dicts.GroupContents(AuthorPairs(m, m.keys), a);
    PairsFilesOf(m, m.keys, a);
    FilesOfEmpty(m, m.keys, a);
    if exists f :: f in m.vals && a in m.vals[f] {
      var f :| f in m.vals && a in m.vals[f];
      assert f in m.keys;
    }
  }

  lemma {:induction false} ValuesForFilePairs(f: string, authors: seq<string>, a: string)
    requires Seqs.Distinct(authors)
    ensures Dicts.ValuesFor(FilePairs(f, authors), a) == if a in authors then [f] else []
    decreases |authors|
  {
    if |authors| > 0 {
      var init := authors[..|authors| - 1];
      assert FilePairs(f, authors)[..|authors| - 1] == FilePairs(f, init);
      ValuesForFilePairs(f, init, a);
      assert authors == init + [authors[|authors| - 1]];
    }
  }

  lemma {:induction false} PairsFilesOf(m: AuthorMap, files: seq<string>, a: string)
    requires Wf(m) && forall i :: 0 <= i < |files| ==> files[i] in m.vals
    ensures Dicts.ValuesFor(AuthorPairs(m, files), a) == FilesOf(m, files, a)
    decreases |files|
  {
    if |files| > 0 {
      var init := files[..|files| - 1];
      var f := files[|files| - 1];
      PairsFilesOf(m, init, a);
      Dicts.ValuesForAppend(AuthorPairs(m, init), FilePairs(f, m.vals[f]), a);
      ValuesForFilePairs(f, m.vals[f], a);
    }
  }

  lemma {:induction false} FilesOfEmpty(m: AuthorMap, files: seq<string>, a: string)
    requires forall i :: 0 <= i < |files| ==> files[i] in m.vals
    ensures FilesOf(m, files, a) != [] <==> exists i :: 0 <= i < |files| && a in m.vals[files[i]]
    decreases |files|
  {
    if |files| > 0 {
      var init := files[..|files| - 1];
      FilesOfEmpty(m, init, a);
      assert forall i :: 0 <= i < |init| ==> init[i] == files[i];
      if exists i :: 0 <= i < |files| && a in m.vals[files[i]] {
        var i :| 0 <= i < |files| && a in m.vals[files[i]];
        if i < |init| {
          assert a in m.vals[init[i]];
        }
      }
    }
  }

  /** An author's inverted list holds only files of the map that name it. */
  lemma {:induction false} FilesOfMember(m: AuthorMap, files: seq<string>, a: string, x: string)
    requires forall i :: 0 <= i < |files| ==> files[i] in m.vals
    ensures x in FilesOf(m, files, a) ==> x in files && a in m.vals[x]
    decreases |files|
  {
    if |files| > 0 {
      var init := files[..|files| - 1];
      FilesOfMember(m, init, a, x);
    }
  }

  // ━━━━ Ranking by file count ━━━━

  /** (author, number of files) for each inverted entry, in author order. */
  function FileCounts(inv: AuthorMap): (r: seq<(string, real)>)
    requires Dicts.Valid(inv)
    ensures |r| == |inv.keys|
    ensures forall i :: 0 <= i < |r| ==> r[i] == (inv.keys[i], |inv.vals[inv.keys[i]]| as real)
  {
    seq(|inv.keys|, i requires 0 <= i < |inv.keys| => (inv.keys[i], |inv.vals[inv.keys[i]]| as real))
  }

  /** The authors by descending file count, ties in first-seen order. */
  function RankByFileCount(inv: AuthorMap): (r: seq<string>)
    requires Dicts.Valid(inv)
    ensures |r| == |inv.keys|
    ensures Seqs.Distinct(r)
    ensures forall a :: a in r <==> a in inv.vals
  {
    var counts := FileCounts(inv);
    assert Ranking.KeysOf(counts) == inv.keys;
    SortedKeys(counts);
    Ranking.KeysOf(Ranking.SortDesc(counts))
  }

  /** The ranking puts authors with more files first. */
  lemma RankByFileCountOrder(inv: AuthorMap)
    requires Dicts.Valid(inv)
    ensures var r := RankByFileCount(inv);
      forall i, j :: 0 <= i < j < |r| ==> r[i] in inv.vals && r[j] in inv.vals && |inv.vals[r[i]]| >= |inv.vals[r[j]]|
  {
    var counts := FileCounts(inv);
    var sorted := Ranking.SortDesc(counts);
    Ranking.SortDescSorted(counts);
    assert forall i :: 0 <= i < |sorted| ==> sorted[i] in multiset(counts);
    forall i | 0 <= i < |sorted|
      ensures sorted[i].0 in inv.vals && sorted[i].1 == |inv.vals[sorted[i].0]| as real
    {
      assert sorted[i] in counts;
    }
  }

  /** Sorting entries with distinct keys gives the same keys, still distinct. */
  lemma SortedKeys(s: seq<(string, real)>)
    requires Seqs.Distinct(Ranking.KeysOf(s))
    ensures Seqs.Distinct(Ranking.KeysOf(Ranking.SortDesc(s)))
    ensures forall a :: a in Ranking.KeysOf(Ranking.SortDesc(s)) <==> a in Ranking.KeysOf(s)
  {
    var before := Ranking.KeysOf(s);
    var after := Ranking.KeysOf(Ranking.SortDesc(s));
    Ranking.SortDescKeys(s);
    assert forall a :: a in after <==> a in multiset(after);
    forall x
      ensures multiset(after)[x] <= 1
    {
      Seqs.DistinctMultiplicity(before, x);
    }
    Seqs.MultiplicityDistinct(after);
  }

  // ━━━━ Popping an author ━━━━

  /** `_pop_author_from_map`: `a` is removed from every list naming it. */
  function Pop(m: AuthorMap, a: string): (r: AuthorMap)
    ensures r.keys == m.keys
    ensures r.vals.Keys == m.vals.Keys
    ensures Wf(m) ==> Wf(r)
  {
    var r := Dicts.Dict(m.keys, map f | f in m.vals :: Seqs.RemoveFirst(m.vals[f], a));
    assert Wf(m) ==> Wf(r) by {
      if Wf(m) {
        forall f | f in r.vals
          ensures Seqs.Distinct(r.vals[f])
        {
          Seqs.RemoveFirstDistinct(m.vals[f], a);
        }
      }
    }
    r
  }

  /** Popping takes `a` out of every list and leaves every other author where it was. */
  lemma PopEffect(m: AuthorMap, a: string, f: string, b: string)
    requires Wf(m) && f in m.vals
    ensures a !in Pop(m, a).vals[f]
    ensures b != a ==> (b in Pop(m, a).vals[f] <==> b in m.vals[f])
  {
    Seqs.RemoveFirstDistinct(m.vals[f], a);
  }

  /** The map after popping `picks` in order. */
  function PopAll(m: AuthorMap, picks: seq<string>): (r: AuthorMap)
    ensures r.keys == m.keys
    ensures r.vals.Keys == m.vals.Keys
    ensures Wf(m) ==> Wf(r)
  {
    if |picks| == 0 then m else Pop(PopAll(m, picks[..|picks| - 1]), picks[|picks| - 1])
  }

  /** After popping `picks`, a list holds exactly its authors not among them. */
  lemma {:induction false} PopAllEffect(m: AuthorMap, picks: seq<string>, f: string, b: string)
    requires Wf(m) && f in m.vals
    ensures b in PopAll(m, picks).vals[f] <==> b in m.vals[f] && b !in picks
    decreases |picks|
  {
    if |picks| > 0 {
      var init, last := picks[..|picks| - 1], picks[|picks| - 1];
      var prev := PopAll(m, init);
      assert PopAll(m, picks) == Pop(prev, last);
      PopAllEffect(m, init, f, b);
      PopEffect(prev, last, f, b);
      Seqs.InSnoc(picks, b);
    }
  }

  // ━━━━ Coverage ━━━━

  /** The files of `files` whose author list is empty, in order. */
  function Orphans(m: AuthorMap, files: seq<string>): (r: seq<string>)
    requires forall i :: 0 <= i < |files| ==> files[i] in m.vals
    ensures |r| <= |files|
  {
    if |files| == 0 then []
    else Orphans(m, files[..|files| - 1]) + (if m.vals[files[|files| - 1]] == [] then [files[|files| - 1]] else [])
  }

  /** Avelino's `_calc_coverage`: the share of files that have an author.
      `None` is the division by zero on an empty map. */
  function FileCoverage(m: AuthorMap): (r: Option<real>)
    requires Dicts.Valid(m)
    ensures r.None? <==> |m.keys| == 0
    ensures r.Some? ==> 0.0 <= r.value <= 1.0
    ensures r.Some? ==> r.value * (|m.keys| as real) == (|m.keys| - |Orphans(m, m.keys)|) as real
  {
    if |m.keys| == 0 then None
    else
      var total := |m.keys|;
      var covered := total - |Orphans(m, m.keys)|;
      Share(covered, total);
      Some(covered as real / total as real)
  }

  /** `covered / n` is a share of `n` that scales back to `covered`. */
  lemma Share(covered: nat, n: nat)
    requires covered <= n && n > 0
    ensures 0.0 <= covered as real / n as real <= 1.0 && (covered as real / n as real) * n as real == covered as real
  {
  }

  /** The scores of `files`, in order. */
  function ScoresOf(imp: Dicts.Dict<string, real>, files: seq<string>): (r: seq<real>)
    requires forall i :: 0 <= i < |files| ==> files[i] in imp.vals
    ensures |r| == |files|
    ensures forall i :: 0 <= i < |files| ==> r[i] == imp.vals[files[i]]
  {
    seq(|files|, i requires 0 <= i < |files| => imp.vals[files[i]])
  }

  /** The summed importance of `files`; `None` is the `KeyError` of a file without a score. */
  function ImportanceOf(imp: Dicts.Dict<string, real>, files: seq<string>): (r: Option<real>)
    ensures r.Some? <==> forall i :: 0 <= i < |files| ==> files[i] in imp.vals
  {
    if forall i :: 0 <= i < |files| ==> files[i] in imp.vals then Some(Seqs.Sum(ScoresOf(imp, files)))
    else None
  }

  /** Haratian's `_calc_coverage`: the share of the total importance held by
      files that have an author, falling back to the file share when the total
      is zero. */
  function WeightedCoverage(m: AuthorMap, imp: Dicts.Dict<string, real>): (r: Option<real>)
    requires Dicts.Valid(m) && Dicts.Valid(imp)
    ensures Dicts.SumValues(imp) == 0.0 ==> r == FileCoverage(m)
    ensures Dicts.SumValues(imp) != 0.0 ==>
      (r.Some? <==> ImportanceOf(imp, Orphans(m, m.keys)).Some?)
    ensures Dicts.SumValues(imp) != 0.0 && r.Some? ==>
      r.value * Dicts.SumValues(imp) == Dicts.SumValues(imp) - ImportanceOf(imp, Orphans(m, m.keys)).value
  {
    var total := Dicts.SumValues(imp);
    if total == 0.0 then FileCoverage(m)
    else
      var orphaned :- ImportanceOf(imp, Orphans(m, m.keys));
      Some((total - orphaned) / total)
  }

  /** How coverage is measured. */
  datatype Measure = FileCount | Weighted(importance: Dicts.Dict<string, real>)

  ghost predicate MeasureValid(k: Measure) {
    k.Weighted? ==> Dicts.Valid(k.importance)
  }

  function Coverage(k: Measure, m: AuthorMap): Option<real>
    requires Dicts.Valid(m) && MeasureValid(k)
  {
    match k
    case FileCount => FileCoverage(m)
    case Weighted(imp) => WeightedCoverage(m, imp)
  }

  /** Importance scores are never negative (true of every centrality the
      importance comes from). */
  ghost predicate NonNegative(k: Measure) {
    k.Weighted? ==> forall f :: f in k.importance.vals ==> k.importance.vals[f] >= 0.0
  }

  /** Every file of the map has an importance score. */
  ghost predicate Scored(k: Measure, m: AuthorMap) {
    k.Weighted? ==> forall f :: f in m.vals ==> f in k.importance.vals
  }

  /** Popping an author never raises coverage: a file left without an author
      stays so, and its importance stays in the orphaned share. */
  lemma PopCoverage(k: Measure, m: AuthorMap, a: string)
    requires Wf(m) && MeasureValid(k) && NonNegative(k) && Scored(k, m)
    ensures Coverage(k, Pop(m, a)).Some? <==> Coverage(k, m).Some?
    ensures Coverage(k, Pop(m, a)).Some? ==> Coverage(k, Pop(m, a)).value <= Coverage(k, m).value
  {
    if k.Weighted? && Dicts.SumValues(k.importance) != 0.0 {
      PopWeightedCoverage(k.importance, m, Pop(m, a));
    } else {
      PopFileCoverage(m, Pop(m, a));
    }
  }

  lemma PopFileCoverage(m: AuthorMap, p: AuthorMap)
    requires Dicts.Valid(m) && Dicts.Valid(p) && p.keys == m.keys
    requires forall f :: f in m.vals && f in p.vals && m.vals[f] == [] ==> p.vals[f] == []
    ensures FileCoverage(p).Some? <==> FileCoverage(m).Some?
    ensures FileCoverage(p).Some? ==> FileCoverage(p).value <= FileCoverage(m).value
  {
    OrphansGrow(m, p, m.keys);
    if |m.keys| > 0 {
      var n := |m.keys|;
      DivideMonotone((n - |Orphans(p, m.keys)|) as real, (n - |Orphans(m, m.keys)|) as real, n as real);
    }
  }

  lemma {:induction false} PopWeightedCoverage(imp: Dicts.Dict<string, real>, m: AuthorMap, p: AuthorMap)
    requires Dicts.Valid(m) && Dicts.Valid(p) && Dicts.Valid(imp) && p.keys == m.keys
    requires forall f :: f in m.vals && f in p.vals && m.vals[f] == [] ==> p.vals[f] == []
    requires forall f :: f in imp.vals ==> imp.vals[f] >= 0.0
    requires forall f :: f in m.vals ==> f in imp.vals
    requires Dicts.SumValues(imp) != 0.0
    ensures WeightedCoverage(p, imp).Some? && WeightedCoverage(m, imp).Some?
    ensures WeightedCoverage(p, imp).value <= WeightedCoverage(m, imp).value
  {
    OrphanShares(imp, m, p);
    CoverageOrder(imp, m, p);
  }

  /** More orphaned importance means less weighted coverage. */
  lemma CoverageOrder(imp: Dicts.Dict<string, real>, m: AuthorMap, p: AuthorMap)
    requires Dicts.Valid(m) && Dicts.Valid(p) && Dicts.Valid(imp) && Dicts.SumValues(imp) > 0.0
    requires ImportanceOf(imp, Orphans(m, m.keys)).Some? && ImportanceOf(imp, Orphans(p, p.keys)).Some?
    requires ImportanceOf(imp, Orphans(m, m.keys)).value <= ImportanceOf(imp, Orphans(p, p.keys)).value
    ensures WeightedCoverage(p, imp).Some? && WeightedCoverage(m, imp).Some?
    ensures WeightedCoverage(p, imp).value <= WeightedCoverage(m, imp).value
  {
    var total := Dicts.SumValues(imp);
    var before := ImportanceOf(imp, Orphans(m, m.keys)).value;
    var after := ImportanceOf(imp, Orphans(p, p.keys)).value;
    WeightedValue(m, imp);
    WeightedValue(p, imp);
    ShareOrder(WeightedCoverage(p, imp).value, WeightedCoverage(m, imp).value, total, before, after);
  }

  lemma ShareOrder(cp: real, cm: real, total: real, before: real, after: real)
    requires total > 0.0 && before <= after
    requires cp == (total - after) / total && cm == (total - before) / total
    ensures cp <= cm
  {
    DivideMonotone(total - after, total - before, total);
  }

  /** The orphaned importance after popping is defined and at least as large,
      and the total is positive. */
  lemma OrphanShares(imp: Dicts.Dict<string, real>, m: AuthorMap, p: AuthorMap)
    requires Dicts.Valid(m) && Dicts.Valid(p) && Dicts.Valid(imp) && p.keys == m.keys
    requires forall f :: f in m.vals && f in p.vals && m.vals[f] == [] ==> p.vals[f] == []
    requires forall f :: f in imp.vals ==> imp.vals[f] >= 0.0
    requires forall f :: f in m.vals ==> f in imp.vals
    requires Dicts.SumValues(imp) != 0.0
    ensures Dicts.SumValues(imp) > 0.0
    ensures ImportanceOf(imp, Orphans(m, m.keys)).Some? && ImportanceOf(imp, Orphans(p, p.keys)).Some?
    ensures ImportanceOf(imp, Orphans(m, m.keys)).value <= ImportanceOf(imp, Orphans(p, p.keys)).value
  {
    OrphanImportanceGrows(imp, m, p, m.keys);
    Seqs.SumNonNegative(Dicts.Values(imp));
  }

  /** A weighted coverage, when defined, is the unorphaned share of the total. */
  lemma WeightedValue(m: AuthorMap, imp: Dicts.Dict<string, real>)
    requires Dicts.Valid(m) && Dicts.Valid(imp) && Dicts.SumValues(imp) != 0.0
    requires ImportanceOf(imp, Orphans(m, m.keys)).Some?
    ensures WeightedCoverage(m, imp).Some?
    ensures WeightedCoverage(m, imp).value
      == (Dicts.SumValues(imp) - ImportanceOf(imp, Orphans(m, m.keys)).value) / Dicts.SumValues(imp)
  {
  }

  lemma DivideMonotone(x: real, y: real, d: real)
    requires x <= y && d > 0.0
    ensures x / d <= y / d
  {
    assert y / d - x / d == (y - x) / d;
  }

  /** Files that were orphans stay orphans, so the orphan list only grows. */
  lemma {:induction false} OrphansGrow(m: AuthorMap, p: AuthorMap, files: seq<string>)
    requires forall i :: 0 <= i < |files| ==> files[i] in m.vals && files[i] in p.vals
    requires forall f :: f in m.vals && f in p.vals && m.vals[f] == [] ==> p.vals[f] == []
    ensures |Orphans(m, files)| <= |Orphans(p, files)|
    decreases |files|
  {
    if |files| > 0 {
      OrphansGrow(m, p, files[..|files| - 1]);
    }
  }

  /** With non-negative scores, a growing orphan list holds at least as much importance. */
  lemma {:induction false} OrphanImportanceGrows(imp: Dicts.Dict<string, real>, m: AuthorMap, p: AuthorMap, files: seq<string>)
    requires forall i :: 0 <= i < |files| ==> files[i] in m.vals && files[i] in p.vals
    requires forall f :: f in m.vals && f in p.vals && m.vals[f] == [] ==> p.vals[f] == []
    requires forall f :: f in imp.vals ==> imp.vals[f] >= 0.0
    requires forall i :: 0 <= i < |files| ==> files[i] in imp.vals
    ensures ImportanceOf(imp, Orphans(m, files)).Some? && ImportanceOf(imp, Orphans(p, files)).Some?
    ensures ImportanceOf(imp, Orphans(m, files)).value <= ImportanceOf(imp, Orphans(p, files)).value
    decreases |files|
  {
    if |files| > 0 {
      var init := files[..|files| - 1];
      var f := files[|files| - 1];
      var om, op := Orphans(m, init), Orphans(p, init);
      OrphansIn(m, files);
      OrphansIn(p, files);
      OrphanImportanceGrows(imp, m, p, init);
      ScoresSnoc(imp, om, if m.vals[f] == [] then [f] else []);
      ScoresSnoc(imp, op, if p.vals[f] == [] then [f] else []);
    }
  }

  /** Importance of a list with one more (or no more) file at its end. */
  lemma ScoresSnoc(imp: Dicts.Dict<string, real>, s: seq<string>, t: seq<string>)
    requires |t| <= 1
    requires forall i :: 0 <= i < |s + t| ==> (s + t)[i] in imp.vals
    ensures forall i :: 0 <= i < |s| ==> s[i] in imp.vals
    ensures |t| == 1 ==> t[0] in imp.vals
    ensures Seqs.Sum(ScoresOf(imp, s + t)) == Seqs.Sum(ScoresOf(imp, s)) + (if |t| == 1 then imp.vals[t[0]] else 0.0)
  {
    assert forall i :: 0 <= i < |s| ==> s[i] == (s + t)[i];
    if |t| == 1 {
      assert t[0] == (s + t)[|s|];
      assert ScoresOf(imp, s + t)[..|s|] == ScoresOf(imp, s);
    } else {
      assert s + t == s;
    }
  }

  /** Reordering the files does not change their summed importance. */
  lemma {:induction false} ScoresPermutation(imp: Dicts.Dict<string, real>, a: seq<string>, b: seq<string>)
    requires forall i :: 0 <= i < |a| ==> a[i] in imp.vals
    requires forall i :: 0 <= i < |b| ==> b[i] in imp.vals
    requires multiset(a) == multiset(b)
    ensures Seqs.Sum(ScoresOf(imp, a)) == Seqs.Sum(ScoresOf(imp, b))
    decreases |a|
  {
    if |a| == 0 {
      assert |b| == |multiset(b)| == 0;
    } else {
      var n := |a| - 1;
      var x := a[n];
      assert x in multiset(b);
      var j :| 0 <= j < |b| && b[j] == x;
      var rest := b[..j] + b[j + 1..];
      RemoveAtMultiset(b, j);
      RemoveAtMultiset(a, n);
      ScoresRemoveAt(imp, a, n);
      ScoresRemoveAt(imp, b, j);
      ScoresPermutation(imp, a[..n] + a[n + 1..], rest);
      Seqs.SumRemoveAt(ScoresOf(imp, a), n);
      Seqs.SumRemoveAt(ScoresOf(imp, b), j);
    }
  }

  lemma RemoveAtMultiset<T>(b: seq<T>, j: nat)
    requires j < |b|
    ensures multiset(b[..j] + b[j + 1..]) == multiset(b) - multiset{b[j]}
  {
    assert b == b[..j] + [b[j]] + b[j + 1..];
  }

  /** Scoring a list with one file cut out cuts that file's score out. */
  lemma ScoresRemoveAt(imp: Dicts.Dict<string, real>, b: seq<string>, j: nat)
    requires j < |b| && forall i :: 0 <= i < |b| ==> b[i] in imp.vals
    ensures var rest := b[..j] + b[j + 1..];
      && (forall i :: 0 <= i < |rest| ==> rest[i] in imp.vals)
      && ScoresOf(imp, rest) == ScoresOf(imp, b)[..j] + ScoresOf(imp, b)[j + 1..]
      && ScoresOf(imp, b)[j] == imp.vals[b[j]]
  {
    var rest := b[..j] + b[j + 1..];
    assert forall i :: 0 <= i < |rest| ==> rest[i] == if i < j then b[i] else b[i + 1];
    assert forall i :: 0 <= i < |rest| ==> rest[i] in imp.vals;
    var sb := ScoresOf(imp, b);
    var cut := sb[..j] + sb[j + 1..];
    assert forall i :: 0 <= i < |cut| ==> cut[i] == if i < j then sb[i] else sb[i + 1];
  }

  /** A map where every author list is empty orphans every file. */
  lemma {:induction false} AllOrphans(m: AuthorMap, files: seq<string>)
    requires forall i :: 0 <= i < |files| ==> files[i] in m.vals && m.vals[files[i]] == []
    ensures Orphans(m, files) == files
    decreases |files|
  {
    if |files| > 0 {
      AllOrphans(m, files[..|files| - 1]);
    }
  }

  /** The conditions under which the greedy loop runs to completion: a
      non-empty map, a ranking naming every author, and for weighted coverage
      a score for exactly the files of the map. */
  ghost predicate Complete(k: Measure, m: AuthorMap, ranked: seq<string>) {
    && |m.keys| > 0
    && (forall f, b :: f in m.vals && b in m.vals[f] ==> b in ranked)
    && (k.Weighted? ==> forall f :: f in m.vals <==> f in k.importance.vals)
  }

  /** Coverage is always defined on a complete setting, whatever has been popped. */
  lemma CoverageDefined(k: Measure, m: AuthorMap, ranked: seq<string>, picks: seq<string>)
    requires Wf(m) && MeasureValid(k)
    ensures Complete(k, m, ranked) ==> Coverage(k, PopAll(m, picks)).Some?
  {
    if Complete(k, m, ranked) && k.Weighted? {
      WeightedDefined(k.importance, PopAll(m, picks));
    }
  }

  lemma WeightedDefined(imp: Dicts.Dict<string, real>, p: AuthorMap)
    requires Dicts.Valid(p) && forall f :: f in p.vals ==> f in imp.vals
    ensures ImportanceOf(imp, Orphans(p, p.keys)).Some?
  {
    var o := Orphans(p, p.keys);
    OrphansIn(p, p.keys);
    forall i | 0 <= i < |o|
      ensures o[i] in imp.vals
    {
      assert o[i] in o;
    }
  }

  lemma {:induction false} OrphansIn(m: AuthorMap, files: seq<string>)
    requires forall i :: 0 <= i < |files| ==> files[i] in m.vals
    ensures forall x :: x in Orphans(m, files) ==> x in files
    decreases |files|
  {
    if |files| > 0 {
      OrphansIn(m, files[..|files| - 1]);
    }
  }

  /** Once every author has been popped, every list is empty. */
  lemma AllPoppedEmpty(m: AuthorMap, ranked: seq<string>)
    requires Wf(m) && forall f, b :: f in m.vals && b in m.vals[f] ==> b in ranked
    ensures forall f :: f in PopAll(m, ranked).vals ==> PopAll(m, ranked).vals[f] == []
  {
    var p := PopAll(m, ranked);
    forall f | f in p.vals
      ensures p.vals[f] == []
    {
      if p.vals[f] != [] {
        PopAllEffect(m, ranked, f, p.vals[f][0]);
        assert false;
      }
    }
  }

  /** Once every author has been popped, nothing is covered. */
  lemma AllPoppedCoverage(k: Measure, m: AuthorMap, ranked: seq<string>)
    requires Wf(m) && MeasureValid(k)
    ensures Complete(k, m, ranked) ==> Coverage(k, PopAll(m, ranked)) == Some(0.0)
  {
    if Complete(k, m, ranked) {
      AllPoppedEmpty(m, ranked);
      var p := PopAll(m, ranked);
      AllOrphans(p, p.keys);
      if k.Weighted? && Dicts.SumValues(k.importance) != 0.0 {
        AllOrphanedWeighted(k.importance, p);
        assert Coverage(k, p) == WeightedCoverage(p, k.importance);
      } else {
        AllOrphanedFile(p);
        assert Coverage(k, p) == FileCoverage(p);
      }
    }
  }

  /** With every file orphaned, the file share covered is zero. */
  lemma AllOrphanedFile(p: AuthorMap)
    requires Dicts.Valid(p) && |p.keys| > 0 && Orphans(p, p.keys) == p.keys
    ensures FileCoverage(p) == Some(0.0)
  {
    var n := |p.keys| as real;
    assert (|p.keys| - |Orphans(p, p.keys)|) as real == 0.0;
    assert 0.0 / n == 0.0;
  }

  /** Scoring every scored file once, in any order, sums all the scores. */
  lemma ScoresOfAllKeys(imp: Dicts.Dict<string, real>, files: seq<string>)
    requires Dicts.Valid(imp) && Seqs.Distinct(files)
    requires forall f :: f in files <==> f in imp.vals
    ensures ImportanceOf(imp, files) == Some(Dicts.SumValues(imp))
  {
    assert forall i :: 0 <= i < |files| ==> files[i] in imp.vals;
    assert forall i :: 0 <= i < |imp.keys| ==> imp.keys[i] in imp.vals;
    Seqs.SameElementsPermutation(files, imp.keys);
    ScoresPermutation(imp, files, imp.keys);
    assert ScoresOf(imp, imp.keys) == Dicts.Values(imp);
  }

  /** With every file orphaned, the orphaned importance is the total. */
  lemma AllOrphanedWeighted(imp: Dicts.Dict<string, real>, p: AuthorMap)
    requires Dicts.Valid(p) && Dicts.Valid(imp) && Orphans(p, p.keys) == p.keys
    requires forall f :: f in p.vals <==> f in imp.vals
    requires Dicts.SumValues(imp) != 0.0
    ensures WeightedCoverage(p, imp) == Some(0.0)
  {
    var total := Dicts.SumValues(imp);
    ScoresOfAllKeys(imp, p.keys);
    var orphaned := ImportanceOf(imp, Orphans(p, p.keys));
    assert orphaned == Some(total);
    assert (total - total) / total == 0.0;
  }

  // ━━━━ The selection loop ━━━━

  /** Coverage after popping `picks` in order. */
  function CoverageAfter(k: Measure, m: AuthorMap, picks: seq<string>): Option<real>
    requires Wf(m) && MeasureValid(k)
  {
    Coverage(k, PopAll(m, picks))
  }

  /** The loop goes on after popping `picks`: coverage is still above the threshold. */
  predicate Continues(k: Measure, m: AuthorMap, picks: seq<string>, threshold: real)
    requires Wf(m) && MeasureValid(k)
  {
    var c := CoverageAfter(k, m, picks);
    c.Some? && c.value > threshold
  }

  /** The loop crashes after popping the first `n` ranked authors: coverage
      was above the threshold before each of them, and then either coverage is
      undefined or every author is gone with coverage still above it. */
  ghost predicate CrashesAfter(k: Measure, m: AuthorMap, ranked: seq<string>, threshold: real, n: nat)
    requires Wf(m) && MeasureValid(k)
  {
    && n <= |ranked|
    && (forall j :: 0 <= j < n ==> Continues(k, m, ranked[..j], threshold))
    && (CoverageAfter(k, m, ranked[..n]).None? || (n == |ranked| && Continues(k, m, ranked, threshold)))
  }

  /** The greedy loop of `run_estimation`: pops the ranked authors in order
      while coverage stays above the threshold, and returns the truck factor
      with the popped authors. `None` is a crash: coverage dividing by zero, or
      the ranking running out (`IndexError`). */
  method Select(k: Measure, m: AuthorMap, ranked: seq<string>, threshold: real) returns (r: Option<(nat, seq<string>)>)
    requires Wf(m) && MeasureValid(k)
    ensures r.Some? ==> r.value.0 == |r.value.1| && |r.value.1| <= |ranked| && r.value.1 == ranked[..|r.value.1|]
    ensures r.Some? ==> CoverageAfter(k, m, r.value.1).Some? && CoverageAfter(k, m, r.value.1).value <= threshold
    ensures r.Some? ==> forall j :: 0 <= j < |r.value.1| ==> Continues(k, m, ranked[..j], threshold)
    ensures r.Some? && Seqs.Distinct(ranked) ==> Seqs.Distinct(r.value.1)
    ensures r.None? ==> exists n :: CrashesAfter(k, m, ranked, threshold, n)
    ensures threshold >= 0.0 && Complete(k, m, ranked) ==> r.Some?
  {
    var n, exhausted := PopWhileAbove(k, m, ranked, threshold);
    if exhausted {
      ContinuesNow(k, m, ranked, n, threshold, CoverageAfter(k, m, ranked[..n]));
      RunsOut(k, m, ranked, threshold);
      return None;
    }
    if CoverageAfter(k, m, ranked[..n]).None? {
      Undefined(k, m, ranked, threshold, n);
      return None;
    }
    DistinctPrefix(ranked, n);
    r := Some((n, ranked[..n]));
  }

  /** The loop itself: pops ranked authors while coverage stays above the
      threshold. It stops once coverage is undefined or at most the threshold,
      or, `exhausted`, when coverage is still above it with every author popped. */
  method PopWhileAbove(k: Measure, m: AuthorMap, ranked: seq<string>, threshold: real) returns (n: nat, exhausted: bool)
    requires Wf(m) && MeasureValid(k)
    ensures n <= |ranked|
    ensures forall j :: 0 <= j < n ==> Continues(k, m, ranked[..j], threshold)
    ensures exhausted ==> n == |ranked| && Continues(k, m, ranked[..n], threshold)
    ensures !exhausted ==> !Continues(k, m, ranked[..n], threshold)
  {
    var current := m;
    n := 0;
    exhausted := false;
    var coverage := Coverage(k, current);
    assert ranked[..0] == [];
    while coverage.Some? && coverage.value > threshold
      invariant n <= |ranked|
      invariant current == PopAll(m, ranked[..n]) && Wf(current)
      invariant coverage == CoverageAfter(k, m, ranked[..n])
      invariant forall j :: 0 <= j < n ==> Continues(k, m, ranked[..j], threshold)
      decreases |ranked| - n
    {
      if n == |ranked| {
        return n, true;
      }
      ContinuesNow(k, m, ranked, n, threshold, coverage);
      PopAllStep(m, ranked, n);
      current := Pop(current, ranked[n]);
      n := n + 1;
      coverage := Coverage(k, current);
    }
  }

  /** Coverage still above the threshold once every ranked author is popped is
      the crash of running out of authors, which a complete ranking and a
      non-negative threshold rule out. */
  lemma RunsOut(k: Measure, m: AuthorMap, ranked: seq<string>, threshold: real)
    requires Wf(m) && MeasureValid(k)
    requires forall j :: 0 <= j <= |ranked| ==> Continues(k, m, ranked[..j], threshold)
    ensures CrashesAfter(k, m, ranked, threshold, |ranked|)
    ensures !(threshold >= 0.0 && Complete(k, m, ranked))
  {
    assert ranked[..|ranked|] == ranked;
    AllPoppedCoverage(k, m, ranked);
  }

  /** Undefined coverage after `n` pops is a crash, which a complete setting
      rules out. */
  lemma Undefined(k: Measure, m: AuthorMap, ranked: seq<string>, threshold: real, n: nat)
    requires Wf(m) && MeasureValid(k) && n <= |ranked|
    requires forall j :: 0 <= j < n ==> Continues(k, m, ranked[..j], threshold)
    requires CoverageAfter(k, m, ranked[..n]).None?
    ensures CrashesAfter(k, m, ranked, threshold, n)
    ensures !Complete(k, m, ranked)
  {
    CoverageDefined(k, m, ranked, ranked[..n]);
  }

  /** A prefix of a list without repeats has none either. */
  lemma DistinctPrefix(s: seq<string>, n: nat)
    requires n <= |s|
    ensures Seqs.Distinct(s) ==> Seqs.Distinct(s[..n])
  {
    if Seqs.Distinct(s) {
      forall i, j | 0 <= i < j < n
        ensures s[..n][i] != s[..n][j]
      {
        assert s[..n][i] == s[i] && s[..n][j] == s[j];
      }
    }
  }

  /** The file-count ranking of a non-empty map names every author of it, so
      the selection loop never runs out of authors. */
  lemma FileCountRankingComplete(m: AuthorMap)
    requires Wf(m) && |m.keys| > 0
    ensures Complete(FileCount, m, RankByFileCount(Invert(m)))
  {
    forall f, b | f in m.vals && b in m.vals[f]
      ensures b in RankByFileCount(Invert(m))
    {
      InvertContents(m, b);
    }
  }

  /** A coverage above the threshold means the loop goes on. */
  lemma ContinuesNow(k: Measure, m: AuthorMap, ranked: seq<string>, n: nat, threshold: real, coverage: Option<real>)
    requires Wf(m) && MeasureValid(k) && n <= |ranked|
    requires forall j :: 0 <= j < n ==> Continues(k, m, ranked[..j], threshold)
    requires coverage == CoverageAfter(k, m, ranked[..n]) && coverage.Some? && coverage.value > threshold
    ensures forall j :: 0 <= j <= n ==> Continues(k, m, ranked[..j], threshold)
  {
  }

  /** Popping the next ranked author extends the popped prefix by one. */
  lemma PopAllStep(m: AuthorMap, ranked: seq<string>, n: nat)
    requires n < |ranked|
    ensures PopAll(m, ranked[..n + 1]) == Pop(PopAll(m, ranked[..n]), ranked[n])
  {
    assert ranked[..n + 1][..n] == ranked[..n];
  }

  /** The greedy loop of the Avelino and extended-DoK estimators: authors
      ranked by file count, coverage the share of files with an author. It
      crashes on an empty map (coverage divides by zero) and otherwise, for a
      threshold of at least zero, always returns. */
  method FileCountEstimate(m: AuthorMap, threshold: real) returns (r: Option<(nat, seq<string>)>)
    requires Wf(m)
    ensures r.Some? ==> r.value.0 == |r.value.1| && Seqs.Distinct(r.value.1)
    ensures r.Some? ==> var ranked := RankByFileCount(Invert(m));
      |r.value.1| <= |ranked| && r.value.1 == ranked[..|r.value.1|]
    ensures r.Some? ==> CoverageAfter(FileCount, m, r.value.1).Some? && CoverageAfter(FileCount, m, r.value.1).value <= threshold
    ensures r.Some? ==> var ranked := RankByFileCount(Invert(m));
      forall j :: 0 <= j < |r.value.1| ==> Continues(FileCount, m, ranked[..j], threshold)
    ensures r.Some? ==> forall a :: a in r.value.1 ==> exists f :: f in m.vals && a in m.vals[f]
    ensures |m.keys| == 0 ==> r.None?
    ensures |m.keys| > 0 && threshold >= 0.0 ==> r.Some?
  {
    var ranked := RankByFileCount(Invert(m));
    if |m.keys| > 0 {
      FileCountRankingComplete(m);
    }
    r := Select(FileCount, m, ranked, threshold);
    if r.Some? {
      forall a | a in r.value.1
        ensures exists f :: f in m.vals && a in m.vals[f]
      {
        InvertContents(m, a);
      }
    }
  }
}
