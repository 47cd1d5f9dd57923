/** The Degree-of-Authorship machinery shared by the Avelino and extended
    Degree-of-Knowledge estimators: candidate authors of one file gathered from
    its commits (oldest first), the DoA formula, normalisation by the largest
    value, the two-threshold acceptance test, and the assembly of the
    file-to-authors map the greedy selection starts from. */
module Authorship {
  import opened Wrappers
  import Seqs
  import Dicts
  import opened Records
  import AnalysisTarget
  import Greedy

  /** `CandidateAuthorInfo`: the first-author flag, the change volume, and the
      issue and PR engagement counts (zero for the Avelino estimator, whose
      candidates are (flag, volume) pairs). */
  datatype Candidate = Candidate(
    first: bool,
    changes: int,
    prsCreated: nat,
    prsCommented: nat,
    issuesCreated: nat,
    issuesCommented: nat)

  /** Lines added plus lines deleted over a commit's change statistics. */
  function Churn(changes: seq<ChangeStat>): (r: int)
    ensures (forall i :: 0 <= i < |changes| ==> changes[i].additions >= 0 && changes[i].deletions >= 0) ==> r >= 0
  {
    if |changes| == 0 then 0
    else
      var last := changes[|changes| - 1];
      Churn(changes[..|changes| - 1]) + last.additions + last.deletions
  }

  // ━━━━ Candidates from commits ━━━━

  /** The commits listed for a file, oldest first (`get_commits(...)[::-1]`);
      `None` is the `TypeError` of reversing the `None` of a failed lookup. */
  function RelevantCommits(commits: seq<Commit>, hashes: seq<string>): (r: Option<seq<Commit>>)
    ensures r.Some? <==> AnalysisTarget.GetCommits(commits, hashes).Some?
    ensures r.Some? ==> r.value == Seqs.Reverse(AnalysisTarget.GetCommits(commits, hashes).value)
  {
    var relevant :- AnalysisTarget.GetCommits(commits, hashes);
    Some(Seqs.Reverse(relevant))
  }

  /** The candidates of a file from its commits oldest first, `keys[i]` being
      the author key of `commits[i]`. A new author's flag is whether its commit
      equals the oldest one (`relevant_commits.index(commit) == 0`); a returning
      author only adds volume. */
  function CommitCandidates(keys: seq<string>, commits: seq<Commit>): (r: Dicts.Dict<string, Candidate>)
    requires |keys| == |commits|
    ensures Dicts.Valid(r)
    ensures r.keys == Seqs.Dedup(keys)
    ensures forall k :: k in r.vals <==> k in keys
    decreases |keys|
  {
    if |keys| == 0 then Dicts.Empty()
    else
      var n := |keys| - 1;
      var d := CommitCandidates(keys[..n], commits[..n]);
      var k := keys[n];
      var volume := Churn(commits[n].changes);
      assert k in d.vals <==> k in Seqs.Dedup(keys[..n]);
      assert keys == keys[..n] + [k];
      if k in d.vals then Dicts.Put(d, k, d.vals[k].(changes := d.vals[k].changes + volume))
      else Dicts.Put(d, k, Candidate(commits[0] == commits[n], volume, 0, 0, 0, 0))
  }

  /** Reference definition: the volume of the commits whose author key is `k`. */
  function VolumeOf(keys: seq<string>, commits: seq<Commit>, k: string): int
    requires |keys| == |commits|
  {
    if |keys| == 0 then 0
    else
      var n := |keys| - 1;
      VolumeOf(keys[..n], commits[..n], k) + (if keys[n] == k then Churn(commits[n].changes) else 0)
  }

  /** One commit more: its author's entry is created or its volume grows,
      and every other entry stays as it was. */
  lemma CandidatesStep(keys: seq<string>, commits: seq<Commit>, k: string)
    requires |keys| == |commits| > 0
    ensures var n := |keys| - 1; var d := CommitCandidates(keys[..n], commits[..n]);
      k != keys[n] && k in d.vals ==> CommitCandidates(keys, commits).vals[k] == d.vals[k]
    ensures var n := |keys| - 1; var d := CommitCandidates(keys[..n], commits[..n]);
      keys[n] in d.vals ==>
        (CommitCandidates(keys, commits).vals[keys[n]] ==
         d.vals[keys[n]].(changes := d.vals[keys[n]].changes + Churn(commits[n].changes)))
    ensures var n := |keys| - 1; var d := CommitCandidates(keys[..n], commits[..n]);
      keys[n] !in d.vals ==>
        (CommitCandidates(keys, commits).vals[keys[n]] ==
         Candidate(commits[0] == commits[n], Churn(commits[n].changes), 0, 0, 0, 0))
  {
  }

  /** A candidate's volume is the volume of its commits. */
  lemma {:induction false} CandidateVolume(keys: seq<string>, commits: seq<Commit>, k: string)
    requires |keys| == |commits| && k in keys
    ensures CommitCandidates(keys, commits).vals[k].changes == VolumeOf(keys, commits, k)
    decreases |keys|
  {
    var n := |keys| - 1;
    var front := keys[..n];
    assert keys == front + [keys[n]];
    var d := CommitCandidates(front, commits[..n]);
    var after := CommitCandidates(keys, commits).vals[k];
    var v := VolumeOf(keys, commits, k);
    assert v == VolumeOf(front, commits[..n], k) + (if keys[n] == k then Churn(commits[n].changes) else 0);
    CandidatesStep(keys, commits, k);
    if k in front {
      CandidateVolume(front, commits[..n], k);
      assert k in d.vals && d.vals[k].changes == VolumeOf(front, commits[..n], k);
      if keys[n] == k {
        assert after.changes == d.vals[k].changes + Churn(commits[n].changes);
      } else {
        assert after == d.vals[k];
      }
    } else {
      VolumeAbsent(front, commits[..n], k);
      assert keys[n] == k && k !in d.vals;
      assert after.changes == Churn(commits[n].changes);
    }
  }

  /** Commits alone count no issue or PR engagement. */
  lemma {:induction false} CandidateNoEngagement(keys: seq<string>, commits: seq<Commit>, k: string)
    requires |keys| == |commits| && k in keys
    ensures var c := CommitCandidates(keys, commits).vals[k];
      c.prsCreated == 0 && c.prsCommented == 0 && c.issuesCreated == 0 && c.issuesCommented == 0
    decreases |keys|
  {
    var n := |keys| - 1;
    CandidatesStep(keys, commits, k);
    if k in keys[..n] {
      CandidateNoEngagement(keys[..n], commits[..n], k);
    }
  }

  lemma {:induction false} VolumeAbsent(keys: seq<string>, commits: seq<Commit>, k: string)
    requires |keys| == |commits| && k !in keys
    ensures VolumeOf(keys, commits, k) == 0
    decreases |keys|
  {
    if |keys| > 0 {
      VolumeAbsent(keys[..|keys| - 1], commits[..|keys| - 1], k);
    }
  }

  /** A candidate's flag is whether its first commit equals the oldest commit. */
  lemma {:induction false} CandidateFirst(keys: seq<string>, commits: seq<Commit>, k: string)
    requires |keys| == |commits| && k in keys
    ensures CommitCandidates(keys, commits).vals[k].first <==> commits[Seqs.IndexOf(keys, k)] == commits[0]
    decreases |keys|
  {
    var n := |keys| - 1;
    CandidatesStep(keys, commits, k);
    if k in keys[..n] {
      CandidateFirst(keys[..n], commits[..n], k);
      var i := Seqs.IndexOf(keys[..n], k);
      assert commits[..n][i] == commits[i] && commits[..n][0] == commits[0];
    }
  }

  /** When equal commits always carry equal keys (the key is a function of the
      commit), exactly the author of the oldest commit holds the first-author
      flag, however many later commits it makes. */
  lemma FirstAuthorIsOldest(keys: seq<string>, commits: seq<Commit>, k: string)
    requires |keys| == |commits| && k in keys
    requires forall i, j :: 0 <= i < |keys| && 0 <= j < |keys| && commits[i] == commits[j] ==> keys[i] == keys[j]
    ensures CommitCandidates(keys, commits).vals[k].first <==> k == keys[0]
  {
    CandidateFirst(keys, commits, k);
    var i := Seqs.IndexOf(keys, k);
    if i != 0 {
      assert keys[..i][0] == keys[0];
    }
  }

  // ━━━━ Degree of authorship ━━━━

  /** The change volume of every candidate among `ks` other than `a`. */
  function ChangesExcept(d: Dicts.Dict<string, Candidate>, ks: seq<string>, a: string): int
    requires forall i :: 0 <= i < |ks| ==> ks[i] in d.vals
  {
    if |ks| == 0 then 0
    else
      var n := |ks| - 1;
      ChangesExcept(d, ks[..n], a) + (if ks[n] == a then 0 else d.vals[ks[n]].changes)
  }

  /** The change volume of every candidate. */
  function TotalChanges(d: Dicts.Dict<string, Candidate>, ks: seq<string>): int
    requires forall i :: 0 <= i < |ks| ==> ks[i] in d.vals
  {
    if |ks| == 0 then 0 else TotalChanges(d, ks[..|ks| - 1]) + d.vals[ks[|ks| - 1]].changes
  }

  /** The changes by others are everyone's changes less one's own. */
  lemma {:induction false} OthersAndOwn(d: Dicts.Dict<string, Candidate>, ks: seq<string>, a: string)
    requires Seqs.Distinct(ks) && forall i :: 0 <= i < |ks| ==> ks[i] in d.vals
    ensures ChangesExcept(d, ks, a) + (if a in ks then d.vals[a].changes else 0) == TotalChanges(d, ks)
    decreases |ks|
  {
    if |ks| > 0 {
      var n := |ks| - 1;
      assert ks == ks[..n] + [ks[n]];
      OthersAndOwn(d, ks[..n], a);
    }
  }

  /** The weights of the DoA formula. */
  datatype DoaWeights = DoaWeights(base: real, firstAuthorship: real, numChanges: real, othersChanges: real)

  /** The default weights of both estimators. */
  const DefaultDoaWeights := DoaWeights(3.293, 1.098, 0.164, 0.321)

  /** DoA = base + w_fa·first + w_nc·own − w_oc·ln(1 + others), `ln` being the
      natural logarithm. */
  function Doa(w: DoaWeights, ln: real -> real, c: Candidate, others: int): real {
    w.base + ((if c.first then w.firstAuthorship else 0.0) + c.changes as real * w.numChanges
      - ln(1.0 + others as real) * w.othersChanges)
  }

  /** `_calc_doa_vals`: each candidate's absolute DoA, the others' volume summed
      over the other candidates. */
  function DoaValues(w: DoaWeights, ln: real -> real, d: Dicts.Dict<string, Candidate>): (r: Dicts.Dict<string, real>)
    requires Dicts.Valid(d)
    ensures Dicts.Valid(r) && r.keys == d.keys
    ensures forall k :: k in r.vals <==> k in d.vals
  {
    Dicts.Dict(d.keys, map k | k in d.vals :: Doa(w, ln, d.vals[k], ChangesExcept(d, d.keys, k)))
  }

  /** Each DoA value is the formula applied to the candidate and to the total
      volume less the candidate's own. */
  lemma DoaValuesOthers(w: DoaWeights, ln: real -> real, d: Dicts.Dict<string, Candidate>, a: string)
    requires Dicts.Valid(d) && a in d.vals
    ensures DoaValues(w, ln, d).vals[a] == Doa(w, ln, d.vals[a], TotalChanges(d, d.keys) - d.vals[a].changes)
  {
    var others := ChangesExcept(d, d.keys, a);
    OthersAndOwn(d, d.keys, a);
    assert others == TotalChanges(d, d.keys) - d.vals[a].changes;
    assert DoaValues(w, ln, d).vals[a] == Doa(w, ln, d.vals[a], others);
  }

  /** With non-negative weights and a non-decreasing logarithm, the formula
      grows with the first-author flag and the own volume and shrinks with the
      others' volume. */
  lemma DoaMonotone(w: DoaWeights, ln: real -> real, ca: Candidate, oa: int, cb: Candidate, ob: int)
    requires w.firstAuthorship >= 0.0 && w.numChanges >= 0.0 && w.othersChanges >= 0.0
    requires forall x, y :: x <= y ==> ln(x) <= ln(y)
    requires cb.first ==> ca.first
    requires ca.changes >= cb.changes && oa <= ob
    ensures Doa(w, ln, ca, oa) >= Doa(w, ln, cb, ob)
  {
    var fa := if ca.first then w.firstAuthorship else 0.0;
    var fb := if cb.first then w.firstAuthorship else 0.0;
    assert fb <= fa;
    var lnA, lnB := ln(1.0 + oa as real), ln(1.0 + ob as real);
    assert lnA <= lnB;
    ScaleMonotone(cb.changes as real, ca.changes as real, w.numChanges);
    ScaleMonotone(lnA, lnB, w.othersChanges);
    assert Doa(w, ln, ca, oa) == w.base + (fa + ca.changes as real * w.numChanges - lnA * w.othersChanges);
    assert Doa(w, ln, cb, ob) == w.base + (fb + cb.changes as real * w.numChanges - lnB * w.othersChanges);
  }

  /** With non-negative weights and a non-decreasing logarithm, a candidate with
      at least the volume and at least the first-authorship of another has at
      least its DoA: more own changes also mean fewer changes by others. */
  lemma DoaDominance(w: DoaWeights, ln: real -> real, d: Dicts.Dict<string, Candidate>, a: string, b: string)
    requires Dicts.Valid(d) && a in d.vals && b in d.vals
    requires w.firstAuthorship >= 0.0 && w.numChanges >= 0.0 && w.othersChanges >= 0.0
    requires forall x, y :: x <= y ==> ln(x) <= ln(y)
    requires d.vals[b].first ==> d.vals[a].first
    requires d.vals[a].changes >= d.vals[b].changes
    ensures DoaValues(w, ln, d).vals[a] >= DoaValues(w, ln, d).vals[b]
  {
    var total := TotalChanges(d, d.keys);
    DoaMonotone(w, ln, d.vals[a], total - d.vals[a].changes, d.vals[b], total - d.vals[b].changes);
    DoaValuesOrder(w, ln, d, a, b);
  }

  /** DoA values are ordered as the formula on each candidate and the others'
      volume. */
  lemma DoaValuesOrder(w: DoaWeights, ln: real -> real, d: Dicts.Dict<string, Candidate>, a: string, b: string)
    requires Dicts.Valid(d) && a in d.vals && b in d.vals
    requires var total := TotalChanges(d, d.keys);
      Doa(w, ln, d.vals[a], total - d.vals[a].changes) >= Doa(w, ln, d.vals[b], total - d.vals[b].changes)
    ensures DoaValues(w, ln, d).vals[a] >= DoaValues(w, ln, d).vals[b]
  {
    DoaValuesOthers(w, ln, d, a);
    DoaValuesOthers(w, ln, d, b);
  }

  lemma ScaleMonotone(x: real, y: real, c: real)
    requires x <= y && c >= 0.0
    ensures x * c <= y * c
  {
    assert y * c - x * c == (y - x) * c;
  }

  // ━━━━ Normalisation and acceptance ━━━━

  /** The largest value of a non-empty dict. */
  function MaxValue(abs: Dicts.Dict<string, real>): (r: real)
    requires Dicts.Valid(abs) && |abs.keys| > 0
    ensures forall k :: k in abs.vals ==> abs.vals[k] <= r
    ensures exists k :: k in abs.vals && abs.vals[k] == r
  {
    var vs := Dicts.Values(abs);
    var r := Seqs.Max(vs);
    assert forall k :: k in abs.vals ==> exists i :: 0 <= i < |abs.keys| && abs.keys[i] == k;
    var i :| 0 <= i < |vs| && vs[i] == r;
    assert abs.keys[i] in abs.vals;
    r
  }

  /** `{a: v / max(values)}`. `None` is the `ValueError` of `max` on no values
      and the `ZeroDivisionError` of a largest value of zero. The divisor is the
      largest value, not the largest magnitude. */
  function Normalise(abs: Dicts.Dict<string, real>): (r: Option<Dicts.Dict<string, real>>)
    requires Dicts.Valid(abs)
    ensures r.None? <==> |abs.keys| == 0 || MaxValue(abs) == 0.0
    ensures r.Some? ==> Dicts.Valid(r.value) && r.value.keys == abs.keys
    ensures r.Some? ==> forall k :: k in r.value.vals <==> k in abs.vals
    ensures r.Some? ==> forall k :: k in abs.vals ==> r.value.vals[k] == abs.vals[k] / MaxValue(abs)
  {
    if |abs.keys| == 0 then None
    else
      var m := MaxValue(abs);
      if m == 0.0 then None
      else Some(Dicts.Dict(abs.keys, map k | k in abs.vals :: abs.vals[k] / m))
  }

  /** Some largest-valued author gets exactly 1, and with a positive largest
      value no author gets more. */
  lemma NormaliseRange(abs: Dicts.Dict<string, real>)
    requires Dicts.Valid(abs) && Normalise(abs).Some?
    ensures exists k :: k in abs.vals && Normalise(abs).value.vals[k] == 1.0
    ensures MaxValue(abs) > 0.0 ==> forall k :: k in abs.vals ==> Normalise(abs).value.vals[k] <= 1.0
  {
    var norm := Normalise(abs).value;
    var m := MaxValue(abs);
    var k :| k in abs.vals && abs.vals[k] == m;
    assert norm.vals[k] == m / m;
    DivideSelf(m);
    if m > 0.0 {
      forall j | j in abs.vals
        ensures norm.vals[j] <= 1.0
      {
        DivideAtMost(abs.vals[j], m);
      }
    }
  }

  lemma DivideSelf(m: real)
    requires m != 0.0
    ensures m / m == 1.0
  {
  }

  lemma DivideAtMost(x: real, m: real)
    requires x <= m && m > 0.0
    ensures x / m <= 1.0
  {
    assert x / m * m == x;
  }

  /** The acceptance test: normalised value strictly above its threshold and
      absolute value at or above its own. */
  predicate Accepted(norm: Dicts.Dict<string, real>, abs: Dicts.Dict<string, real>, normThreshold: real, absThreshold: real, a: string)
    requires a in norm.vals && a in abs.vals
  {
    norm.vals[a] > normThreshold && abs.vals[a] >= absThreshold
  }

  /** `_find_authors`: the accepted authors among `ks`, in order. */
  function AcceptedAmong(norm: Dicts.Dict<string, real>, abs: Dicts.Dict<string, real>, normThreshold: real, absThreshold: real,
                         ks: seq<string>): (r: seq<string>)
    requires forall i :: 0 <= i < |ks| ==> ks[i] in norm.vals && ks[i] in abs.vals
    ensures Seqs.Distinct(ks) ==> Seqs.Distinct(r)
    ensures forall a :: a in r <==> a in ks && Accepted(norm, abs, normThreshold, absThreshold, a)
  {
    if |ks| == 0 then []
    else
      var n := |ks| - 1;
      assert ks == ks[..n] + [ks[n]];
      var init := AcceptedAmong(norm, abs, normThreshold, absThreshold, ks[..n]);
      if Accepted(norm, abs, normThreshold, absThreshold, ks[n]) then init + [ks[n]] else init
  }

  /** `_find_authors` over the normalised dict, in its key order. */
  function FindAuthors(norm: Dicts.Dict<string, real>, abs: Dicts.Dict<string, real>, normThreshold: real, absThreshold: real): (r: seq<string>)
    requires Dicts.Valid(norm) && forall k :: k in norm.vals ==> k in abs.vals
    ensures Seqs.Distinct(r)
    ensures forall a :: a in r <==> a in norm.vals && Accepted(norm, abs, normThreshold, absThreshold, a)
  {
    AcceptedAmong(norm, abs, normThreshold, absThreshold, norm.keys)
  }

  /** Normalise, then keep the accepted candidates: the authors of one file
      given its absolute scores. `None` is the failure of normalising. */
  function AuthorsOf(abs: Dicts.Dict<string, real>, normThreshold: real, absThreshold: real): (r: Option<seq<string>>)
    requires Dicts.Valid(abs)
    ensures r.Some? <==> Normalise(abs).Some?
    ensures r.Some? ==> Seqs.Distinct(r.value)
    ensures r.Some? ==> forall a :: a in r.value <==>
      (a in abs.vals && abs.vals[a] / MaxValue(abs) > normThreshold && abs.vals[a] >= absThreshold)
  {
    var norm :- Normalise(abs);
    Some(FindAuthors(norm, abs, normThreshold, absThreshold))
  }

  /** A file has an author whenever its top author clears the absolute
      threshold and the normalised threshold is below 1; otherwise it may have
      none. */
  lemma TopAuthorAccepted(abs: Dicts.Dict<string, real>, normThreshold: real, absThreshold: real)
    requires Dicts.Valid(abs) && Normalise(abs).Some?
    requires normThreshold < 1.0 && MaxValue(abs) >= absThreshold
    ensures FindAuthors(Normalise(abs).value, abs, normThreshold, absThreshold) != []
  {
    var norm := Normalise(abs).value;
    var m := MaxValue(abs);
    var k :| k in abs.vals && abs.vals[k] == m;
    assert norm.vals[k] == m / m == 1.0;
    assert k in FindAuthors(norm, abs, normThreshold, absThreshold);
  }

  // ━━━━ Assembling the file map ━━━━

  /** The files that are not third-party, in order. */
  function FirstParty(files: seq<string>, isThirdParty: string -> bool): (r: seq<string>)
    ensures Seqs.Distinct(files) ==> Seqs.Distinct(r)
    ensures forall f :: f in r <==> f in files && !isThirdParty(f)
  {
    if |files| == 0 then []
    else
      var n := |files| - 1;
      assert files == files[..n] + [files[n]];
      var init := FirstParty(files[..n], isThirdParty);
      if isThirdParty(files[n]) then init else init + [files[n]]
  }

  /** The file-to-authors map from one result per file, failing when any file
      failed (the exception aborts the whole estimation). */
  function Assemble(files: seq<string>, results: seq<Option<seq<string>>>): (r: Option<Greedy.AuthorMap>)
    requires |files| == |results| && Seqs.Distinct(files)
    requires forall i :: 0 <= i < |results| && results[i].Some? ==> Seqs.Distinct(results[i].value)
    ensures r.Some? <==> forall i :: 0 <= i < |results| ==> results[i].Some?
    ensures r.Some? ==> Greedy.Wf(r.value) && r.value.keys == files
    ensures r.Some? ==> forall i :: 0 <= i < |files| ==> r.value.vals[files[i]] == results[i].value
  {
    var lists :- AllSome(results);
    Some(Greedy.FromLists(files, lists))
  }
}
