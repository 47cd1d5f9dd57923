/** The Avelino estimator: a file's authors are the candidates whose Degree of
    Authorship clears both thresholds, and the truck factor is found by the
    greedy file-count selection over the resulting file-to-authors map. */
module Avelino {
  import opened Wrappers
  import Seqs
  import Dicts
  import opened Records
  import ContributorStore
  import AuthorKeys
  import Authorship
  import Greedy

  /** `AvelinoConfig`. */
  datatype Config = Config(
    weights: Authorship.DoaWeights,
    normThreshold: real,
    absThreshold: real,
    coverageThreshold: real)

  const Defaults := Config(Authorship.DefaultDoaWeights, 0.75, 3.293, 0.5)

  /** The absolute DoA of each candidate author of one file. `None` is a failed
      commit lookup or a commit author the store cannot key. */
  function FileDoas(cfg: Config, ln: real -> real, store: ContributorStore.Store,
                    commits: seq<Commit>, hashes: seq<string>): (r: Option<Dicts.Dict<string, real>>)
    requires Dicts.Valid(store)
    ensures r.Some? <==>
      (Authorship.RelevantCommits(commits, hashes).Some? &&
       AuthorKeys.CommitKeys(store, Authorship.RelevantCommits(commits, hashes).value).Some?)
    ensures r.Some? ==> Dicts.Valid(r.value)
    ensures r.Some? ==> forall a :: a in r.value.vals <==>
      a in AuthorKeys.CommitKeys(store, Authorship.RelevantCommits(commits, hashes).value).value
  {
    var oldestFirst :- Authorship.RelevantCommits(commits, hashes);
    var keys :- AuthorKeys.CommitKeys(store, oldestFirst);
    Some(Authorship.DoaValues(cfg.weights, ln, Authorship.CommitCandidates(keys, oldestFirst)))
  }

  /** The authors of one file: normalised DoA (DoA over the largest DoA)
      strictly above the normalised threshold and DoA at least the absolute
      one, in candidate order. `None` adds the failures of normalising. */
  function FileAuthors(cfg: Config, ln: real -> real, store: ContributorStore.Store,
                       commits: seq<Commit>, hashes: seq<string>): (r: Option<seq<string>>)
    requires Dicts.Valid(store)
    ensures r.Some? ==> Seqs.Distinct(r.value)
    ensures r.Some? <==>
      (FileDoas(cfg, ln, store, commits, hashes).Some? &&
       Authorship.Normalise(FileDoas(cfg, ln, store, commits, hashes).value).Some?)
    ensures r.Some? ==> var abs := FileDoas(cfg, ln, store, commits, hashes).value;
      forall a :: a in r.value <==>
        (a in abs.vals && abs.vals[a] / Authorship.MaxValue(abs) > cfg.normThreshold && abs.vals[a] >= cfg.absThreshold)
  {
    var doas := FileDoas(cfg, ln, store, commits, hashes);
    if doas.None? then None else Authorship.AuthorsOf(doas.value, cfg.normThreshold, cfg.absThreshold)
  }

  /** The authors of every first-party file, one result per file. */
  function AllFileAuthors(cfg: Config, ln: real -> real, store: ContributorStore.Store,
                          commits: seq<Commit>, byFile: Dicts.Dict<string, seq<string>>, files: seq<string>): (r: seq<Option<seq<string>>>)
    requires Dicts.Valid(store)
    requires forall i :: 0 <= i < |files| ==> files[i] in byFile.vals
    ensures |r| == |files|
    ensures forall i :: 0 <= i < |files| ==> r[i] == FileAuthors(cfg, ln, store, commits, byFile.vals[files[i]])
  {
    seq(|files|, i requires 0 <= i < |files| => FileAuthors(cfg, ln, store, commits, byFile.vals[files[i]]))
  }

  /** The file-to-authors map over the files that are not third-party, in
      `commits_by_file` order. `None` when any file fails. */
  function AuthorMap(cfg: Config, ln: real -> real, isThirdParty: string -> bool, store: ContributorStore.Store,
                     commits: seq<Commit>, byFile: Dicts.Dict<string, seq<string>>): (r: Option<Greedy.AuthorMap>)
    requires Dicts.Valid(store) && Dicts.Valid(byFile)
    ensures var files := Authorship.FirstParty(byFile.keys, isThirdParty);
      && (forall i :: 0 <= i < |files| ==> files[i] in byFile.vals)
      && (r.Some? <==> forall i :: 0 <= i < |files| ==> FileAuthors(cfg, ln, store, commits, byFile.vals[files[i]]).Some?)
      && (r.Some? ==> Greedy.Wf(r.value) && r.value.keys == files)
      && (r.Some? ==> forall i :: 0 <= i < |files| ==>
            FileAuthors(cfg, ln, store, commits, byFile.vals[files[i]]) == Some(r.value.vals[files[i]]))
  {
    var files := Authorship.FirstParty(byFile.keys, isThirdParty);
    assert forall i :: 0 <= i < |files| ==> files[i] in files;
    Authorship.Assemble(files, AllFileAuthors(cfg, ln, store, commits, byFile, files))
  }

  /** Every first-party file gets the authors its own commits give it, and no
      other file is in the map. */
  lemma AuthorMapContents(cfg: Config, ln: real -> real, isThirdParty: string -> bool, store: ContributorStore.Store,
                          commits: seq<Commit>, byFile: Dicts.Dict<string, seq<string>>, f: string)
    requires Dicts.Valid(store) && Dicts.Valid(byFile)
    requires AuthorMap(cfg, ln, isThirdParty, store, commits, byFile).Some?
    ensures var m := AuthorMap(cfg, ln, isThirdParty, store, commits, byFile).value;
      (f in m.vals <==> f in byFile.vals && !isThirdParty(f))
      && (f in m.vals ==> Some(m.vals[f]) == FileAuthors(cfg, ln, store, commits, byFile.vals[f]))
  {
    var files := Authorship.FirstParty(byFile.keys, isThirdParty);
    if f in files {
      var i :| 0 <= i < |files| && files[i] == f;
    }
  }

  /** `run_estimation`: the truck factor and the authors popped to reach it.
      `None` is a crash: a failed lookup, a file whose DoAs cannot be
      normalised, no first-party file at all (coverage divides by zero), or
      the ranking running out. */
  method Estimate(cfg: Config, ln: real -> real, isThirdParty: string -> bool, store: ContributorStore.Store,
                  commits: seq<Commit>, byFile: Dicts.Dict<string, seq<string>>) returns (r: Option<(nat, seq<string>)>)
    requires Dicts.Valid(store) && Dicts.Valid(byFile)
    ensures r.Some? ==> AuthorMap(cfg, ln, isThirdParty, store, commits, byFile).Some?
    ensures r.Some? ==> r.value.0 == |r.value.1| && Seqs.Distinct(r.value.1)
    ensures r.Some? ==> var m := AuthorMap(cfg, ln, isThirdParty, store, commits, byFile).value;
      && Greedy.CoverageAfter(Greedy.FileCount, m, r.value.1).Some?
      && Greedy.CoverageAfter(Greedy.FileCount, m, r.value.1).value <= cfg.coverageThreshold
      && (forall a :: a in r.value.1 ==> exists f :: f in m.vals && a in m.vals[f])
    ensures r.Some? ==> var m := AuthorMap(cfg, ln, isThirdParty, store, commits, byFile).value;
      var ranked := Greedy.RankByFileCount(Greedy.Invert(m));
      && |r.value.1| <= |ranked| && r.value.1 == ranked[..|r.value.1|]
      && forall j :: 0 <= j < |r.value.1| ==> Greedy.Continues(Greedy.FileCount, m, ranked[..j], cfg.coverageThreshold)
    ensures var m := AuthorMap(cfg, ln, isThirdParty, store, commits, byFile);
      m.Some? && |m.value.keys| > 0 && cfg.coverageThreshold >= 0.0 ==> r.Some?
  {
    var m :- AuthorMap(cfg, ln, isThirdParty, store, commits, byFile);
    r := Greedy.FileCountEstimate(m, cfg.coverageThreshold);
  }
}
