/** An analysis target: the part of a repository's history inside an analysis
    window, plus the per-file groupings of commits, pull requests and issues
    that the estimators read, and the lookups used to resolve window bounds. */
module AnalysisTarget {
  import opened Wrappers
  import Seqs
  import Dicts
  import Strings
  import opened Records
  import opened AnalysisWindow

  /** The grouping key for issues that mention no known file. */
  const NoRelatedFile: string := "NO-RELATED-FILE"

  // ━━━━ Grouping by file ━━━━

  /** One `(file, value)` pair per change in `changes`. */
  function ChangePairs<V>(changes: seq<ChangeStat>, v: V): (r: seq<(string, V)>)
    ensures |r| == |changes|
    ensures forall i :: 0 <= i < |r| ==> r[i] == (changes[i].file, v)
  {
    seq(|changes|, i requires 0 <= i < |changes| => (changes[i].file, v))
  }

  /** `(file, hash)` for every change of every commit, commits in list order. */
  function CommitPairs(commits: seq<Commit>): seq<(string, string)> {
    if |commits| == 0 then []
    else CommitPairs(commits[..|commits| - 1]) + ChangePairs(commits[|commits| - 1].changes, commits[|commits| - 1].commitHash)
  }

  predicate Touches(c: Commit, f: string) {
    exists j :: 0 <= j < |c.changes| && c.changes[j].file == f
  }

  lemma {:induction false} CommitPairsMember(commits: seq<Commit>, f: string, h: string)
    ensures (f, h) in CommitPairs(commits) <==>
      exists i :: 0 <= i < |commits| && commits[i].commitHash == h && Touches(commits[i], f)
    decreases |commits|
  {
    if |commits| > 0 {
      var init := commits[..|commits| - 1];
      var last := commits[|commits| - 1];
      CommitPairsMember(init, f, h);
      var lp := ChangePairs(last.changes, last.commitHash);
      assert (f, h) in lp <==> last.commitHash == h && Touches(last, f) by {
        if (f, h) in lp {
          var j :| 0 <= j < |lp| && lp[j] == (f, h);
          assert last.changes[j].file == f;
        }
        if last.commitHash == h && Touches(last, f) {
          var j :| 0 <= j < |last.changes| && last.changes[j].file == f;
          assert lp[j] == (f, h);
        }
      }
      if exists i :: 0 <= i < |commits| && commits[i].commitHash == h && Touches(commits[i], f) {
        var i :| 0 <= i < |commits| && commits[i].commitHash == h && Touches(commits[i], f);
        if i < |commits| - 1 {
          assert init[i] == commits[i];
        }
      }
    }
  }

  /** `group_commits_by_file`: every commit's hash is appended to the list of
      each file it changes, in commit order. */
  function GroupCommitsByFile(commits: seq<Commit>): (r: Dicts.Dict<string, seq<string>>)
    ensures Dicts.Valid(r)
  {
    Dicts.Group(CommitPairs(commits))
  }

  /** A file is a key exactly when some commit touches it, and a hash is in its
      list exactly when that commit touches the file; each list is the file's
      hashes in commit order. */
  lemma GroupCommitsByFileSpec(commits: seq<Commit>, f: string, h: string)
    ensures var r := GroupCommitsByFile(commits);
      && (f in r.vals <==> exists i :: 0 <= i < |commits| && Touches(commits[i], f))
      && (f in r.vals ==> r.vals[f] == Dicts.ValuesFor(CommitPairs(commits), f))
      && (f in r.vals ==> (h in r.vals[f] <==> exists i :: 0 <= i < |commits| && commits[i].commitHash == h && Touches(commits[i], f)))
  {
    var ps := CommitPairs(commits);
    Dicts.GroupContents(ps, f);
    Dicts.ValuesForMember(ps, f, h);
    CommitPairsMember(commits, f, h);
    if exists i :: 0 <= i < |commits| && Touches(commits[i], f) {
      var i :| 0 <= i < |commits| && Touches(commits[i], f);
      CommitPairsMember(commits, f, commits[i].commitHash);
      Dicts.ValuesForMember(ps, f, commits[i].commitHash);
    }
    if Dicts.ValuesFor(ps, f) != [] {
      var h' := Dicts.ValuesFor(ps, f)[0];
      Dicts.ValuesForMember(ps, f, h');
      CommitPairsMember(commits, f, h');
    }
  }

  /** `(file, number)` for every change of every commit of every PR. */
  function PrPairs(prs: seq<PullRequest>): seq<(string, int)> {
    if |prs| == 0 then []
    else PrPairs(prs[..|prs| - 1]) + PrCommitPairs(prs[|prs| - 1].commits, prs[|prs| - 1].number)
  }

  function PrCommitPairs(commits: seq<Commit>, n: int): seq<(string, int)> {
    if |commits| == 0 then []
    else PrCommitPairs(commits[..|commits| - 1], n) + ChangePairs(commits[|commits| - 1].changes, n)
  }

  /** Some commit of the PR touches `f`. */
  predicate PrTouches(pr: PullRequest, f: string) {
    exists i :: 0 <= i < |pr.commits| && Touches(pr.commits[i], f)
  }

  lemma {:induction false} PrCommitPairsMember(commits: seq<Commit>, n: int, f: string, m: int)
    ensures (f, m) in PrCommitPairs(commits, n) <==> m == n && exists i :: 0 <= i < |commits| && Touches(commits[i], f)
    decreases |commits|
  {
    if |commits| > 0 {
      var init := commits[..|commits| - 1];
      var last := commits[|commits| - 1];
      PrCommitPairsMember(init, n, f, m);
      var lp := ChangePairs(last.changes, n);
      assert (f, m) in lp <==> m == n && Touches(last, f) by {
        if (f, m) in lp {
          var j :| 0 <= j < |lp| && lp[j] == (f, m);
          assert last.changes[j].file == f;
        }
        if m == n && Touches(last, f) {
          var j :| 0 <= j < |last.changes| && last.changes[j].file == f;
          assert lp[j] == (f, m);
        }
      }
      if exists i :: 0 <= i < |commits| && Touches(commits[i], f) {
        var i :| 0 <= i < |commits| && Touches(commits[i], f);
        if i < |commits| - 1 {
          assert init[i] == commits[i];
        }
      }
    }
  }

  lemma {:induction false} PrPairsMember(prs: seq<PullRequest>, f: string, m: int)
    ensures (f, m) in PrPairs(prs) <==> exists i :: 0 <= i < |prs| && prs[i].number == m && PrTouches(prs[i], f)
    decreases |prs|
  {
    if |prs| > 0 {
      var init := prs[..|prs| - 1];
      var last := prs[|prs| - 1];
      PrPairsMember(init, f, m);
      PrCommitPairsMember(last.commits, last.number, f, m);
      if exists i :: 0 <= i < |prs| && prs[i].number == m && PrTouches(prs[i], f) {
        var i :| 0 <= i < |prs| && prs[i].number == m && PrTouches(prs[i], f);
        if i < |prs| - 1 {
          assert init[i] == prs[i];
        }
      }
    }
  }

  /** `group_prs_by_file`: a PR's number is appended to a file's list once per
      change of any of its commits to that file. */
  function GroupPrsByFile(prs: seq<PullRequest>): (r: Dicts.Dict<string, seq<int>>)
    ensures Dicts.Valid(r)
  {
    Dicts.Group(PrPairs(prs))
  }

  /** A PR number is listed under a file exactly when one of its commits touches it. */
  lemma GroupPrsByFileSpec(prs: seq<PullRequest>, f: string, m: int)
    ensures var r := GroupPrsByFile(prs);
      && (f in r.vals ==> (m in r.vals[f] <==> exists i :: 0 <= i < |prs| && prs[i].number == m && PrTouches(prs[i], f)))
      && ((exists i :: 0 <= i < |prs| && prs[i].number == m && PrTouches(prs[i], f)) ==> f in r.vals)
  {
    var ps := PrPairs(prs);
    Dicts.GroupContents(ps, f);
    Dicts.ValuesForMember(ps, f, m);
    PrPairsMember(prs, f, m);
  }

  /** `file_path_in_known_files`: the first known file (in the order the known
      files are listed) that contains `path` as a substring. */
  function FilePathInKnownFiles(known: seq<string>, path: string): (r: Option<string>)
    ensures r.Some? ==> r.value in known && Strings.Contains(r.value, path)
    ensures r.Some? ==> exists i :: 0 <= i < |known| && known[i] == r.value &&
                          forall j :: 0 <= j < i ==> !Strings.Contains(known[j], path)
    ensures r.None? <==> forall i :: 0 <= i < |known| ==> !Strings.Contains(known[i], path)
  {
    if |known| == 0 then None
    else if Strings.Contains(known[0], path) then Some(known[0])
    else
      var r := FilePathInKnownFiles(known[1..], path);
      assert r.Some? ==> exists i :: 0 <= i < |known| && known[i] == r.value &&
                           forall j :: 0 <= j < i ==> !Strings.Contains(known[j], path) by {
        if r.Some? {
          var i :| 0 <= i < |known[1..]| && known[1..][i] == r.value &&
                   forall j :: 0 <= j < i ==> !Strings.Contains(known[1..][j], path);
          assert known[i + 1] == r.value;
        }
      }
      r
  }

  /** The keys of an optional grouping; a missing grouping has none. */
  function KeysOf<V>(g: Option<Dicts.Dict<string, V>>): set<string> {
    if g.Some? then g.value.vals.Keys else {}
  }

  /** `known_files`: every file that is a key of any of the three groupings
      (the source lists them in set order, which the model leaves open). */
  function KnownFiles(commitsByFile: Option<Dicts.Dict<string, seq<string>>>,
                      prsByFile: Option<Dicts.Dict<string, seq<int>>>,
                      issuesByFile: Option<Dicts.Dict<string, seq<int>>>): (r: set<string>)
    ensures forall f :: f in r <==>
      (commitsByFile.Some? && f in commitsByFile.value.vals) ||
      (prsByFile.Some? && f in prsByFile.value.vals) ||
      (issuesByFile.Some? && f in issuesByFile.value.vals)
  {
    KeysOf(prsByFile) + KeysOf(commitsByFile) + KeysOf(issuesByFile)
  }

  /** The known files each path extracted from a text resolves to, in order. */
  function Resolve(known: seq<string>, paths: seq<string>): (r: seq<string>)
    ensures forall f :: f in r ==> f in known
  {
    if |paths| == 0 then []
    else
      var m := FilePathInKnownFiles(known, paths[|paths| - 1]);
      Resolve(known, paths[..|paths| - 1]) + (if m.Some? then [m.value] else [])
  }

  /** The known files an issue mentions in its title, its body and its comments.
      `extract` stands for the file-path regular expression's `findall`; each
      comment contributes its paths once each. */
  function RelatedFiles(issue: Issue, extract: string -> seq<string>, known: seq<string>): (r: seq<string>)
    ensures forall f :: f in r ==> f in known
  {
    var commentPaths := Seqs.Flatten(seq(|issue.comments|, i requires 0 <= i < |issue.comments| => Seqs.Dedup(extract(issue.comments[i].body))));
    Resolve(known, extract(issue.title) + extract(issue.body) + commentPaths)
  }

  /** The grouping keys one issue is filed under. */
  function IssueFiles(issue: Issue, extract: string -> seq<string>, known: seq<string>): (r: seq<string>)
    ensures |r| > 0
    ensures forall f :: f in r <==> f in RelatedFiles(issue, extract, known) || (f == NoRelatedFile && RelatedFiles(issue, extract, known) == [])
  {
    var related := RelatedFiles(issue, extract, known);
    if |related| == 0 then [NoRelatedFile] else related
  }

  /** One issue's `(file, number)` rows. */
  function IssueRows(issue: Issue, extract: string -> seq<string>, known: seq<string>): seq<(string, int)> {
    var files := IssueFiles(issue, extract, known);
    seq(|files|, j requires 0 <= j < |files| => (files[j], issue.number))
  }

  lemma IssueRowsMember(issue: Issue, extract: string -> seq<string>, known: seq<string>, f: string, n: int)
    ensures (f, n) in IssueRows(issue, extract, known) <==> issue.number == n && f in IssueFiles(issue, extract, known)
  {
    var files := IssueFiles(issue, extract, known);
    if f in files && issue.number == n {
      var j :| 0 <= j < |files| && files[j] == f;
      assert IssueRows(issue, extract, known)[j] == (f, n);
    }
  }

  function IssuePairs(issues: seq<Issue>, extract: string -> seq<string>, known: seq<string>): seq<(string, int)> {
    if |issues| == 0 then []
    else IssuePairs(issues[..|issues| - 1], extract, known) + IssueRows(issues[|issues| - 1], extract, known)
  }

  lemma {:induction false} IssuePairsMember(issues: seq<Issue>, extract: string -> seq<string>, known: seq<string>, f: string, n: int)
    ensures (f, n) in IssuePairs(issues, extract, known) <==>
      exists i :: 0 <= i < |issues| && issues[i].number == n && f in IssueFiles(issues[i], extract, known)
    decreases |issues|
  {
    if |issues| > 0 {
      var init := issues[..|issues| - 1];
      var last := issues[|issues| - 1];
      IssuePairsMember(init, extract, known, f, n);
      IssueRowsMember(last, extract, known, f, n);
      if exists i :: 0 <= i < |issues| && issues[i].number == n && f in IssueFiles(issues[i], extract, known) {
        var i :| 0 <= i < |issues| && issues[i].number == n && f in IssueFiles(issues[i], extract, known);
        if i < |issues| - 1 {
          assert init[i] == issues[i];
        }
      }
    }
  }

  /** Every list of a grouping with its duplicates dropped. */
  function DedupLists<V(==)>(d: Dicts.Dict<string, seq<V>>): (r: Dicts.Dict<string, seq<V>>)
    ensures r.keys == d.keys && r.vals.Keys == d.vals.Keys
    ensures forall k :: k in r.vals ==> r.vals[k] == Seqs.Dedup(d.vals[k])
  {
    Dicts.Dict(d.keys, map k | k in d.vals :: Seqs.Dedup(d.vals[k]))
  }

  /** `group_issues_by_file`, with the issue's related files given by `extract`
      over the known files listed in `known`. The lists are de-duplicated; the
      source does so through a set, whose order the model leaves open by
      keeping first occurrences. */
  function GroupIssuesByFile(issues: seq<Issue>, extract: string -> seq<string>, known: seq<string>): (r: Dicts.Dict<string, seq<int>>)
    ensures Dicts.Valid(r)
    ensures NoRelatedFile in r.vals && r.keys[0] == NoRelatedFile
    ensures forall k :: k in r.vals ==> Seqs.Distinct(r.vals[k])
  {
    var start := Dicts.Dict([NoRelatedFile], map[NoRelatedFile := []]);
    assert Dicts.Valid(start);
    var g := Dicts.GroupInto(start, IssuePairs(issues, extract, known));
    assert g.keys[0] == start.keys[0];
    var r := DedupLists(g);
    assert forall k :: k in r.vals ==> Seqs.Distinct(r.vals[k]);
    r
  }

  /** The issue belongs under key `f`: it mentions that file, or `f` is the
      catch-all key and it mentions no known file. */
  predicate FiledUnder(issue: Issue, extract: string -> seq<string>, known: seq<string>, f: string) {
    f in IssueFiles(issue, extract, known)
  }

  /** An issue is listed under a file exactly when it mentions it, and under
      the catch-all key exactly when it mentions no known file. The keys are
      the catch-all key and exactly the files some issue is filed under, so
      every other key is a known file. */
  lemma GroupIssuesByFileSpec(issues: seq<Issue>, extract: string -> seq<string>, known: seq<string>, f: string, n: int)
    ensures var r := GroupIssuesByFile(issues, extract, known);
      && (f in r.vals ==> f == NoRelatedFile || f in known)
      && (f in r.vals <==> f == NoRelatedFile || exists i :: 0 <= i < |issues| && FiledUnder(issues[i], extract, known, f))
      && (f in r.vals ==> (n in r.vals[f] <==> exists i :: 0 <= i < |issues| && issues[i].number == n && FiledUnder(issues[i], extract, known, f)))
  {
    var start := Dicts.Dict([NoRelatedFile], map[NoRelatedFile := []]);
    var ps := IssuePairs(issues, extract, known);
    var g := Dicts.GroupInto(start, ps);
    Dicts.GroupIntoContents(start, ps, f);
    Dicts.ValuesForMember(ps, f, n);
    IssuePairsMember(issues, extract, known, f, n);
    if f in g.vals && f != NoRelatedFile {
      assert Dicts.ValuesFor(ps, f) != [];
      var m := Dicts.ValuesFor(ps, f)[0];
      Dicts.ValuesForMember(ps, f, m);
      IssuePairsMember(issues, extract, known, f, m);
      var i :| 0 <= i < |issues| && issues[i].number == m && f in IssueFiles(issues[i], extract, known);
    }
    if exists i :: 0 <= i < |issues| && FiledUnder(issues[i], extract, known, f) {
      var i :| 0 <= i < |issues| && FiledUnder(issues[i], extract, known, f);
      var m := issues[i].number;
      IssuePairsMember(issues, extract, known, f, m);
      Dicts.ValuesForMember(ps, f, m);
    }
  }

  // ━━━━ Lookups ━━━━

  /** An issue or a pull request found by number. */
  datatype Item = IssueItem(issue: Issue) | PrItem(pr: PullRequest) {
    function Number(): int {
      if IssueItem? then issue.number else pr.number
    }

    function CreatedAt(): int {
      if IssueItem? then issue.createdAt else pr.createdAt
    }
  }

  function IssuesNumbered(issues: seq<Issue>, numbers: seq<int>): (r: seq<Item>)
    ensures forall x :: x in r ==> x.IssueItem? && x.issue in issues && x.issue.number in numbers
    ensures forall i :: 0 <= i < |issues| && issues[i].number in numbers ==> IssueItem(issues[i]) in r
  {
    if |issues| == 0 then []
    else (if issues[0].number in numbers then [IssueItem(issues[0])] else []) + IssuesNumbered(issues[1..], numbers)
  }

  function PrsNumbered(prs: seq<PullRequest>, numbers: seq<int>): (r: seq<Item>)
    ensures forall x :: x in r ==> x.PrItem? && x.pr in prs && x.pr.number in numbers
    ensures forall i :: 0 <= i < |prs| && prs[i].number in numbers ==> PrItem(prs[i]) in r
  {
    if |prs| == 0 then []
    else (if prs[0].number in numbers then [PrItem(prs[0])] else []) + PrsNumbered(prs[1..], numbers)
  }

  /** Selecting from a concatenation selects from each part, in order: the
      selection keeps the issues' order and every occurrence. */
  lemma {:induction false} IssuesNumberedAppend(a: seq<Issue>, b: seq<Issue>, numbers: seq<int>)
    ensures IssuesNumbered(a + b, numbers) == IssuesNumbered(a, numbers) + IssuesNumbered(b, numbers)
  {
    if |a| > 0 {
      assert (a + b)[1..] == a[1..] + b;
      IssuesNumberedAppend(a[1..], b, numbers);
    } else {
      assert a + b == b;
    }
  }

  lemma {:induction false} PrsNumberedAppend(a: seq<PullRequest>, b: seq<PullRequest>, numbers: seq<int>)
    ensures PrsNumbered(a + b, numbers) == PrsNumbered(a, numbers) + PrsNumbered(b, numbers)
  {
    if |a| > 0 {
      assert (a + b)[1..] == a[1..] + b;
      PrsNumberedAppend(a[1..], b, numbers);
    } else {
      assert a + b == b;
    }
  }

  /** `get_issues_or_prs`: the issues, then the PRs, whose number is requested;
      `None` when no numbers are given or nothing matches. */
  function GetIssuesOrPrs(issues: seq<Issue>, prs: seq<PullRequest>, numbers: Option<seq<int>>): (r: Option<seq<Item>>)
    ensures numbers.None? ==> r.None?
    ensures r.Some? ==> |r.value| > 0
    ensures r.Some? ==> forall x :: x in r.value ==> x.Number() in numbers.value
    ensures r.Some? ==> forall a, b :: 0 <= a < b < |r.value| && r.value[a].PrItem? ==> r.value[b].PrItem?
    ensures numbers.Some? ==> (r.None? <==>
      (forall i :: 0 <= i < |issues| ==> issues[i].number !in numbers.value) &&
      (forall i :: 0 <= i < |prs| ==> prs[i].number !in numbers.value))
    ensures r.Some? ==> r.value == IssuesNumbered(issues, numbers.value) + PrsNumbered(prs, numbers.value)
  {
    if numbers.None? then None
    else
      var a := IssuesNumbered(issues, numbers.value);
      var b := PrsNumbered(prs, numbers.value);
      var r := a + b;
      assert forall i :: 0 <= i < |a| ==> a[i] in a;
      assert forall i :: 0 <= i < |b| ==> b[i] in b;
      assert |a| > 0 ==> exists i :: 0 <= i < |issues| && issues[i].number in numbers.value by {
        if |a| > 0 {
          assert a[0] in a;
        }
      }
      assert |b| > 0 ==> exists i :: 0 <= i < |prs| && prs[i].number in numbers.value by {
        if |b| > 0 {
          assert b[0] in b;
        }
      }
      if |r| == 0 then None else Some(r)
  }

  /** The commits, in list order, whose hash is requested. */
  function CommitsWithHash(commits: seq<Commit>, hashes: seq<string>): (r: seq<Commit>)
    ensures forall c :: c in r ==> c in commits && c.commitHash in hashes
    ensures |r| <= |commits|
  {
    if |commits| == 0 then []
    else (if commits[0].commitHash in hashes then [commits[0]] else []) + CommitsWithHash(commits[1..], hashes)
  }

  /** The scan of `get_commits` with `found` collected so far: it returns as soon
      as it holds as many commits as hashes were asked for, and falls off the
      end (returning nothing) otherwise. */
  function ScanCommits(commits: seq<Commit>, hashes: seq<string>, found: seq<Commit>): (r: Option<seq<Commit>>)
    requires |found| < |hashes| || (found == [] && hashes == [])
    ensures r == (if 0 < |hashes| <= |found| + |CommitsWithHash(commits, hashes)|
                  then Some((found + CommitsWithHash(commits, hashes))[..|hashes|]) else None)
  {
    if |commits| == 0 then None
    else if commits[0].commitHash in hashes then
      var found' := found + [commits[0]];
      if |found'| == |hashes| then
        assert (found + CommitsWithHash(commits, hashes))[..|hashes|] == found';
        Some(found')
      else
        var r := ScanCommits(commits[1..], hashes, found');
        assert found + CommitsWithHash(commits, hashes) == found' + CommitsWithHash(commits[1..], hashes);
        r
    else
      assert CommitsWithHash(commits, hashes) == CommitsWithHash(commits[1..], hashes);
      ScanCommits(commits[1..], hashes, found)
  }

  /** `get_commits`: the first `|hashes|` commits with a requested hash, or
      `None` when fewer than that match (including a partial match, where the
      source has no final return) or when no hash is requested. */
  function GetCommits(commits: seq<Commit>, hashes: seq<string>): (r: Option<seq<Commit>>)
    ensures r.Some? <==> 0 < |hashes| <= |CommitsWithHash(commits, hashes)|
    ensures r.Some? ==> r.value == CommitsWithHash(commits, hashes)[..|hashes|]
  {
    ScanCommits(commits, hashes, [])
  }

  // ━━━━ Windowing ━━━━

  /** Items whose time lies strictly between `lo` and `hi`, in order. */
  function Between<T>(items: seq<T>, time: T -> int, lo: int, hi: int): (r: seq<T>)
    ensures forall x :: x in r ==> x in items && lo < time(x) < hi
    ensures forall x :: x in items && lo < time(x) < hi ==> x in r
  {
    if |items| == 0 then []
    else
      assert forall x :: x in items ==> x == items[0] || x in items[1..];
      (if lo < time(items[0]) < hi then [items[0]] else []) + Between(items[1..], time, lo, hi)
  }

  /** Items whose time is before `hi`, in order. */
  function Before<T>(items: seq<T>, time: T -> int, hi: int): (r: seq<T>)
    ensures forall x :: x in r ==> x in items && time(x) < hi
    ensures forall x :: x in items && time(x) < hi ==> x in r
  {
    if |items| == 0 then []
    else
      assert forall x :: x in items ==> x == items[0] || x in items[1..];
      (if time(items[0]) < hi then [items[0]] else []) + Before(items[1..], time, hi)
  }

  /** The newest-first scan with only a start: items are kept while they are
      newer than `lo`, and the scan stops at the first one that is not. */
  function NewerRun<T>(items: seq<T>, time: T -> int, lo: int): (r: seq<T>)
    ensures |r| <= |items| && r == items[..|r|]
    ensures forall i :: 0 <= i < |r| ==> lo < time(r[i])
    ensures |r| < |items| ==> time(items[|r|]) <= lo
  {
    if |items| == 0 || time(items[0]) <= lo then []
    else [items[0]] + NewerRun(items[1..], time, lo)
  }

  /** The filter applied to each list once the bounds are dates. */
  function Constrain<T>(items: seq<T>, time: T -> int, lo: Option<int>, hi: Option<int>): seq<T> {
    if lo.Some? && hi.Some? then Between(items, time, lo.value, hi.value)
    else if lo.Some? then NewerRun(items, time, lo.value)
    else if hi.Some? then Before(items, time, hi.value)
    else []
  }

  datatype Target = Target(repoName: Option<string>, commits: seq<Commit>, issues: seq<Issue>, prs: seq<PullRequest>)

  function FullHistory(repo: RepoData): Target {
    Target(None, repo.commits, repo.issues, repo.prs)
  }

  /** Which bounds the window sets, as the restriction step reads them. */
  datatype Flags = Flags(bothDates: bool, bothIssues: bool, issueNumbers: bool, commitHashes: bool)

  /** The flags as the source computes them: when both bounds are present only
      the two "both" flags are set, and the presence flags stay false. */
  function FlagsAsWritten(w: Window): Flags
    requires w.start.Some? || w.end.Some?
  {
    if w.start.Some? && w.end.Some? then
      Flags(DateOf(w.start).Some? && DateOf(w.end).Some?, IssueOf(w.start).Some? && IssueOf(w.end).Some?, false, false)
    else
      Flags(false, false, IssueOf(w.start).Some? || IssueOf(w.end).Some?, HashOf(w.start).Some? || HashOf(w.end).Some?)
  }

  /** The flags with the presence flags read from whichever bounds exist. */
  function FlagsCorrected(w: Window): Flags
    requires w.start.Some? || w.end.Some?
  {
    var both := w.start.Some? && w.end.Some?;
    Flags(both && DateOf(w.start).Some? && DateOf(w.end).Some?, both && IssueOf(w.start).Some? && IssueOf(w.end).Some?,
          IssueOf(w.start).Some? || IssueOf(w.end).Some?, HashOf(w.start).Some? || HashOf(w.end).Some?)
  }

  /** `i` is the position of the first issue numbered `n`. */
  predicate FirstIssue(issues: seq<Issue>, n: int, i: int) {
    0 <= i < |issues| && issues[i].number == n && forall j :: 0 <= j < i ==> issues[j].number != n
  }

  /** `i` is the position of the first pull request numbered `n`. */
  predicate FirstPr(prs: seq<PullRequest>, n: int, i: int) {
    0 <= i < |prs| && prs[i].number == n && forall j :: 0 <= j < i ==> prs[j].number != n
  }

  /** `i` is the position of the first commit with hash `h`. */
  predicate FirstCommit(commits: seq<Commit>, h: string, i: int) {
    0 <= i < |commits| && commits[i].commitHash == h && forall j :: 0 <= j < i ==> commits[j].commitHash != h
  }

  /** The creation time of the first issue or PR numbered `n`; `None` is the
      crash of indexing the `None` a failed lookup returns. Issues come
      before pull requests, so a PR is consulted only when no issue has the
      number. */
  function IssueDate(repo: RepoData, n: int): (r: Option<int>)
    ensures r.Some? <==> GetIssuesOrPrs(repo.issues, repo.prs, Some([n])).Some?
    ensures (exists i :: 0 <= i < |repo.issues| && repo.issues[i].number == n) ==>
      exists i :: FirstIssue(repo.issues, n, i) && r == Some(repo.issues[i].createdAt)
    ensures (forall i :: 0 <= i < |repo.issues| ==> repo.issues[i].number != n) && r.Some? ==>
      exists i :: FirstPr(repo.prs, n, i) && r.value == repo.prs[i].createdAt
  {
    var found := GetIssuesOrPrs(repo.issues, repo.prs, Some([n]));
    var a := IssuesNumbered(repo.issues, [n]);
    if found.None? then None
    else if |a| > 0 then
      IssuesNumberedHead(repo.issues, n);
      Some(found.value[0].CreatedAt())
    else
      assert found.value == PrsNumbered(repo.prs, [n]);
      PrsNumberedHead(repo.prs, n);
      Some(found.value[0].CreatedAt())
  }

  /** The committer date of the first commit with hash `h`, or the crash. */
  function CommitDate(repo: RepoData, h: string): (r: Option<int>)
    ensures r.Some? <==> exists i :: 0 <= i < |repo.commits| && repo.commits[i].commitHash == h
    ensures r.Some? ==> exists i :: FirstCommit(repo.commits, h, i) && r.value == repo.commits[i].committerDate
  {
    var found := GetCommits(repo.commits, [h]);
    assert found.Some? <==> |CommitsWithHash(repo.commits, [h])| >= 1;
    CommitsWithHashNonEmpty(repo.commits, h);
    if found.None? then None
    else
      CommitsWithHashHead(repo.commits, h);
      Some(found.value[0].committerDate)
  }

  /** The first issue selected for one number is the first issue with it. */
  lemma {:induction false} IssuesNumberedHead(issues: seq<Issue>, n: int)
    requires |IssuesNumbered(issues, [n])| > 0
    ensures exists i :: FirstIssue(issues, n, i) && IssuesNumbered(issues, [n])[0] == IssueItem(issues[i])
  {
    if issues[0].number == n {
      assert FirstIssue(issues, n, 0);
    } else {
      assert IssuesNumbered(issues, [n]) == IssuesNumbered(issues[1..], [n]);
      IssuesNumberedHead(issues[1..], n);
      var i :| FirstIssue(issues[1..], n, i) && IssuesNumbered(issues[1..], [n])[0] == IssueItem(issues[1..][i]);
      assert forall j :: 1 <= j <= i + 1 ==> issues[j] == issues[1..][j - 1];
      assert FirstIssue(issues, n, i + 1);
    }
  }

  /** The first pull request selected for one number is the first with it. */
  lemma {:induction false} PrsNumberedHead(prs: seq<PullRequest>, n: int)
    requires |PrsNumbered(prs, [n])| > 0
    ensures exists i :: FirstPr(prs, n, i) && PrsNumbered(prs, [n])[0] == PrItem(prs[i])
  {
    if prs[0].number == n {
      assert FirstPr(prs, n, 0);
    } else {
      assert PrsNumbered(prs, [n]) == PrsNumbered(prs[1..], [n]);
      PrsNumberedHead(prs[1..], n);
      var i :| FirstPr(prs[1..], n, i) && PrsNumbered(prs[1..], [n])[0] == PrItem(prs[1..][i]);
      assert forall j :: 1 <= j <= i + 1 ==> prs[j] == prs[1..][j - 1];
      assert FirstPr(prs, n, i + 1);
    }
  }

  /** The first commit selected for one hash is the first commit with it. */
  lemma {:induction false} CommitsWithHashHead(commits: seq<Commit>, h: string)
    requires |CommitsWithHash(commits, [h])| > 0
    ensures exists i :: FirstCommit(commits, h, i) && CommitsWithHash(commits, [h])[0] == commits[i]
  {
    if commits[0].commitHash == h {
      assert FirstCommit(commits, h, 0);
    } else {
      assert CommitsWithHash(commits, [h]) == CommitsWithHash(commits[1..], [h]);
      CommitsWithHashHead(commits[1..], h);
      var i :| FirstCommit(commits[1..], h, i) && CommitsWithHash(commits[1..], [h])[0] == commits[1..][i];
      assert forall j :: 1 <= j <= i + 1 ==> commits[j] == commits[1..][j - 1];
      assert FirstCommit(commits, h, i + 1);
    }
  }

  lemma {:induction false} CommitsWithHashNonEmpty(commits: seq<Commit>, h: string)
    ensures |CommitsWithHash(commits, [h])| >= 1 <==> exists i :: 0 <= i < |commits| && commits[i].commitHash == h
    decreases |commits|
  {
    if |commits| > 0 {
      CommitsWithHashNonEmpty(commits[1..], h);
      if exists i :: 0 <= i < |commits| && commits[i].commitHash == h {
        var i :| 0 <= i < |commits| && commits[i].commitHash == h;
        if i > 0 {
          assert commits[1..][i - 1] == commits[i];
        }
      }
    }
  }

  /** Turns issue-number or commit-hash bounds into dates when the window has
      no date at all; `None` when a lookup finds nothing. */
  function ResolveDates(repo: RepoData, w: Window, flags: Flags): Option<(Option<int>, Option<int>)> {
    var sd := DateOf(w.start);
    var ed := DateOf(w.end);
    if flags.issueNumbers && sd.None? && ed.None? then
      var s :- Lookup(IssueOf(w.start), n => IssueDate(repo, n));
      var e :- Lookup(IssueOf(w.end), n => IssueDate(repo, n));
      Some((s, e))
    else if flags.commitHashes && sd.None? && ed.None? then
      var s :- Lookup(HashOf(w.start), h => CommitDate(repo, h));
      var e :- Lookup(HashOf(w.end), h => CommitDate(repo, h));
      Some((s, e))
    else Some((sd, ed))
  }

  /** Resolves an optional key: absent stays absent, a failed lookup fails. */
  function Lookup<K>(key: Option<K>, find: K -> Option<int>): Option<Option<int>> {
    if key.None? then Some(None)
    else
      var d := find(key.value);
      if d.None? then None else Some(Some(d.value))
  }

  /** The body of `from_repo_data` for given flags. */
  function Restrict(name: string, repo: RepoData, w: Window, flags: Flags): Option<Target> {
    if flags.bothDates && DateOf(w.start).Some? && DateOf(w.end).Some? && DateOf(w.start).value > DateOf(w.end).value then
      Some(FullHistory(repo))
    else if flags.bothIssues && IssueOf(w.start).Some? && IssueOf(w.end).Some? && IssueOf(w.start).value > IssueOf(w.end).value then Some(FullHistory(repo))
    else
      var (lo, hi) :- ResolveDates(repo, w, flags);
      Some(Target(Some(name),
        Constrain(repo.commits, (c: Commit) => c.committerDate, lo, hi),
        Constrain(repo.issues, (i: Issue) => i.createdAt, lo, hi),
        Constrain(repo.prs, (p: PullRequest) => p.createdAt, lo, hi)))
  }

  /** `from_repo_data` as written; `None` is a crash in a bound lookup. */
  function FromRepoData(name: string, repo: RepoData, w: Window): (r: Option<Target>)
    ensures w.start.None? && w.end.None? ==> r == Some(FullHistory(repo))
    ensures DateOf(w.start).Some? && DateOf(w.end).Some? && DateOf(w.start).value > DateOf(w.end).value ==> r == Some(FullHistory(repo))
    ensures IssueOf(w.start).Some? && IssueOf(w.end).Some? && IssueOf(w.start).value > IssueOf(w.end).value ==> r == Some(FullHistory(repo))
  {
    if w.start.None? && w.end.None? then Some(FullHistory(repo))
    else Restrict(name, repo, w, FlagsAsWritten(w))
  }

  /** With two dates in order, every list keeps exactly the items strictly
      between them. */
  lemma FromRepoDataBetween(name: string, repo: RepoData, w: Window)
    requires DateOf(w.start).Some? && DateOf(w.end).Some? && DateOf(w.start).value <= DateOf(w.end).value
    requires !(IssueOf(w.start).Some? && IssueOf(w.end).Some? && IssueOf(w.start).value > IssueOf(w.end).value)
    ensures var lo, hi := DateOf(w.start).value, DateOf(w.end).value;
      FromRepoData(name, repo, w) == Some(Target(Some(name),
        Between(repo.commits, (c: Commit) => c.committerDate, lo, hi),
        Between(repo.issues, (i: Issue) => i.createdAt, lo, hi),
        Between(repo.prs, (p: PullRequest) => p.createdAt, lo, hi)))
  {
  }

  /** With only a start date, each newest-first list is kept up to its first
      item that is not newer than the start. */
  lemma FromRepoDataAfter(name: string, repo: RepoData, w: Window)
    requires w.end.None? && DateOf(w.start).Some?
    ensures var lo := DateOf(w.start).value;
      FromRepoData(name, repo, w) == Some(Target(Some(name),
        NewerRun(repo.commits, (c: Commit) => c.committerDate, lo),
        NewerRun(repo.issues, (i: Issue) => i.createdAt, lo),
        NewerRun(repo.prs, (p: PullRequest) => p.createdAt, lo)))
  {
  }

  /** With only an end date, every list keeps exactly the items older than it. */
  lemma FromRepoDataBefore(name: string, repo: RepoData, w: Window)
    requires w.start.None? && DateOf(w.end).Some?
    ensures var hi := DateOf(w.end).value;
      FromRepoData(name, repo, w) == Some(Target(Some(name),
        Before(repo.commits, (c: Commit) => c.committerDate, hi),
        Before(repo.issues, (i: Issue) => i.createdAt, hi),
        Before(repo.prs, (p: PullRequest) => p.createdAt, hi)))
  {
  }

  /** As written, a window whose two bounds are issue numbers keeps nothing:
      no presence flag is set, so neither number is turned into a date. */
  lemma IssueWindowKeepsNothing(name: string, repo: RepoData, a: int, b: int)
    requires a <= b
    ensures FromRepoData(name, repo, FromIssueNumbers(Some(a), Some(b))) == Some(Target(Some(name), [], [], []))
  {
  }

  /** The same holds for a window given by two commit hashes. */
  lemma HashWindowKeepsNothing(name: string, repo: RepoData, a: string, b: string)
    ensures FromRepoData(name, repo, FromCommitHashes(Some(a), Some(b))) == Some(Target(Some(name), [], [], []))
  {
  }

  /** `from_repo_data` with the presence flags read from both bounds. */
  function FromRepoDataCorrected(name: string, repo: RepoData, w: Window): (r: Option<Target>)
    ensures w.start.None? && w.end.None? ==> r == Some(FullHistory(repo))
    ensures IssueOf(w.start).None? && IssueOf(w.end).None? && HashOf(w.start).None? && HashOf(w.end).None? ==>
      r == FromRepoData(name, repo, w)
  {
    if w.start.None? && w.end.None? then Some(FullHistory(repo))
    else Restrict(name, repo, w, FlagsCorrected(w))
  }

  /** Corrected, an issue-number window whose numbers resolve keeps exactly the
      items created strictly between the two issues. */
  lemma CorrectedIssueWindow(name: string, repo: RepoData, a: int, b: int)
    requires a <= b
    requires IssueDate(repo, a).Some? && IssueDate(repo, b).Some?
    ensures var lo, hi := IssueDate(repo, a).value, IssueDate(repo, b).value;
      FromRepoDataCorrected(name, repo, FromIssueNumbers(Some(a), Some(b))) == Some(Target(Some(name),
        Between(repo.commits, (c: Commit) => c.committerDate, lo, hi),
        Between(repo.issues, (i: Issue) => i.createdAt, lo, hi),
        Between(repo.prs, (p: PullRequest) => p.createdAt, lo, hi)))
  {
  }

  /** Corrected, a commit-hash window whose hashes resolve keeps exactly the
      items strictly between the two commits' dates. */
  lemma CorrectedHashWindow(name: string, repo: RepoData, a: string, b: string)
    requires CommitDate(repo, a).Some? && CommitDate(repo, b).Some?
    ensures var lo, hi := CommitDate(repo, a).value, CommitDate(repo, b).value;
      FromRepoDataCorrected(name, repo, FromCommitHashes(Some(a), Some(b))) == Some(Target(Some(name),
        Between(repo.commits, (c: Commit) => c.committerDate, lo, hi),
        Between(repo.issues, (i: Issue) => i.createdAt, lo, hi),
        Between(repo.prs, (p: PullRequest) => p.createdAt, lo, hi)))
  {
    var w := FromCommitHashes(Some(a), Some(b));
    var lo, hi := CommitDate(repo, a).value, CommitDate(repo, b).value;
    var flags := FlagsCorrected(w);
    assert !flags.bothDates && !flags.bothIssues && !flags.issueNumbers && flags.commitHashes;
    assert Lookup(HashOf(w.start), h => CommitDate(repo, h)) == Some(Some(lo));
    assert Lookup(HashOf(w.end), h => CommitDate(repo, h)) == Some(Some(hi));
    assert ResolveDates(repo, w, flags) == Some((Some(lo), Some(hi)));
  }
}
