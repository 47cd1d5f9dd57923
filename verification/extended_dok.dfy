/** The extended Degree-of-Knowledge estimator: DoK = DoA + DoI, where the
    Degree of Interest is a weighted count of the PRs and issues a candidate
    created or commented on. The candidates of a file are its commit authors
    (as in the Avelino estimator) followed by the participants of the PRs and
    issues grouped under the file; the greedy file-count selection then gives
    the truck factor. */
module ExtendedDok {
  import opened Wrappers
  import Seqs
  import Dicts
  import opened Records
  import ContributorStore
  import AuthorKeys
  import AnalysisTarget
  import Authorship
  import Greedy

  type Candidate = Authorship.Candidate
  type Candidates = Dicts.Dict<string, Candidate>

  /** `EDoKConfig`. `doaWeight` and `doiWeight` exist but the score never
      reads them. */
  datatype Config = Config(
    weights: Authorship.DoaWeights,
    prsCreatedWeight: real,
    prCommentsWeight: real,
    issuesCreatedWeight: real,
    issueCommentsWeight: real,
    doaWeight: real,
    doiWeight: real,
    normThreshold: real,
    absThreshold: real,
    coverageThreshold: real)

  const Defaults := Config(Authorship.DefaultDoaWeights, 1.0, 1.0, 1.0, 1.0, 1.0, 1.0, 0.75, 3.293, 0.5)

  // ━━━━ Engagement counters ━━━━

  /** The four engagement counters of `CandidateAuthorInfo`. */
  datatype Activity = PrCreated | PrComment | IssueCreated | IssueComment

  function CountOf(c: Candidate, a: Activity): nat {
    match a
    case PrCreated => c.prsCreated
    case PrComment => c.prsCommented
    case IssueCreated => c.issuesCreated
    case IssueComment => c.issuesCommented
  }

  /** A counter of a key, 0 when the key is not a candidate. */
  function Tally(d: Candidates, k: string, a: Activity): nat {
    if k in d.vals then CountOf(d.vals[k], a) else 0
  }

  /** `CandidateAuthorInfo()`: no first authorship, no changes, no engagement. */
  const Fresh := Authorship.Candidate(false, 0, 0, 0, 0, 0)

  /** `d[k].<a> += 1` for a candidate, `d[k] = CandidateAuthorInfo(<a>=1)` for a
      new key. */
  function Record(d: Candidates, k: string, a: Activity): (r: Candidates)
    requires Dicts.Valid(d)
    ensures Dicts.Valid(r) && r.vals.Keys == d.vals.Keys + {k}
    ensures Tally(r, k, a) == Tally(d, k, a) + 1
    ensures forall j, b :: (j != k || b != a) ==> Tally(r, j, b) == Tally(d, j, b)
    ensures forall j :: j in d.vals ==> r.vals[j].first == d.vals[j].first && r.vals[j].changes == d.vals[j].changes
    ensures k !in d.vals ==> !r.vals[k].first && r.vals[k].changes == 0
  {
    var c := if k in d.vals then d.vals[k] else Fresh;
    Dicts.Put(d, k, Bump(c, a))
  }

  /** One more of activity `a`; every other field kept. */
  function Bump(c: Candidate, a: Activity): (r: Candidate)
    ensures CountOf(r, a) == CountOf(c, a) + 1
    ensures forall b :: b != a ==> CountOf(r, b) == CountOf(c, b)
    ensures r.first == c.first && r.changes == c.changes
  {
    match a
    case PrCreated => c.(prsCreated := c.prsCreated + 1)
    case PrComment => c.(prsCommented := c.prsCommented + 1)
    case IssueCreated => c.(issuesCreated := c.issuesCreated + 1)
    case IssueComment => c.(issuesCommented := c.issuesCommented + 1)
  }

  // ━━━━ Comments ━━━━

  /** What a comment contributes: `Some(None)` when it is skipped (no author,
      or, for issue comments, an author the store does not know),
      `Some(Some(k))` when it is filed under `k`, and `None` for the crash of
      keying a failed lookup (PR comments only, given a store keeping its
      invariant). */
  function CommentKey(store: ContributorStore.Store, c: Comment, skipUnmatched: bool): (r: Option<Option<string>>)
    requires Dicts.Valid(store)
    ensures c.author.None? ==> r == Some(None)
    ensures r.Some? && r.value.Some? <==> c.author.Some? && AuthorKeys.UserKey(store, c.author.value).Some?
    ensures r.Some? && r.value.Some? ==> r.value == AuthorKeys.UserKey(store, c.author.value)
    ensures skipUnmatched && ContributorStore.Invariant(store) ==> r.Some?
  {
    if c.author.None? then Some(None)
    else
      var u := c.author.value;
      var rec := ContributorStore.Get(store, Some(u.username), AuthorKeys.ValidEmail(u.email));
      if skipUnmatched && rec.None? then Some(None)
      else
        var k :- AuthorKeys.UserKey(store, u);
        Some(Some(k))
  }

  /** The comments of one PR or issue, in order, each recorded as activity `a`. */
  function AddComments(store: ContributorStore.Store, d: Candidates, comments: seq<Comment>,
                       a: Activity, skipUnmatched: bool): (r: Option<Candidates>)
    requires Dicts.Valid(store) && Dicts.Valid(d)
    ensures r.Some? ==> Dicts.Valid(r.value) && d.vals.Keys <= r.value.vals.Keys
    ensures r.Some? ==> forall j :: j in d.vals ==>
      r.value.vals[j].first == d.vals[j].first && r.value.vals[j].changes == d.vals[j].changes
    ensures r.Some? ==> forall j :: j in r.value.vals && j !in d.vals ==>
      !r.value.vals[j].first && r.value.vals[j].changes == 0
    decreases |comments|
  {
    if |comments| == 0 then Some(d)
    else
      var n := |comments| - 1;
      var init :- AddComments(store, d, comments[..n], a, skipUnmatched);
      var key :- CommentKey(store, comments[n], skipUnmatched);
      Some(RecordKey(init, key, a))
  }

  /** Records `a` for the key of a comment, or nothing for a skipped one. */
  function RecordKey(d: Candidates, key: Option<string>, a: Activity): (r: Candidates)
    requires Dicts.Valid(d)
    ensures Dicts.Valid(r) && d.vals.Keys <= r.vals.Keys
    ensures forall k, b :: Tally(r, k, b) == Tally(d, k, b) + (if b == a && key == Some(k) then 1 else 0)
    ensures forall k :: k in r.vals <==> k in d.vals || key == Some(k)
    ensures forall j :: j in d.vals ==> r.vals[j].first == d.vals[j].first && r.vals[j].changes == d.vals[j].changes
    ensures forall j :: j in r.vals && j !in d.vals ==> !r.vals[j].first && r.vals[j].changes == 0
  {
    if key.None? then d else Record(d, key.value, a)
  }

  /** How many of the comments were written by the contributor keyed `k`. */
  function CommentsBy(store: ContributorStore.Store, comments: seq<Comment>, k: string): nat
    requires Dicts.Valid(store)
  {
    if |comments| == 0 then 0
    else
      var n := |comments| - 1;
      var c := comments[n];
      CommentsBy(store, comments[..n], k)
        + (if c.author.Some? && AuthorKeys.UserKey(store, c.author.value) == Some(k) then 1 else 0)
  }

  /** Each comment adds exactly one to its author's counter `a`; comments
      without an author, or that are skipped, add nothing, and no other
      counter moves. */
  lemma {:induction false} AddCommentsCount(store: ContributorStore.Store, d: Candidates, comments: seq<Comment>,
                                            a: Activity, skipUnmatched: bool, k: string, b: Activity)
    requires Dicts.Valid(store) && Dicts.Valid(d)
    requires AddComments(store, d, comments, a, skipUnmatched).Some?
    ensures var r := AddComments(store, d, comments, a, skipUnmatched).value;
      Tally(r, k, b) == Tally(d, k, b) + (if b == a then CommentsBy(store, comments, k) else 0)
    ensures var r := AddComments(store, d, comments, a, skipUnmatched).value;
      k in r.vals <==> k in d.vals || CommentsBy(store, comments, k) > 0
    decreases |comments|
  {
    if |comments| > 0 {
      var n := |comments| - 1;
      AddCommentsCount(store, d, comments[..n], a, skipUnmatched, k, b);
      var init := AddComments(store, d, comments[..n], a, skipUnmatched).value;
      var key := CommentKey(store, comments[n], skipUnmatched).value;
      var c := comments[n];
      var hit := c.author.Some? && AuthorKeys.UserKey(store, c.author.value) == Some(k);
      assert CommentsBy(store, comments, k) == CommentsBy(store, comments[..n], k) + (if hit then 1 else 0);
      assert hit <==> key == Some(k);
      assert AddComments(store, d, comments, a, skipUnmatched).value == RecordKey(init, key, a);
    }
  }

  /** Some comment's author cannot be keyed and is not skipped. */
  predicate SomeCommentFails(store: ContributorStore.Store, comments: seq<Comment>, skipUnmatched: bool)
    requires Dicts.Valid(store)
  {
    |comments| > 0 &&
      (SomeCommentFails(store, comments[..|comments| - 1], skipUnmatched)
       || CommentKey(store, comments[|comments| - 1], skipUnmatched).None?)
  }

  /** Recording comments fails exactly when some comment fails. */
  lemma {:induction false} AddCommentsFails(store: ContributorStore.Store, d: Candidates, comments: seq<Comment>,
                                            a: Activity, skipUnmatched: bool)
    requires Dicts.Valid(store) && Dicts.Valid(d)
    ensures AddComments(store, d, comments, a, skipUnmatched).None? <==> SomeCommentFails(store, comments, skipUnmatched)
    decreases |comments|
  {
    if |comments| > 0 {
      AddCommentsFails(store, d, comments[..|comments| - 1], a, skipUnmatched);
    }
  }

  /** Over a store keeping its invariant no issue comment fails. */
  lemma {:induction false} NoIssueCommentFails(store: ContributorStore.Store, comments: seq<Comment>)
    requires ContributorStore.Invariant(store)
    ensures !SomeCommentFails(store, comments, true)
    decreases |comments|
  {
    if |comments| > 0 {
      NoIssueCommentFails(store, comments[..|comments| - 1]);
    }
  }

  /** Issue comments never crash the estimator over a store keeping its
      invariant: an unknown commenter is skipped. */
  lemma IssueCommentsNeverFail(store: ContributorStore.Store, d: Candidates, comments: seq<Comment>)
    requires ContributorStore.Invariant(store) && Dicts.Valid(d)
    ensures AddComments(store, d, comments, IssueComment, true).Some?
  {
    AddCommentsFails(store, d, comments, IssueComment, true);
    NoIssueCommentFails(store, comments);
  }

  // ━━━━ PRs and issues ━━━━

  function CreatorOf(x: AnalysisTarget.Item): User {
    if x.IssueItem? then x.issue.createdBy else x.pr.createdBy
  }

  function CommentsOf(x: AnalysisTarget.Item): seq<Comment> {
    if x.IssueItem? then x.issue.comments else x.pr.comments
  }

  /** One relevant PR: its creator's `prs_created` and each commenter's
      `prs_cmntd_on`. A creator or commenter the store cannot key crashes. */
  function AddPr(store: ContributorStore.Store, d: Candidates, x: AnalysisTarget.Item): (r: Option<Candidates>)
    requires Dicts.Valid(store) && Dicts.Valid(d)
    ensures r.Some? ==> Dicts.Valid(r.value) && d.vals.Keys <= r.value.vals.Keys
    ensures r.Some? ==> AuthorKeys.UserKey(store, CreatorOf(x)).Some?
  {
    var k :- AuthorKeys.UserKey(store, CreatorOf(x));
    AddComments(store, Record(d, k, PrCreated), CommentsOf(x), PrComment, false)
  }

  /** One relevant issue: a creator new to the map gets `issues_created = 1`,
      but a creator already a candidate gets `prs_created += 1`; commenters
      unknown to the store are skipped. */
  function AddIssue(store: ContributorStore.Store, d: Candidates, x: AnalysisTarget.Item): (r: Option<Candidates>)
    requires Dicts.Valid(store) && Dicts.Valid(d)
    ensures r.Some? ==> Dicts.Valid(r.value) && d.vals.Keys <= r.value.vals.Keys
    ensures r.Some? ==> AuthorKeys.UserKey(store, CreatorOf(x)).Some?
  {
    var k :- AuthorKeys.UserKey(store, CreatorOf(x));
    var d1 := if k in d.vals then Record(d, k, PrCreated) else Record(d, k, IssueCreated);
    AddComments(store, d1, CommentsOf(x), IssueComment, true)
  }

  /** A PR adds one to its creator's `prs_created` and one to each
      commenter's `prs_cmntd_on`; nothing else moves. */
  lemma AddPrCounts(store: ContributorStore.Store, d: Candidates, x: AnalysisTarget.Item, k: string)
    requires Dicts.Valid(store) && Dicts.Valid(d)
    requires AddPr(store, d, x).Some?
    ensures var r := AddPr(store, d, x).value; var creator := AuthorKeys.UserKey(store, CreatorOf(x)).value;
      && Tally(r, k, PrCreated) == Tally(d, k, PrCreated) + (if k == creator then 1 else 0)
      && Tally(r, k, PrComment) == Tally(d, k, PrComment) + CommentsBy(store, CommentsOf(x), k)
      && Tally(r, k, IssueCreated) == Tally(d, k, IssueCreated)
      && Tally(r, k, IssueComment) == Tally(d, k, IssueComment)
  {
    var creator := AuthorKeys.UserKey(store, CreatorOf(x)).value;
    var d1 := Record(d, creator, PrCreated);
    AddCommentsCount(store, d1, CommentsOf(x), PrComment, false, k, PrCreated);
    AddCommentsCount(store, d1, CommentsOf(x), PrComment, false, k, PrComment);
    AddCommentsCount(store, d1, CommentsOf(x), PrComment, false, k, IssueCreated);
    AddCommentsCount(store, d1, CommentsOf(x), PrComment, false, k, IssueComment);
  }

  /** The issue-creator rule: an existing candidate is credited with a PR,
      not an issue; only a creator new to the map gets `issues_created`. */
  lemma IssueCreatorCounts(store: ContributorStore.Store, d: Candidates, x: AnalysisTarget.Item)
    requires Dicts.Valid(store) && Dicts.Valid(d)
    requires AddIssue(store, d, x).Some?
    ensures var r := AddIssue(store, d, x).value; var k := AuthorKeys.UserKey(store, CreatorOf(x)).value;
      && (k in d.vals ==> Tally(r, k, PrCreated) == Tally(d, k, PrCreated) + 1
                          && Tally(r, k, IssueCreated) == Tally(d, k, IssueCreated))
      && (k !in d.vals ==> Tally(r, k, PrCreated) == 0 && Tally(r, k, IssueCreated) == 1)
  {
    var k := AuthorKeys.UserKey(store, CreatorOf(x)).value;
    var d1 := if k in d.vals then Record(d, k, PrCreated) else Record(d, k, IssueCreated);
    AddCommentsCount(store, d1, CommentsOf(x), IssueComment, true, k, PrCreated);
    AddCommentsCount(store, d1, CommentsOf(x), IssueComment, true, k, IssueCreated);
  }

  /** An issue adds one to each keyed commenter's `issues_cmntd_on`. */
  lemma IssueCommentCounts(store: ContributorStore.Store, d: Candidates, x: AnalysisTarget.Item, k: string)
    requires Dicts.Valid(store) && Dicts.Valid(d)
    requires AddIssue(store, d, x).Some?
    ensures var r := AddIssue(store, d, x).value;
      Tally(r, k, IssueComment) == Tally(d, k, IssueComment) + CommentsBy(store, CommentsOf(x), k)
  {
    var c := AuthorKeys.UserKey(store, CreatorOf(x)).value;
    var d1 := if c in d.vals then Record(d, c, PrCreated) else Record(d, c, IssueCreated);
    AddCommentsCount(store, d1, CommentsOf(x), IssueComment, true, k, IssueComment);
  }

  /** Everything `d2` adds to `d1` is engagement: the candidates of `d1` keep
      their first-author flag and change volume, and new keys have neither. */
  ghost predicate Extends(d1: Candidates, d2: Candidates) {
    && d1.vals.Keys <= d2.vals.Keys
    && (forall j :: j in d1.vals ==> d2.vals[j].first == d1.vals[j].first && d2.vals[j].changes == d1.vals[j].changes)
    && (forall j :: j in d2.vals && j !in d1.vals ==> !d2.vals[j].first && d2.vals[j].changes == 0)
  }

  /** The number of the items whose creator is keyed `k`. */
  function CreatedBy(store: ContributorStore.Store, xs: seq<AnalysisTarget.Item>, k: string): nat
    requires Dicts.Valid(store)
  {
    if |xs| == 0 then 0
    else
      var n := |xs| - 1;
      CreatedBy(store, xs[..n], k) + (if AuthorKeys.UserKey(store, CreatorOf(xs[n])) == Some(k) then 1 else 0)
  }

  /** The number of comments over all the items written by the contributor
      keyed `k`. */
  function CommentedBy(store: ContributorStore.Store, xs: seq<AnalysisTarget.Item>, k: string): nat
    requires Dicts.Valid(store)
  {
    if |xs| == 0 then 0
    else
      var n := |xs| - 1;
      CommentedBy(store, xs[..n], k) + CommentsBy(store, CommentsOf(xs[n]), k)
  }

  /** The PR loop. */
  function AddPrs(store: ContributorStore.Store, d: Candidates, prs: seq<AnalysisTarget.Item>): (r: Option<Candidates>)
    requires Dicts.Valid(store) && Dicts.Valid(d)
    ensures r.Some? ==> Dicts.Valid(r.value) && Extends(d, r.value)
    decreases |prs|
  {
    if |prs| == 0 then Some(d)
    else
      var n := |prs| - 1;
      var init :- AddPrs(store, d, prs[..n]);
      var k :- AuthorKeys.UserKey(store, CreatorOf(prs[n]));
      AddComments(store, Record(init, k, PrCreated), CommentsOf(prs[n]), PrComment, false)
  }

  /** Over all relevant PRs, `prs_created` grows by the PRs a contributor
      opened and `prs_cmntd_on` by the comments they wrote; the issue
      counters do not move. */
  lemma {:induction false} AddPrsCounts(store: ContributorStore.Store, d: Candidates, prs: seq<AnalysisTarget.Item>, k: string)
    requires Dicts.Valid(store) && Dicts.Valid(d)
    requires AddPrs(store, d, prs).Some?
    ensures var r := AddPrs(store, d, prs).value;
      && Tally(r, k, PrCreated) == Tally(d, k, PrCreated) + CreatedBy(store, prs, k)
      && Tally(r, k, PrComment) == Tally(d, k, PrComment) + CommentedBy(store, prs, k)
      && Tally(r, k, IssueCreated) == Tally(d, k, IssueCreated)
      && Tally(r, k, IssueComment) == Tally(d, k, IssueComment)
    decreases |prs|
  {
    if |prs| > 0 {
      var n := |prs| - 1;
      AddPrsCounts(store, d, prs[..n], k);
      var init := AddPrs(store, d, prs[..n]).value;
      assert AddPrs(store, d, prs) == AddPr(store, init, prs[n]);
      AddPrCounts(store, init, prs[n], k);
      assert CreatedBy(store, prs, k) == CreatedBy(store, prs[..n], k)
        + (if AuthorKeys.UserKey(store, CreatorOf(prs[n])) == Some(k) then 1 else 0);
      assert CommentedBy(store, prs, k) == CommentedBy(store, prs[..n], k) + CommentsBy(store, CommentsOf(prs[n]), k);
    }
  }

  /** The issue loop. */
  function AddIssues(store: ContributorStore.Store, d: Candidates, issues: seq<AnalysisTarget.Item>): (r: Option<Candidates>)
    requires Dicts.Valid(store) && Dicts.Valid(d)
    ensures r.Some? ==> Dicts.Valid(r.value) && Extends(d, r.value)
    decreases |issues|
  {
    if |issues| == 0 then Some(d)
    else
      var n := |issues| - 1;
      var init :- AddIssues(store, d, issues[..n]);
      var k :- AuthorKeys.UserKey(store, CreatorOf(issues[n]));
      var d1 := if k in init.vals then Record(init, k, PrCreated) else Record(init, k, IssueCreated);
      AddComments(store, d1, CommentsOf(issues[n]), IssueComment, true)
  }

  /** Some item's creator cannot be keyed. */
  predicate SomeCreatorUnkeyed(store: ContributorStore.Store, xs: seq<AnalysisTarget.Item>)
    requires Dicts.Valid(store)
  {
    |xs| > 0 &&
      (SomeCreatorUnkeyed(store, xs[..|xs| - 1]) || AuthorKeys.UserKey(store, CreatorOf(xs[|xs| - 1])).None?)
  }

  /** Over a store keeping its invariant, the issue loop fails exactly when
      some issue's creator cannot be keyed. */
  lemma {:induction false} AddIssuesFails(store: ContributorStore.Store, d: Candidates, issues: seq<AnalysisTarget.Item>)
    requires ContributorStore.Invariant(store) && Dicts.Valid(d)
    ensures AddIssues(store, d, issues).None? <==> SomeCreatorUnkeyed(store, issues)
    decreases |issues|
  {
    if |issues| > 0 {
      var n := |issues| - 1;
      AddIssuesFails(store, d, issues[..n]);
      var init := AddIssues(store, d, issues[..n]);
      var key := AuthorKeys.UserKey(store, CreatorOf(issues[n]));
      if init.Some? && key.Some? {
        var k := key.value;
        var d1 := if k in init.value.vals then Record(init.value, k, PrCreated) else Record(init.value, k, IssueCreated);
        IssueCommentsNeverFail(store, d1, CommentsOf(issues[n]));
        assert AddIssues(store, d, issues) == AddComments(store, d1, CommentsOf(issues[n]), IssueComment, true);
      }
    }
  }

  // ━━━━ Candidates of one file ━━━━

  /** `_extract_candidate_authors`: commit authors first (as in the Avelino
      estimator), then PR participants, then issue participants. */
  function FileCandidates(store: ContributorStore.Store, oldestFirst: seq<Commit>,
                          prs: seq<AnalysisTarget.Item>, issues: seq<AnalysisTarget.Item>): (r: Option<Candidates>)
    requires Dicts.Valid(store)
    ensures r.Some? ==> AuthorKeys.CommitKeys(store, oldestFirst).Some?
    ensures r.Some? ==> Dicts.Valid(r.value)
    ensures r.Some? ==> Extends(Authorship.CommitCandidates(AuthorKeys.CommitKeys(store, oldestFirst).value, oldestFirst), r.value)
  {
    var keys :- AuthorKeys.CommitKeys(store, oldestFirst);
    var d0 := Authorship.CommitCandidates(keys, oldestFirst);
    var d1 :- AddPrs(store, d0, prs);
    AddIssues(store, d1, issues)
  }

  /** The commit-derived part of a candidate does not depend on PRs or
      issues: the first-author flag goes to the author of the oldest commit,
      and the change volume is their churn, exactly as in the Avelino
      estimator; engagement-only candidates have neither. */
  lemma CommitFactsKept(store: ContributorStore.Store, oldestFirst: seq<Commit>,
                        prs: seq<AnalysisTarget.Item>, issues: seq<AnalysisTarget.Item>, k: string)
    requires Dicts.Valid(store)
    requires FileCandidates(store, oldestFirst, prs, issues).Some?
    requires k in FileCandidates(store, oldestFirst, prs, issues).value.vals
    ensures var keys := AuthorKeys.CommitKeys(store, oldestFirst).value;
      var c := FileCandidates(store, oldestFirst, prs, issues).value.vals[k];
      && (k in keys ==> (c.first <==> oldestFirst[Seqs.IndexOf(keys, k)] == oldestFirst[0]))
      && c.changes == Authorship.VolumeOf(keys, oldestFirst, k)
      && (k !in keys ==> !c.first)
  {
    var keys := AuthorKeys.CommitKeys(store, oldestFirst).value;
    if k in keys {
      Authorship.CandidateFirst(keys, oldestFirst, k);
      Authorship.CandidateVolume(keys, oldestFirst, k);
    } else {
      Authorship.VolumeAbsent(keys, oldestFirst, k);
    }
  }

  // ━━━━ Degree of Knowledge ━━━━

  /** The part of the configuration the score reads: the DoA weights and the
      four engagement weights. */
  datatype Scoring = Scoring(weights: Authorship.DoaWeights, prsCreated: real, prComments: real,
                             issuesCreated: real, issueComments: real)

  function ScoringOf(cfg: Config): Scoring {
    Scoring(cfg.weights, cfg.prsCreatedWeight, cfg.prCommentsWeight, cfg.issuesCreatedWeight, cfg.issueCommentsWeight)
  }

  /** DoI: the weighted sum of the four engagement counters. */
  function Doi(cfg: Config, c: Candidate): real {
    DoiOf(ScoringOf(cfg), c)
  }

  function DoiOf(w: Scoring, c: Candidate): real {
    c.prsCreated as real * w.prsCreated + c.prsCommented as real * w.prComments
      + c.issuesCreated as real * w.issuesCreated + c.issuesCommented as real * w.issueComments
  }

  /** `_calc_dok_vals`: each candidate's DoA plus its DoI, unweighted. */
  function DokValues(cfg: Config, ln: real -> real, d: Candidates): (r: Dicts.Dict<string, real>)
    requires Dicts.Valid(d)
    ensures Dicts.Valid(r) && r.keys == d.keys
    ensures forall k :: k in r.vals <==> k in d.vals
  {
    DokTable(ScoringOf(cfg), ln, d)
  }

  function DokTable(w: Scoring, ln: real -> real, d: Candidates): (r: Dicts.Dict<string, real>)
    requires Dicts.Valid(d)
    ensures Dicts.Valid(r) && r.keys == d.keys
    ensures forall k :: k in r.vals <==> k in d.vals
  {
    Dicts.Dict(d.keys, map k | k in d.vals ::
      Authorship.Doa(w.weights, ln, d.vals[k], Authorship.ChangesExcept(d, d.keys, k)) + DoiOf(w, d.vals[k]))
  }

  /** DoK splits into the Avelino DoA of the same candidates and the DoI. */
  lemma DokSplits(cfg: Config, ln: real -> real, d: Candidates, k: string)
    requires Dicts.Valid(d) && k in d.vals
    ensures DokValues(cfg, ln, d).vals[k] ==
      Authorship.Doa(cfg.weights, ln, d.vals[k], Authorship.TotalChanges(d, d.keys) - d.vals[k].changes) + Doi(cfg, d.vals[k])
    ensures DokValues(cfg, ln, d).vals[k] == Authorship.DoaValues(cfg.weights, ln, d).vals[k] + Doi(cfg, d.vals[k])
  {
    Authorship.DoaValuesOthers(cfg.weights, ln, d, k);
  }

  /** With non-negative engagement weights, DoK is at least DoA. */
  lemma DokAtLeastDoa(cfg: Config, ln: real -> real, d: Candidates, k: string)
    requires Dicts.Valid(d) && k in d.vals
    requires cfg.prsCreatedWeight >= 0.0 && cfg.prCommentsWeight >= 0.0
    requires cfg.issuesCreatedWeight >= 0.0 && cfg.issueCommentsWeight >= 0.0
    ensures DokValues(cfg, ln, d).vals[k] >= Authorship.DoaValues(cfg.weights, ln, d).vals[k]
  {
    DokSplits(cfg, ln, d, k);
    DoiNonNegative(cfg, d.vals[k]);
  }

  lemma DoiNonNegative(cfg: Config, c: Candidate)
    requires cfg.prsCreatedWeight >= 0.0 && cfg.prCommentsWeight >= 0.0
    requires cfg.issuesCreatedWeight >= 0.0 && cfg.issueCommentsWeight >= 0.0
    ensures Doi(cfg, c) >= 0.0
  {
    Authorship.ScaleMonotone(0.0, c.prsCreated as real, cfg.prsCreatedWeight);
    Authorship.ScaleMonotone(0.0, c.prsCommented as real, cfg.prCommentsWeight);
    Authorship.ScaleMonotone(0.0, c.issuesCreated as real, cfg.issuesCreatedWeight);
    Authorship.ScaleMonotone(0.0, c.issuesCommented as real, cfg.issueCommentsWeight);
  }

  /** `doa_weight` and `doi_weight` play no part in the score. */
  lemma DokIgnoresMixWeights(cfg: Config, ln: real -> real, d: Candidates, doaWeight: real, doiWeight: real)
    requires Dicts.Valid(d)
    ensures DokValues(cfg.(doaWeight := doaWeight, doiWeight := doiWeight), ln, d) == DokValues(cfg, ln, d)
  {
    assert ScoringOf(cfg.(doaWeight := doaWeight, doiWeight := doiWeight)) == ScoringOf(cfg);
  }

  // ━━━━ Authors of one file ━━━━

  /** What the estimator reads of an `AnalysisTarget`. The PR and issue
      groupings may be absent. */
  datatype Target = Target(
    store: ContributorStore.Store,
    commits: seq<Commit>,
    issues: seq<Issue>,
    prs: seq<PullRequest>,
    commitsByFile: Dicts.Dict<string, seq<string>>,
    prsByFile: Option<Dicts.Dict<string, seq<int>>>,
    issuesByFile: Option<Dicts.Dict<string, seq<int>>>)

  ghost predicate WfTarget(t: Target) {
    Dicts.Valid(t.store) && Dicts.Valid(t.commitsByFile)
  }

  /** The PR or issue numbers grouped under a file: an absent grouping and a
      file missing from it both give no numbers. */
  function NumbersFor(byFile: Option<Dicts.Dict<string, seq<int>>>, f: string): (r: seq<int>)
    ensures r != [] ==> byFile.Some? && f in byFile.value.vals && r == byFile.value.vals[f]
    ensures byFile.Some? && f in byFile.value.vals ==> r == byFile.value.vals[f]
  {
    if byFile.None? then [] else Dicts.Get(byFile.value, f).GetOr([])
  }

  /** The PRs grouped under a file, in input order; none when nothing matches. */
  function FilePrs(t: Target, f: string): (r: seq<AnalysisTarget.Item>)
    ensures forall x :: x in r ==> x.PrItem? && x.pr in t.prs && x.pr.number in NumbersFor(t.prsByFile, f)
  {
    var found := AnalysisTarget.GetIssuesOrPrs([], t.prs, Some(NumbersFor(t.prsByFile, f)));
    if found.None? then []
    else
      assert found.value == AnalysisTarget.PrsNumbered(t.prs, NumbersFor(t.prsByFile, f));
      found.value
  }

  /** The issues grouped under a file, in input order; none when nothing matches. */
  function FileIssues(t: Target, f: string): (r: seq<AnalysisTarget.Item>)
    ensures forall x :: x in r ==> x.IssueItem? && x.issue in t.issues && x.issue.number in NumbersFor(t.issuesByFile, f)
  {
    var found := AnalysisTarget.GetIssuesOrPrs(t.issues, [], Some(NumbersFor(t.issuesByFile, f)));
    if found.None? then []
    else
      assert found.value == AnalysisTarget.IssuesNumbered(t.issues, NumbersFor(t.issuesByFile, f));
      found.value
  }

  /** The absolute DoK of each candidate of one file. `None` is a failed
      commit lookup or a participant the store cannot key. */
  function FileDoks(cfg: Config, ln: real -> real, t: Target, f: string): (r: Option<Dicts.Dict<string, real>>)
    requires WfTarget(t) && f in t.commitsByFile.vals
    ensures r.Some? ==> Authorship.RelevantCommits(t.commits, t.commitsByFile.vals[f]).Some?
    ensures r.Some? <==>
      (Authorship.RelevantCommits(t.commits, t.commitsByFile.vals[f]).Some? &&
       FileCandidates(t.store, Authorship.RelevantCommits(t.commits, t.commitsByFile.vals[f]).value,
                      FilePrs(t, f), FileIssues(t, f)).Some?)
    ensures r.Some? ==> Dicts.Valid(r.value)
    ensures r.Some? ==> var oldestFirst := Authorship.RelevantCommits(t.commits, t.commitsByFile.vals[f]).value;
      forall a :: a in AuthorKeys.CommitKeys(t.store, oldestFirst).value ==> a in r.value.vals
  {
    var oldestFirst :- Authorship.RelevantCommits(t.commits, t.commitsByFile.vals[f]);
    var d :- FileCandidates(t.store, oldestFirst, FilePrs(t, f), FileIssues(t, f));
    Some(DokValues(cfg, ln, d))
  }

  /** The authors of one file: normalised DoK strictly above the normalised
      threshold and DoK at least the absolute one. */
  function FileAuthors(cfg: Config, ln: real -> real, t: Target, f: string): (r: Option<seq<string>>)
    requires WfTarget(t) && f in t.commitsByFile.vals
    ensures r.Some? ==> Seqs.Distinct(r.value)
    ensures r.Some? <==> FileDoks(cfg, ln, t, f).Some? && Authorship.Normalise(FileDoks(cfg, ln, t, f).value).Some?
    ensures r.Some? ==> var abs := FileDoks(cfg, ln, t, f).value;
      forall a :: a in r.value <==>
        (a in abs.vals && abs.vals[a] / Authorship.MaxValue(abs) > cfg.normThreshold && abs.vals[a] >= cfg.absThreshold)
  {
    var doks := FileDoks(cfg, ln, t, f);
    if doks.None? then None else Authorship.AuthorsOf(doks.value, cfg.normThreshold, cfg.absThreshold)
  }

  function AllFileAuthors(cfg: Config, ln: real -> real, t: Target, files: seq<string>): (r: seq<Option<seq<string>>>)
    requires WfTarget(t) && forall i :: 0 <= i < |files| ==> files[i] in t.commitsByFile.vals
    ensures |r| == |files|
    ensures forall i :: 0 <= i < |files| ==> r[i] == FileAuthors(cfg, ln, t, files[i])
  {
    seq(|files|, i requires 0 <= i < |files| => FileAuthors(cfg, ln, t, files[i]))
  }

  /** The file-to-authors map over the files that are not third-party. */
  function AuthorMap(cfg: Config, ln: real -> real, isThirdParty: string -> bool, t: Target): (r: Option<Greedy.AuthorMap>)
    requires WfTarget(t)
    ensures var files := Authorship.FirstParty(t.commitsByFile.keys, isThirdParty);
      && (forall i :: 0 <= i < |files| ==> files[i] in t.commitsByFile.vals)
      && (r.Some? <==> forall i :: 0 <= i < |files| ==> FileAuthors(cfg, ln, t, files[i]).Some?)
      && (r.Some? ==> Greedy.Wf(r.value) && r.value.keys == files)
      && (r.Some? ==> forall i :: 0 <= i < |files| ==> FileAuthors(cfg, ln, t, files[i]) == Some(r.value.vals[files[i]]))
  {
    var files := Authorship.FirstParty(t.commitsByFile.keys, isThirdParty);
    assert forall i :: 0 <= i < |files| ==> files[i] in files;
    Authorship.Assemble(files, AllFileAuthors(cfg, ln, t, files))
  }

  /** Every first-party file gets the authors its own history gives it, and
      no third-party file is in the map. */
  lemma AuthorMapContents(cfg: Config, ln: real -> real, isThirdParty: string -> bool, t: Target, f: string)
    requires WfTarget(t) && AuthorMap(cfg, ln, isThirdParty, t).Some?
    ensures var m := AuthorMap(cfg, ln, isThirdParty, t).value;
      (f in m.vals <==> f in t.commitsByFile.vals && !isThirdParty(f))
      && (f in m.vals ==> Some(m.vals[f]) == FileAuthors(cfg, ln, t, f))
  {
    var files := Authorship.FirstParty(t.commitsByFile.keys, isThirdParty);
    if f in files {
      var i :| 0 <= i < |files| && files[i] == f;
    }
  }

  /** `run_estimation`: the truck factor and the authors popped to reach it. */
  method Estimate(cfg: Config, ln: real -> real, isThirdParty: string -> bool, t: Target)
    returns (r: Option<(nat, seq<string>)>)
    requires WfTarget(t)
    ensures r.Some? ==> AuthorMap(cfg, ln, isThirdParty, t).Some?
    ensures r.Some? ==> r.value.0 == |r.value.1| && Seqs.Distinct(r.value.1)
    ensures r.Some? ==> var m := AuthorMap(cfg, ln, isThirdParty, t).value;
      && Greedy.CoverageAfter(Greedy.FileCount, m, r.value.1).Some?
      && Greedy.CoverageAfter(Greedy.FileCount, m, r.value.1).value <= cfg.coverageThreshold
      && (forall a :: a in r.value.1 ==> exists f :: f in m.vals && a in m.vals[f])
    ensures r.Some? ==> var m := AuthorMap(cfg, ln, isThirdParty, t).value;
      var ranked := Greedy.RankByFileCount(Greedy.Invert(m));
      && |r.value.1| <= |ranked| && r.value.1 == ranked[..|r.value.1|]
      && forall j :: 0 <= j < |r.value.1| ==> Greedy.Continues(Greedy.FileCount, m, ranked[..j], cfg.coverageThreshold)
    ensures var m := AuthorMap(cfg, ln, isThirdParty, t);
      m.Some? && |m.value.keys| > 0 && cfg.coverageThreshold >= 0.0 ==> r.Some?
  {
    var m :- AuthorMap(cfg, ln, isThirdParty, t);
    r := Greedy.FileCountEstimate(m, cfg.coverageThreshold);
  }
}
