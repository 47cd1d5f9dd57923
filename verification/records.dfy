/** The repository history the estimators read: commits with their per-file
    change statistics, issues and pull requests with their people and
    comments. Timestamps are integers (seconds on one time line); only their
    order matters to the model. Fields no modelled operation reads are left out. */
module Records {
  import opened Wrappers

  /** One file touched by a commit, with its line counts. */
  datatype ChangeStat = ChangeStat(file: string, additions: int, deletions: int)

  datatype Commit = Commit(
    treeHash: string,
    commitHash: string,
    authorName: string,
    authorEmail: Option<string>,
    authorDate: int,
    committerName: string,
    committerEmail: Option<string>,
    committerDate: int,
    subject: string,
    body: Option<string>,
    changes: seq<ChangeStat>)

  /** A hosting-site account; `name` and `email` are optional profile fields. */
  datatype User = User(username: string, name: Option<string>, email: Option<string>)

  /** An issue or PR comment, or a PR review; the author may be a deleted account. */
  datatype Comment = Comment(author: Option<User>, createdAt: int, body: string)

  datatype Issue = Issue(
    number: int,
    title: string,
    createdAt: int,
    createdBy: User,
    body: string,
    comments: seq<Comment>,
    assignees: seq<User>)

  datatype PullRequest = PullRequest(
    number: int,
    title: string,
    createdAt: int,
    createdBy: User,
    body: string,
    comments: seq<Comment>,
    assignees: seq<User>,
    commits: seq<Commit>,
    requestedReviewers: seq<User>,
    reviews: seq<Comment>)

  /** Collected history, newest item first in every list. */
  datatype RepoData = RepoData(commits: seq<Commit>, issues: seq<Issue>, prs: seq<PullRequest>)
}
