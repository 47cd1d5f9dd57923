/** The social-network estimator: a weighted directed graph of who asked,
    reviewed, assigned or commented on whom across the issues and pull
    requests, oldest first; the contributors whose importance in it clears a
    threshold are the truck factor. */
module SocialGraph {
  import opened Wrappers
  import Seqs
  import Dicts
  import opened Records
  import Ranking
  import GraphMeasures

  /** `ThresholdMode`: keep everyone above the threshold, or only the top
      share of them. */
  datatype ThresholdMode = Absolute | TopPercent

  /** `SocialGraphConfig`. */
  datatype Config = Config(
    freshWeight: real,
    metric: GraphMeasures.Metric,
    mode: ThresholdMode,
    pct: real,
    threshold: real)

  const Defaults := Config(1.0, GraphMeasures.DegreeCentrality, Absolute, 0.1, 0.55)

  /** The account name the hosting site shows for removed users. */
  const DeletedUser := "Deleted user"

  type Graph = GraphMeasures.Graph

  const EmptyGraph: Graph := GraphMeasures.Graph([], map[])

  // ━━━━ Adding one interaction ━━━━

  /** An interaction the network ignores: a self-reference, a deleted user or
      a suspected bot at either end. */
  predicate Rejected(src: string, dst: string, isBot: string -> bool) {
    src == dst || src == DeletedUser || dst == DeletedUser || isBot(src) || isBot(dst)
  }

  /** `nodes` with `v` appended when it is not there yet. */
  function AddNode(nodes: seq<string>, v: string): (r: seq<string>)
    ensures v in r && forall u :: u in r <==> u in nodes || u == v
    ensures Seqs.Distinct(nodes) ==> Seqs.Distinct(r)
    ensures |nodes| <= |r| && r[..|nodes|] == nodes
  {
    if v in nodes then nodes else nodes + [v]
  }

  /** `_add_or_update_social_edge`: a rejected interaction leaves the graph as
      it is; otherwise the edge from `src` to `dst` gains `freshWeight` (starting
      from 0 when new), its ends become nodes in that order, and every other
      edge keeps its weight. */
  function AddEdge(g: Graph, src: string, dst: string, freshWeight: real, isBot: string -> bool): (r: Graph)
    ensures Rejected(src, dst, isBot) ==> r == g
    ensures !Rejected(src, dst, isBot) ==>
      && (src, dst) in r.weight
      && r.weight[(src, dst)] == GraphMeasures.W(g, src, dst) + freshWeight
      && r.nodes == AddNode(AddNode(g.nodes, src), dst)
  {
    if Rejected(src, dst, isBot) then g
    else
      var w := GraphMeasures.W(g, src, dst) + freshWeight;
      GraphMeasures.Graph(AddNode(AddNode(g.nodes, src), dst), g.weight[(src, dst) := w])
  }

  /** Adding an interaction changes no other edge. */
  lemma AddEdgeOthers(g: Graph, src: string, dst: string, freshWeight: real, isBot: string -> bool, e: (string, string))
    requires e != (src, dst)
    ensures e in AddEdge(g, src, dst, freshWeight, isBot).weight <==> e in g.weight
    ensures e in g.weight ==> AddEdge(g, src, dst, freshWeight, isBot).weight[e] == g.weight[e]
  {
  }

  /** Adding a sequence of interactions, in order. */
  function AddAll(g: Graph, ps: seq<(string, string)>, freshWeight: real, isBot: string -> bool): Graph
  {
    if |ps| == 0 then g
    else
      var last := ps[|ps| - 1];
      AddEdge(AddAll(g, ps[..|ps| - 1], freshWeight, isBot), last.0, last.1, freshWeight, isBot)
  }

  /** Adding an interaction keeps the graph well formed: nodes stay distinct
      and every edge joins two nodes. */
  lemma AddEdgeWf(g: Graph, src: string, dst: string, freshWeight: real, isBot: string -> bool)
    requires GraphMeasures.Wf(g)
    ensures GraphMeasures.Wf(AddEdge(g, src, dst, freshWeight, isBot))
  {
  }

  lemma {:induction false} AddAllWf(g: Graph, ps: seq<(string, string)>, freshWeight: real, isBot: string -> bool)
    requires GraphMeasures.Wf(g)
    ensures GraphMeasures.Wf(AddAll(g, ps, freshWeight, isBot))
    decreases |ps|
  {
    if |ps| > 0 {
      var last := ps[|ps| - 1];
      AddAllWf(g, ps[..|ps| - 1], freshWeight, isBot);
      AddEdgeWf(AddAll(g, ps[..|ps| - 1], freshWeight, isBot), last.0, last.1, freshWeight, isBot);
    }
  }

  /** Starting from the empty network, exactly the accepted pairs that occur
      get an edge. */
  lemma {:induction false} EdgePresence(ps: seq<(string, string)>, freshWeight: real, isBot: string -> bool, src: string, dst: string)
    ensures (src, dst) in AddAll(EmptyGraph, ps, freshWeight, isBot).weight <==> !Rejected(src, dst, isBot) && (src, dst) in ps
    decreases |ps|
  {
    if |ps| > 0 {
      var p := (src, dst);
      var front := ps[..|ps| - 1];
      var last := ps[|ps| - 1];
      EdgePresence(front, freshWeight, isBot, src, dst);
      var g := AddAll(EmptyGraph, front, freshWeight, isBot);
      assert AddAll(EmptyGraph, ps, freshWeight, isBot) == AddEdge(g, last.0, last.1, freshWeight, isBot);
      if last != p {
        AddEdgeOthers(g, last.0, last.1, freshWeight, isBot, p);
      }
      assert p in ps <==> p in front || p == last by {
        assert ps == front + [last];
      }
    }
  }

  /** `n` copies of `x` added up: `n × x`, as `RepeatedIsProduct` shows. */
  function Repeated(n: nat, x: real): real {
    if n == 0 then 0.0 else Repeated(n - 1, x) + x
  }

  lemma {:induction false} RepeatedIsProduct(n: nat, x: real)
    ensures Repeated(n, x) == n as real * x
  {
    if n > 0 {
      RepeatedIsProduct(n - 1, x);
    }
  }

  /** An edge weighs `freshWeight` once for every occurrence of its pair:
      repeated interactions accumulate. */
  lemma {:induction false} EdgeWeightCounts(ps: seq<(string, string)>, freshWeight: real, isBot: string -> bool, src: string, dst: string)
    requires (src, dst) in AddAll(EmptyGraph, ps, freshWeight, isBot).weight
    ensures AddAll(EmptyGraph, ps, freshWeight, isBot).weight[(src, dst)] == Repeated(Seqs.Count(ps, (src, dst)), freshWeight)
    decreases |ps|
  {
    var p := (src, dst);
    var front := ps[..|ps| - 1];
    var last := ps[|ps| - 1];
    var g := AddAll(EmptyGraph, front, freshWeight, isBot);
    var h := AddAll(EmptyGraph, ps, freshWeight, isBot);
    assert h == AddEdge(g, last.0, last.1, freshWeight, isBot);
    var n := Seqs.Count(front, p);
    assert Seqs.Count(ps, p) == n + (if last == p then 1 else 0);
    EdgePresence(front, freshWeight, isBot, src, dst);
    EdgePresence(ps, freshWeight, isBot, src, dst);
    if p in g.weight {
      EdgeWeightCounts(front, freshWeight, isBot, src, dst);
    } else {
      Seqs.CountPositive(front, p);
    }
    WeightStep(g, h, last, p, n, Seqs.Count(ps, p), freshWeight, isBot);
  }

  /** One accepted or rejected interaction moves the count of a present edge
      by at most one occurrence. */
  lemma WeightStep(g: Graph, h: Graph, last: (string, string), p: (string, string), n: nat, m: nat,
                   freshWeight: real, isBot: string -> bool)
    requires h == AddEdge(g, last.0, last.1, freshWeight, isBot)
    requires p in h.weight && !Rejected(p.0, p.1, isBot)
    requires p in g.weight ==> g.weight[p] == Repeated(n, freshWeight)
    requires p !in g.weight ==> n == 0
    requires m == n + (if last == p then 1 else 0)
    ensures h.weight[p] == Repeated(m, freshWeight)
  {
    var w := GraphMeasures.W(g, p.0, p.1);
    if last == p {
      assert h.weight[p] == w + freshWeight;
    } else {
      AddEdgeOthers(g, last.0, last.1, freshWeight, isBot, p);
      assert h.weight[p] == w;
    }
  }

  /** Adding the same accepted interaction twice counts it twice: interactions
      do not merge. */
  lemma AddTwice(g: Graph, src: string, dst: string, freshWeight: real, isBot: string -> bool)
    requires !Rejected(src, dst, isBot)
    ensures var r := AddEdge(AddEdge(g, src, dst, freshWeight, isBot), src, dst, freshWeight, isBot);
      r.weight[(src, dst)] == GraphMeasures.W(g, src, dst) + 2.0 * freshWeight
  {
  }

  // ━━━━ The interactions of issues and pull requests ━━━━

  /** An issue or a pull request of the history. */
  datatype Item = PrItem(pr: PullRequest) | IssueItem(issue: Issue)

  function CreatedAt(item: Item): int {
    match item
    case PrItem(pr) => pr.createdAt
    case IssueItem(issue) => issue.createdAt
  }

  /** The name a person appears under: the profile name, or the username when
      there is none. */
  function DisplayName(u: User): (r: string)
    ensures u.name.Some? ==> r == u.name.value
    ensures u.name.None? ==> r == u.username
  {
    if u.name.None? then u.username else u.name.value
  }

  function DisplayNames(us: seq<User>): (r: seq<string>)
    ensures |r| == |us| && forall i :: 0 <= i < |us| ==> r[i] == DisplayName(us[i])
  {
    seq(|us|, i requires 0 <= i < |us| => DisplayName(us[i]))
  }

  /** Edges from one person to each of several. */
  function From(src: string, dsts: seq<string>): (r: seq<(string, string)>)
    ensures |r| == |dsts| && forall i :: 0 <= i < |dsts| ==> r[i] == (src, dsts[i])
  {
    seq(|dsts|, i requires 0 <= i < |dsts| => (src, dsts[i]))
  }

  /** Edges from each of several people to one. */
  function To(srcs: seq<string>, dst: string): (r: seq<(string, string)>)
    ensures |r| == |srcs| && forall i :: 0 <= i < |srcs| ==> r[i] == (srcs[i], dst)
  {
    seq(|srcs|, i requires 0 <= i < |srcs| => (srcs[i], dst))
  }

  /** The review authors of a pull request; reviews by deleted accounts are
      skipped. */
  function ReviewAuthors(reviews: seq<Comment>): (r: seq<string>)
    ensures forall a :: a in r <==> exists i :: 0 <= i < |reviews| && reviews[i].author.Some? && DisplayName(reviews[i].author.value) == a
  {
    if |reviews| == 0 then []
    else
      var front := reviews[..|reviews| - 1];
      var last := reviews[|reviews| - 1];
      var init := ReviewAuthors(front);
      assert forall i :: 0 <= i < |front| ==> front[i] == reviews[i];
      init + (if last.author.Some? then [DisplayName(last.author.value)] else [])
  }

  /** The comment authors; `None` when a comment has no author, which the
      estimator does not guard against. */
  function CommentAuthors(comments: seq<Comment>): (r: Option<seq<string>>)
    ensures r.Some? <==> forall i :: 0 <= i < |comments| ==> comments[i].author.Some?
    ensures r.Some? ==> |r.value| == |comments| && forall i :: 0 <= i < |comments| ==> r.value[i] == DisplayName(comments[i].author.value)
  {
    if |comments| == 0 then Some([])
    else
      var front := comments[..|comments| - 1];
      var last := comments[|comments| - 1];
      assert forall i :: 0 <= i < |front| ==> front[i] == comments[i];
      var init :- CommentAuthors(front);
      if last.author.None? then None
      else Some(init + [DisplayName(last.author.value)])
  }

  /** Every comment on the item has an author, so reading it does not crash. */
  predicate Authored(item: Item) {
    match item
    case PrItem(pr) => forall i :: 0 <= i < |pr.comments| ==> pr.comments[i].author.Some?
    case IssueItem(issue) => forall i :: 0 <= i < |issue.comments| ==> issue.comments[i].author.Some?
  }

  /** The interactions one item contributes, in the order they are added: for
      a pull request the creator asks each requested reviewer, then each review
      author answers the creator; then the creator assigns each assignee and
      each commenter talks to the creator. */
  function Interactions(item: Item): (r: Option<seq<(string, string)>>)
    ensures r.Some? <==> Authored(item)
    ensures r.Some? && item.IssueItem? ==>
      var issue := item.issue; var creator := DisplayName(issue.createdBy); var n := |issue.assignees|;
      && |r.value| == n + |issue.comments|
      && (forall i :: 0 <= i < n ==> r.value[i] == (creator, DisplayName(issue.assignees[i])))
      && (forall i :: 0 <= i < |issue.comments| ==> r.value[n + i] == (DisplayName(issue.comments[i].author.value), creator))
  {
    match item
    case PrItem(pr) =>
      var creator := DisplayName(pr.createdBy);
      var commenters :- CommentAuthors(pr.comments);
      Some(From(creator, DisplayNames(pr.requestedReviewers)) + To(ReviewAuthors(pr.reviews), creator)
           + From(creator, DisplayNames(pr.assignees)) + To(commenters, creator))
    case IssueItem(issue) =>
      var creator := DisplayName(issue.createdBy);
      var commenters :- CommentAuthors(issue.comments);
      Some(From(creator, DisplayNames(issue.assignees)) + To(commenters, creator))
  }

  /** A pull request's interactions in order: the creator asks each requested
      reviewer, each review author answers the creator, the creator assigns
      each assignee, and each commenter talks to the creator. */
  lemma {:induction false} PrInteractionsOrder(pr: PullRequest)
    requires Interactions(PrItem(pr)).Some?
    ensures PrLayout(Interactions(PrItem(pr)).value, DisplayName(pr.createdBy), pr.requestedReviewers,
                     ReviewAuthors(pr.reviews), pr.assignees, pr.comments)
  {
    PrInteractionsValue(pr);
    var commenters := CommentAuthors(pr.comments).value;
    Layout(Interactions(PrItem(pr)).value, DisplayName(pr.createdBy), pr.requestedReviewers,
           ReviewAuthors(pr.reviews), pr.assignees, pr.comments, commenters);
  }

  /** Where each edge of a pull request sits: `creator` asks each of
      `requested`, each of `reviewers` answers, `creator` assigns each of
      `assignees`, and each comment author talks to `creator`, in that order. */
  ghost predicate PrLayout(r: seq<(string, string)>, creator: string, requested: seq<User>, reviewers: seq<string>,
                           assignees: seq<User>, comments: seq<Comment>)
  {
    var n1 := |requested|; var n2 := n1 + |reviewers|; var n3 := n2 + |assignees|;
    && |r| == n3 + |comments|
    && (forall i :: 0 <= i < n1 ==> r[i] == (creator, DisplayName(requested[i])))
    && (forall i :: 0 <= i < |reviewers| ==> r[n1 + i] == (reviewers[i], creator))
    && (forall i :: 0 <= i < |assignees| ==> r[n2 + i] == (creator, DisplayName(assignees[i])))
    && (forall i :: 0 <= i < |comments| ==> comments[i].author.Some? && r[n3 + i] == (DisplayName(comments[i].author.value), creator))
  }

  lemma Layout(r: seq<(string, string)>, creator: string, requested: seq<User>, reviewers: seq<string>,
               assignees: seq<User>, comments: seq<Comment>, commenters: seq<string>)
    requires |commenters| == |comments|
    requires forall i :: 0 <= i < |comments| ==> comments[i].author.Some?
    requires forall i :: 0 <= i < |comments| ==> commenters[i] == DisplayName(comments[i].author.value)
    requires r == From(creator, DisplayNames(requested)) + To(reviewers, creator)
      + From(creator, DisplayNames(assignees)) + To(commenters, creator)
    ensures PrLayout(r, creator, requested, reviewers, assignees, comments)
  {
    Concat4(From(creator, DisplayNames(requested)), To(reviewers, creator),
            From(creator, DisplayNames(assignees)), To(commenters, creator));
  }

  lemma PrInteractionsValue(pr: PullRequest)
    requires Interactions(PrItem(pr)).Some?
    ensures CommentAuthors(pr.comments).Some?
    ensures var creator := DisplayName(pr.createdBy);
      Interactions(PrItem(pr)).value
        == From(creator, DisplayNames(pr.requestedReviewers)) + To(ReviewAuthors(pr.reviews), creator)
           + From(creator, DisplayNames(pr.assignees)) + To(CommentAuthors(pr.comments).value, creator)
  {
  }

  /** Where each part sits in the concatenation of four sequences. */
  lemma Concat4<T>(a: seq<T>, b: seq<T>, c: seq<T>, d: seq<T>)
    ensures var s := a + b + c + d;
      && |s| == |a| + |b| + |c| + |d|
      && (forall i :: 0 <= i < |a| ==> s[i] == a[i])
      && (forall i :: 0 <= i < |b| ==> s[|a| + i] == b[i])
      && (forall i :: 0 <= i < |c| ==> s[|a| + |b| + i] == c[i])
      && (forall i :: 0 <= i < |d| ==> s[|a| + |b| + |c| + i] == d[i])
  {
  }

  /** Every interaction of an item involves its creator. */
  lemma InteractionsTouchCreator(item: Item, p: (string, string))
    requires Interactions(item).Some? && p in Interactions(item).value
    ensures var creator := match item
      case PrItem(pr) => DisplayName(pr.createdBy)
      case IssueItem(issue) => DisplayName(issue.createdBy);
      p.0 == creator || p.1 == creator
  {
  }

  /** All interactions of a sequence of items, item by item. */
  function AllInteractions(items: seq<Item>): (r: Option<seq<(string, string)>>)
    ensures r.Some? <==> forall i :: 0 <= i < |items| ==> Authored(items[i])
  {
    if |items| == 0 then Some([])
    else
      var front := items[..|items| - 1];
      assert forall i :: 0 <= i < |front| ==> front[i] == items[i];
      var init :- AllInteractions(front);
      var last :- Interactions(items[|items| - 1]);
      Some(init + last)
  }

  /** The pull requests followed by the issues. */
  function ItemsOf(prs: seq<PullRequest>, issues: seq<Issue>): (r: seq<Item>)
    ensures |r| == |prs| + |issues|
    ensures forall i :: 0 <= i < |prs| ==> r[i] == PrItem(prs[i])
    ensures forall j :: 0 <= j < |issues| ==> r[|prs| + j] == IssueItem(issues[j])
  {
    seq(|prs|, i requires 0 <= i < |prs| => PrItem(prs[i])) + seq(|issues|, j requires 0 <= j < |issues| => IssueItem(issues[j]))
  }

  /** Each item scored by its negated creation time, so that a descending
      sort lists the oldest first. */
  function ByTime(items: seq<Item>): (r: seq<(Item, real)>)
    ensures |r| == |items|
    ensures forall i :: 0 <= i < |items| ==> r[i] == (items[i], -(CreatedAt(items[i]) as real))
  {
    seq(|items|, i requires 0 <= i < |items| => (items[i], -(CreatedAt(items[i]) as real)))
  }

  /** `sorted(..., key=created_at)`: the items oldest first, those created
      at the same time in their original order. */
  function Chronological(items: seq<Item>): (r: seq<Item>)
    ensures multiset(r) == multiset(items)
    ensures forall i, j :: 0 <= i < j < |r| ==> CreatedAt(r[i]) <= CreatedAt(r[j])
  {
    ChronologicalOrder(items);
    Ranking.KeysOf(Ranking.SortDesc(ByTime(items)))
  }

  lemma ChronologicalOrder(items: seq<Item>)
    ensures var r := Ranking.KeysOf(Ranking.SortDesc(ByTime(items)));
      && multiset(r) == multiset(items)
      && forall i, j :: 0 <= i < j < |r| ==> CreatedAt(r[i]) <= CreatedAt(r[j])
  {
    var keyed := ByTime(items);
    var sorted := Ranking.SortDesc(keyed);
    Ranking.SortDescSorted(keyed);
    Ranking.SortDescKeys(keyed);
    assert Ranking.KeysOf(keyed) == items;
    forall i | 0 <= i < |sorted|
      ensures sorted[i].1 == -(CreatedAt(sorted[i].0) as real)
    {
      assert sorted[i] in multiset(keyed);
      var j :| 0 <= j < |keyed| && keyed[j] == sorted[i];
    }
    SortedKeysAscending(sorted);
  }

  /** A descending sort on negated creation times lists the items oldest
      first. */
  lemma SortedKeysAscending(sorted: seq<(Item, real)>)
    requires Ranking.SortedDesc(sorted)
    requires forall i :: 0 <= i < |sorted| ==> sorted[i].1 == -(CreatedAt(sorted[i].0) as real)
    ensures forall i, j :: 0 <= i < j < |sorted| ==> CreatedAt(Ranking.KeysOf(sorted)[i]) <= CreatedAt(Ranking.KeysOf(sorted)[j])
  {
  }

  /** Items created at the same time keep their relative order: the sort is
      stable. Every item sharing the sort key `v` (the negated creation time)
      appears in the same order before and after sorting. */
  lemma {:induction false} ChronologicalStable(items: seq<Item>, v: real)
    ensures Ranking.WithScore(Ranking.SortDesc(ByTime(items)), v) == Ranking.WithScore(ByTime(items), v)
  {
    Ranking.SortDescStable(ByTime(items), v);
  }

  /** `_build_social_network`. `None` is a crash on a comment without an
      author. */
  function BuildNetwork(prs: seq<PullRequest>, issues: seq<Issue>, freshWeight: real, isBot: string -> bool): (r: Option<Graph>)
    ensures r.Some? <==> AllInteractions(Chronological(ItemsOf(prs, issues))).Some?
    ensures r.Some? ==> GraphMeasures.Wf(r.value)
  {
    var ps :- AllInteractions(Chronological(ItemsOf(prs, issues)));
    AddAllWf(EmptyGraph, ps, freshWeight, isBot);
    Some(AddAll(EmptyGraph, ps, freshWeight, isBot))
  }

  // ━━━━ The threshold cut ━━━━

  /** Python's `s[:n]` for an integer `n`: a negative `n` counts from the end. */
  function SliceTo<T>(s: seq<T>, n: int): (r: seq<T>)
    ensures |r| <= |s| && r == s[..|r|]
    ensures 0 <= n <= |s| ==> r == s[..n]
    ensures n > |s| ==> r == s
    ensures n < 0 ==> r == s[..if |s| + n < 0 then 0 else |s| + n]
  {
    if n >= 0 then (if n <= |s| then s[..n] else s)
    else if |s| + n < 0 then [] else s[..|s| + n]
  }

  /** The contributors by descending score, ties in key order. */
  function Ranked(scores: Dicts.Dict<string, real>): (r: seq<(string, real)>)
    requires Dicts.Valid(scores)
    ensures Ranking.SortedDesc(r)
    ensures multiset(r) == multiset(Dicts.Items(scores))
  {
    Ranking.SortDescSorted(Dicts.Items(scores));
    Ranking.SortDesc(Dicts.Items(scores))
  }

  /** How many of `count` contributors percentage mode keeps:
      `round(pct × count)`. */
  function TopCount(cfg: Config, count: nat, round: real -> int): int {
    round(cfg.pct * count as real)
  }

  /** The contributors kept by the threshold cut, most important first:
      those scoring strictly above the threshold, of which percentage mode
      keeps the first `round(pct × count)`. `round` is the given rounding
      function. The cut is a prefix of the ranking. */
  function Cut(cfg: Config, scores: Dicts.Dict<string, real>, round: real -> int): (r: seq<(string, real)>)
    requires Dicts.Valid(scores)
    ensures |r| <= |Ranked(scores)| && r == Ranked(scores)[..|r|]
    ensures forall i :: 0 <= i < |r| ==> r[i].1 > cfg.threshold
    ensures cfg.mode.Absolute? ==> r == Ranking.Above(Ranked(scores), cfg.threshold)
    ensures cfg.mode.TopPercent? ==> var above := Ranking.Above(Ranked(scores), cfg.threshold);
      r == SliceTo(above, TopCount(cfg, |above|, round))
  {
    var ranked := Ranked(scores);
    var above := Ranking.Above(ranked, cfg.threshold);
    Ranking.AboveIsPrefix(ranked, cfg.threshold);
    var r := if cfg.mode.TopPercent? then SliceTo(above, TopCount(cfg, |above|, round)) else above;
    PrefixOfAbove(ranked, above, r, cfg.threshold);
    r
  }

  lemma PrefixOfAbove(ranked: seq<(string, real)>, above: seq<(string, real)>, r: seq<(string, real)>, t: real)
    requires above == Ranking.Above(ranked, t) && above == ranked[..|above|]
    requires |r| <= |above| && r == above[..|r|]
    ensures |r| <= |ranked| && r == ranked[..|r|]
    ensures forall i :: 0 <= i < |r| ==> r[i].1 > t
  {
    assert forall i :: 0 <= i < |r| ==> r[i] == above[i] && above[i] in above;
  }

  /** In absolute mode exactly the contributors scoring above the threshold
      are kept. */
  lemma CutAbsolute(cfg: Config, scores: Dicts.Dict<string, real>, round: real -> int, k: string)
    requires Dicts.Valid(scores) && cfg.mode.Absolute?
    ensures k in Ranking.KeysOf(Cut(cfg, scores, round)) <==> k in scores.vals && scores.vals[k] > cfg.threshold
  {
    assert Cut(cfg, scores, round) == Ranking.Above(Ranked(scores), cfg.threshold);
    if k in scores.vals && scores.vals[k] > cfg.threshold {
      AboveKeepsHigh(scores, cfg.threshold, k);
    }
    if k in Ranking.KeysOf(Ranking.Above(Ranked(scores), cfg.threshold)) {
      AboveOnlyHigh(scores, cfg.threshold, k);
    }
  }

  lemma AboveKeepsHigh(scores: Dicts.Dict<string, real>, threshold: real, k: string)
    requires Dicts.Valid(scores) && k in scores.vals && scores.vals[k] > threshold
    ensures k in Ranking.KeysOf(Ranking.Above(Ranked(scores), threshold))
  {
    var above := Ranking.Above(Ranked(scores), threshold);
    var items := Dicts.Items(scores);
    var i :| 0 <= i < |scores.keys| && scores.keys[i] == k;
    assert items[i] in multiset(Ranked(scores));
    assert items[i] in above;
    var j :| 0 <= j < |above| && above[j] == items[i];
    assert Ranking.KeysOf(above)[j] == k;
  }

  lemma AboveOnlyHigh(scores: Dicts.Dict<string, real>, threshold: real, k: string)
    requires Dicts.Valid(scores) && k in Ranking.KeysOf(Ranking.Above(Ranked(scores), threshold))
    ensures k in scores.vals && scores.vals[k] > threshold
  {
    var above := Ranking.Above(Ranked(scores), threshold);
    var items := Dicts.Items(scores);
    var j :| 0 <= j < |above| && Ranking.KeysOf(above)[j] == k;
    assert above[j] in above;
    assert above[j] in multiset(items);
    var m :| 0 <= m < |items| && items[m] == above[j];
  }

  /** `run_estimation`: the number of contributors the cut keeps, and their
      names in descending importance. `None` is a crash building the
      network. */
  function Estimate(cfg: Config, prs: seq<PullRequest>, issues: seq<Issue>, isBot: string -> bool,
                    pageRank: Graph -> Dicts.Dict<string, real>, betweenness: Graph -> Dicts.Dict<string, real>,
                    round: real -> int): (r: Option<(nat, seq<string>)>)
    requires forall g :: Dicts.Valid(pageRank(g)) && Dicts.Valid(betweenness(g))
    ensures r.Some? <==> BuildNetwork(prs, issues, cfg.freshWeight, isBot).Some?
    ensures r.Some? ==> r.value.0 == |r.value.1|
    ensures r.Some? ==>
      var g := BuildNetwork(prs, issues, cfg.freshWeight, isBot).value;
      var scores := GraphMeasures.Importance(cfg.metric, g, pageRank, betweenness);
      var ranked := Ranking.KeysOf(Ranked(scores));
      |r.value.1| <= |ranked| && r.value.1 == ranked[..|r.value.1|]
    ensures r.Some? ==>
      var g := BuildNetwork(prs, issues, cfg.freshWeight, isBot).value;
      var scores := GraphMeasures.Importance(cfg.metric, g, pageRank, betweenness);
      r.value.1 == Ranking.KeysOf(Cut(cfg, scores, round))
  {
    var g :- BuildNetwork(prs, issues, cfg.freshWeight, isBot);
    var scores := GraphMeasures.Importance(cfg.metric, g, pageRank, betweenness);
    var kept := Cut(cfg, scores, round);
    var names := Ranking.KeysOf(kept);
    Ranking.KeysOfPrefix(Ranked(scores), |kept|);
    Some((|names|, names))
  }
}
