/** Weighted directed graphs as the estimators build them with `networkx`, and
    the three weighted degree centralities of `graph_measures.py`. */
module GraphMeasures {
  import Seqs
  import Dicts

  /** A weighted `nx.DiGraph`: its nodes in insertion order and the weight of
      each edge. */
  datatype Graph = Graph(nodes: seq<string>, weight: map<(string, string), real>)

  /** Nodes are listed once and every edge joins two nodes. */
  ghost predicate Wf(g: Graph) {
    Seqs.Distinct(g.nodes) && forall e :: e in g.weight ==> e.0 in g.nodes && e.1 in g.nodes
  }

  /** The weight of the edge from `u` to `v`, 0 when there is none. */
  function W(g: Graph, u: string, v: string): real {
    if (u, v) in g.weight then g.weight[(u, v)] else 0.0
  }

  /** The weights of the edges into `v`, one per node in node order. */
  function InWeights(g: Graph, v: string): seq<real>
  {
    seq(|g.nodes|, i requires 0 <= i < |g.nodes| => W(g, g.nodes[i], v))
  }

  /** The weights of the edges out of `u`, one per node in node order. */
  function OutWeights(g: Graph, u: string): seq<real>
  {
    seq(|g.nodes|, i requires 0 <= i < |g.nodes| => W(g, u, g.nodes[i]))
  }

  /** `g.in_degree(weight="weight")` of one node. */
  function InDegree(g: Graph, v: string): real {
    Seqs.Sum(InWeights(g, v))
  }

  /** `g.out_degree(weight="weight")` of one node. */
  function OutDegree(g: Graph, u: string): real {
    Seqs.Sum(OutWeights(g, u))
  }

  /** `g.degree(weight="weight")`: a directed graph's degree counts the edges
      in both directions, so a self-loop counts twice. */
  function Degree(g: Graph, v: string): real {
    InDegree(g, v) + OutDegree(g, v)
  }

  datatype Direction = In | Out | Both

  function DegreeOf(g: Graph, d: Direction, v: string): real {
    match d
    case In => InDegree(g, v)
    case Out => OutDegree(g, v)
    case Both => Degree(g, v)
  }

  /** `weighted_in_deg_cent`, `weighted_out_deg_cent` and `weighted_deg_cent`:
      each node's weighted degree over the number of nodes, keyed in node
      order. An empty graph gives an empty map and divides by nothing. */
  function Centrality(g: Graph, d: Direction): (r: Dicts.Dict<string, real>)
    requires Wf(g)
    ensures Dicts.Valid(r) && r.keys == g.nodes
    ensures forall v :: v in r.vals ==> r.vals[v] == DegreeOf(g, d, v) / |g.nodes| as real
  {
    if |g.nodes| == 0 then Dicts.Empty()
    else
      var n := |g.nodes| as real;
      Dicts.Dict(g.nodes, map v | v in g.nodes :: DegreeOf(g, d, v) / n)
  }

  /** The importance metrics of both graph estimators (`FileImportanceMetric`
      and `ImportanceMetric`). */
  datatype Metric = PageRank | InDegreeCentrality | OutDegreeCentrality | Betweenness | DegreeCentrality

  /** The metric's score of every node. The degree centralities are the ones
      above; PageRank and betweenness centrality come from the graph library
      and stand here as the given functions. */
  function Importance(metric: Metric, g: Graph, pageRank: Graph -> Dicts.Dict<string, real>,
                      betweenness: Graph -> Dicts.Dict<string, real>): (r: Dicts.Dict<string, real>)
    requires Wf(g)
    requires Dicts.Valid(pageRank(g)) && Dicts.Valid(betweenness(g))
    ensures Dicts.Valid(r)
    ensures metric.InDegreeCentrality? ==> r == Centrality(g, In)
    ensures metric.OutDegreeCentrality? ==> r == Centrality(g, Out)
    ensures metric.DegreeCentrality? ==> r == Centrality(g, Both)
    ensures !metric.PageRank? && !metric.Betweenness? ==> r.keys == g.nodes
  {
    match metric
    case PageRank => pageRank(g)
    case InDegreeCentrality => Centrality(g, In)
    case OutDegreeCentrality => Centrality(g, Out)
    case Betweenness => betweenness(g)
    case DegreeCentrality => Centrality(g, Both)
  }

  /** A node no edge touches scores 0 under every centrality. */
  lemma IsolatedScoresZero(g: Graph, d: Direction, v: string)
    requires Wf(g) && v in g.nodes
    requires forall e :: e in g.weight ==> e.0 != v && e.1 != v
    ensures Centrality(g, d).vals[v] == 0.0
  {
    IsolatedDegreeZero(g, v);
    assert DegreeOf(g, d, v) == 0.0;
    CentralityAt(g, d, v);
  }

  /** A node no edge touches has in-degree and out-degree 0. */
  lemma IsolatedDegreeZero(g: Graph, v: string)
    requires forall e :: e in g.weight ==> e.0 != v && e.1 != v
    ensures InDegree(g, v) == 0.0 && OutDegree(g, v) == 0.0
  {
    var ins, outs := InWeights(g, v), OutWeights(g, v);
    assert forall i :: 0 <= i < |ins| ==> ins[i] == W(g, g.nodes[i], v) == 0.0;
    assert forall i :: 0 <= i < |outs| ==> outs[i] == W(g, v, g.nodes[i]) == 0.0;
    ZeroSum(ins);
    ZeroSum(outs);
  }

  lemma CentralityAt(g: Graph, d: Direction, v: string)
    requires Wf(g) && v in g.nodes
    ensures v in Centrality(g, d).vals
    ensures Centrality(g, d).vals[v] == DegreeOf(g, d, v) / |g.nodes| as real
  {
  }

  lemma ZeroSum(s: seq<real>)
    requires forall i :: 0 <= i < |s| ==> s[i] == 0.0
    ensures Seqs.Sum(s) == 0.0
  {
    Seqs.SumAtMost(s, 0.0);
    Seqs.SumAtLeast(s, 0.0);
  }

  /** Total-degree centrality is in-centrality plus out-centrality. */
  lemma BothIsInPlusOut(g: Graph, v: string)
    requires Wf(g) && v in g.nodes
    ensures Centrality(g, Both).vals[v] == Centrality(g, In).vals[v] + Centrality(g, Out).vals[v]
  {
    var n := |g.nodes| as real;
    CentralityAt(g, Both, v);
    CentralityAt(g, In, v);
    CentralityAt(g, Out, v);
    DivideSum(InDegree(g, v), OutDegree(g, v), DegreeOf(g, Both, v), n,
              Centrality(g, Both).vals[v], Centrality(g, In).vals[v], Centrality(g, Out).vals[v]);
  }

  lemma DivideSum(a: real, b: real, s: real, n: real, whole: real, x: real, y: real)
    requires n > 0.0 && s == a + b && whole == s / n && x == a / n && y == b / n
    ensures whole == x + y
  {
  }

  // The sums of the two centralities

  /** The weight matrix: row `i`, column `j` is the edge from the `i`-th to
      the `j`-th node. */
  function Matrix(g: Graph): (r: seq<seq<real>>)
    ensures |r| == |g.nodes|
    ensures forall i :: 0 <= i < |r| ==> r[i] == OutWeights(g, g.nodes[i])
  {
    seq(|g.nodes|, i requires 0 <= i < |g.nodes| => OutWeights(g, g.nodes[i]))
  }

  /** The total weight of all edges between listed nodes. */
  function TotalWeight(g: Graph): real {
    Seqs.Sum(RowTotals(Matrix(g)))
  }

  function RowTotals(m: seq<seq<real>>): (r: seq<real>)
    ensures |r| == |m| && forall i :: 0 <= i < |m| ==> r[i] == Seqs.Sum(m[i])
  {
    seq(|m|, i requires 0 <= i < |m| => Seqs.Sum(m[i]))
  }

  function Column(m: seq<seq<real>>, j: nat): (r: seq<real>)
    requires forall i :: 0 <= i < |m| ==> j < |m[i]|
    ensures |r| == |m| && forall i :: 0 <= i < |m| ==> r[i] == m[i][j]
  {
    seq(|m|, i requires 0 <= i < |m| => m[i][j])
  }

  function ColumnTotals(m: seq<seq<real>>, width: nat): (r: seq<real>)
    requires forall i :: 0 <= i < |m| ==> |m[i]| == width
    ensures |r| == width && forall j :: 0 <= j < width ==> r[j] == Seqs.Sum(Column(m, j))
  {
    seq(width, j requires 0 <= j < width => Seqs.Sum(Column(m, j)))
  }

  function AddSeqs(a: seq<real>, b: seq<real>): (r: seq<real>)
    requires |a| == |b|
    ensures |r| == |a| && forall i :: 0 <= i < |a| ==> r[i] == a[i] + b[i]
  {
    seq(|a|, i requires 0 <= i < |a| => a[i] + b[i])
  }

  lemma {:induction false} SumAdd(a: seq<real>, b: seq<real>)
    requires |a| == |b|
    ensures Seqs.Sum(AddSeqs(a, b)) == Seqs.Sum(a) + Seqs.Sum(b)
    decreases |a|
  {
    if |a| > 0 {
      var n := |a| - 1;
      assert AddSeqs(a, b)[..n] == AddSeqs(a[..n], b[..n]);
      SumAdd(a[..n], b[..n]);
    }
  }

  /** Summing a matrix row by row or column by column gives the same total. */
  lemma {:induction false} SumExchange(m: seq<seq<real>>, width: nat)
    requires forall i :: 0 <= i < |m| ==> |m[i]| == width
    ensures Seqs.Sum(RowTotals(m)) == Seqs.Sum(ColumnTotals(m, width))
    decreases |m|
  {
    if |m| == 0 {
      EmptyColumnTotals(m, width);
    } else {
      var top := m[..|m| - 1];
      var last := m[|m| - 1];
      SumExchange(top, width);
      assert RowTotals(m)[..|m| - 1] == RowTotals(top);
      ColumnTotalsSnoc(m, width);
      SumAdd(ColumnTotals(top, width), last);
    }
  }

  lemma EmptyColumnTotals(m: seq<seq<real>>, width: nat)
    requires |m| == 0
    ensures Seqs.Sum(ColumnTotals(m, width)) == 0.0
  {
    assert forall j :: 0 <= j < width ==> Column(m, j) == [];
    Seqs.SumAtMost(ColumnTotals(m, width), 0.0);
    Seqs.SumAtLeast(ColumnTotals(m, width), 0.0);
  }

  /** Adding a last row adds it to the column totals. */
  lemma ColumnTotalsSnoc(m: seq<seq<real>>, width: nat)
    requires |m| > 0 && forall i :: 0 <= i < |m| ==> |m[i]| == width
    ensures ColumnTotals(m, width) == AddSeqs(ColumnTotals(m[..|m| - 1], width), m[|m| - 1])
  {
    var top := m[..|m| - 1];
    forall j | 0 <= j < width
      ensures ColumnTotals(m, width)[j] == AddSeqs(ColumnTotals(top, width), m[|m| - 1])[j]
    {
      assert Column(m, j)[..|m| - 1] == Column(top, j);
    }
  }

  /** The column totals of the weight matrix are the in-degrees. */
  lemma ColumnsAreInDegrees(g: Graph)
    ensures ColumnTotals(Matrix(g), |g.nodes|) == seq(|g.nodes|, j requires 0 <= j < |g.nodes| => InDegree(g, g.nodes[j]))
  {
    var m := Matrix(g);
    forall j | 0 <= j < |g.nodes|
      ensures Column(m, j) == InWeights(g, g.nodes[j])
    {
    }
  }

  /** The out-centralities sum to the total edge weight over the node count. */
  lemma OutCentralitySum(g: Graph)
    requires Wf(g) && |g.nodes| > 0
    ensures Dicts.SumValues(Centrality(g, Out)) == TotalWeight(g) / |g.nodes| as real
  {
    var n := |g.nodes| as real;
    var rows := RowTotals(Matrix(g));
    var outs := Dicts.Values(Centrality(g, Out));
    forall i | 0 <= i < |outs|
      ensures outs[i] == Seqs.Scaled(rows, n)[i]
    {
      CentralityAt(g, Out, g.nodes[i]);
    }
    assert outs == Seqs.Scaled(rows, n);
    Seqs.SumScaled(rows, n);
  }

  /** The in-centralities sum to the same: every edge weight is counted once
      at its target instead of its source. */
  lemma InCentralitySum(g: Graph)
    requires Wf(g) && |g.nodes| > 0
    ensures Dicts.SumValues(Centrality(g, In)) == TotalWeight(g) / |g.nodes| as real
  {
    var n := |g.nodes| as real;
    var m := Matrix(g);
    var cols := ColumnTotals(m, |g.nodes|);
    var ins := Dicts.Values(Centrality(g, In));
    ColumnsAreInDegrees(g);
    forall i | 0 <= i < |ins|
      ensures ins[i] == Seqs.Scaled(cols, n)[i]
    {
      CentralityAt(g, In, g.nodes[i]);
    }
    assert ins == Seqs.Scaled(cols, n);
    Seqs.SumScaled(cols, n);
    SumExchange(m, |g.nodes|);
  }
}
