/** The Haratian file dependency graph: one node per known file and an edge
    from each parsed file to every known file its imports resolve to, weighted
    by the number of those imports; and the importance score each file gets
    from it. */
module ImportGraph {
  import opened Wrappers
  import Seqs
  import Dicts
  import HaratianPaths
  import GraphMeasures

  /** A source file reached by walking the clone: its absolute path and the
      import nodes of its parse tree, in tree order. */
  datatype SourceFile = SourceFile(path: string, nodes: seq<HaratianPaths.ImportNode>)

  /** What resolving a path to a known file takes: the clone's path, the known
      files, the project name and the fuzzy scorer (`fuzz.partial_ratio`). */
  datatype Resolver = Resolver(repo: string, known: seq<string>, project: string, score: (string, string) -> int)

  function Resolve(res: Resolver, p: string): Option<Option<string>> {
    HaratianPaths.MapToKnown(res.repo, p, res.known, res.project, res.score)
  }

  /** The known files a file's imports resolve to, in import order; imports
      that resolve to nothing are dropped. `None` when one crashes. */
  function Targets(resolve: string -> Option<Option<string>>, imports: seq<string>): (r: Option<seq<string>>)
    ensures r.Some? <==> forall i :: 0 <= i < |imports| ==> resolve(imports[i]).Some?
    ensures r.Some? ==> |r.value| <= |imports|
    ensures r.Some? ==> forall t :: t in r.value <==> Resolves(resolve, imports, t)
  {
    if |imports| == 0 then Some([])
    else
      var front := imports[..|imports| - 1];
      var init := Targets(resolve, front);
      var last := resolve(imports[|imports| - 1]);
      assert forall i :: 0 <= i < |imports| - 1 ==> front[i] == imports[i];
      if init.None? || last.None? then None
      else Some(init.value + (if last.value.Some? then [last.value.value] else []))
  }

  /** Some import resolves to the known file `t`. */
  predicate Resolves(resolve: string -> Option<Option<string>>, imports: seq<string>, t: string)
  {
    |imports| > 0 &&
    (resolve(imports[|imports| - 1]) == Some(Some(t)) || Resolves(resolve, imports[..|imports| - 1], t))
  }

  /** `relative_imported_paths`: how often each target occurs, keyed in
      first-occurrence order. */
  function CountTargets(ts: seq<string>): (r: Dicts.Dict<string, real>)
    ensures Dicts.Valid(r)
    ensures forall t :: t in r.vals <==> t in ts
    ensures forall t :: t in r.vals ==> r.vals[t] == Seqs.Count(ts, t) as real
  {
    OccurrencesCount(ts);
    Occurrences(ts)
  }

  /** The counting loop: each target adds one to its entry, a new target
      enters at the end. */
  function Occurrences(ts: seq<string>): (r: Dicts.Dict<string, real>)
    ensures Dicts.Valid(r)
  {
    if |ts| == 0 then Dicts.Empty()
    else
      var init := Occurrences(ts[..|ts| - 1]);
      var t := ts[|ts| - 1];
      Dicts.Put(init, t, if t in init.vals then init.vals[t] + 1.0 else 1.0)
  }

  lemma {:induction false} OccurrencesCount(ts: seq<string>)
    ensures forall t :: t in Occurrences(ts).vals <==> t in ts
    ensures forall t :: t in Occurrences(ts).vals ==> Occurrences(ts).vals[t] == Seqs.Count(ts, t) as real
    decreases |ts|
  {
    if |ts| > 0 {
      var t := ts[|ts| - 1];
      OccurrencesCount(ts[..|ts| - 1]);
      assert ts == ts[..|ts| - 1] + [t];
      assert forall x :: Seqs.Count(ts, x) == Seqs.Count(ts[..|ts| - 1], x) + (if x == t then 1 else 0);
      Seqs.CountPositive(ts[..|ts| - 1], t);
    }
  }

  /** Every resolved import is counted once: the counts add up to the number
      of targets. */
  lemma CountTargetsTotal(ts: seq<string>)
    ensures Dicts.SumValues(CountTargets(ts)) == |ts| as real
  {
    OccurrencesTotal(ts);
  }

  lemma {:induction false} OccurrencesTotal(ts: seq<string>)
    ensures Dicts.SumValues(Occurrences(ts)) == |ts| as real
    decreases |ts|
  {
    if |ts| > 0 {
      var init := Occurrences(ts[..|ts| - 1]);
      OccurrencesTotal(ts[..|ts| - 1]);
      CountOne(init, ts[|ts| - 1], Occurrences(ts), (|ts| - 1) as real);
    }
  }

  /** Counting one more occurrence raises the total by one. */
  lemma CountOne(init: Dicts.Dict<string, real>, t: string, d: Dicts.Dict<string, real>, total: real)
    requires Dicts.Valid(init) && Dicts.SumValues(init) == total
    requires d == Dicts.Put(init, t, if t in init.vals then init.vals[t] + 1.0 else 1.0)
    ensures Dicts.SumValues(d) == total + 1.0
  {
    if t in init.vals {
      Dicts.SumValuesPutExisting(init, t, init.vals[t] + 1.0);
    } else {
      Dicts.SumValuesPutNew(init, t, 1.0);
    }
  }

  /** `add_edge(importer, t, weight=count)` for every counted target: an
      existing edge takes the new weight, other edges stay. */
  function SetEdges(w: map<(string, string), real>, importer: string, counts: Dicts.Dict<string, real>): (r: map<(string, string), real>)
    ensures forall e :: e in r <==> e in w || (e.0 == importer && e.1 in counts.vals)
    ensures forall e :: e in r ==> r[e] == if e.0 == importer && e.1 in counts.vals then counts.vals[e.1] else w[e]
  {
    w + map t | t in counts.vals :: (importer, t) := counts.vals[t]
  }

  /** What one walked file contributes: nothing, or edges from the known file
      it resolves to towards the known files its imports resolve to. */
  datatype Step = Skip | Edges(importer: string, targets: seq<string>)

  /** Reading one walked file. Files without one of the language's extensions
      are not parsed, and a file that resolves to no known file adds nothing.
      `None` is a crash of path extraction or resolution. Both ends of every
      edge are known files. */
  function ParseFile(lang: HaratianPaths.Language, res: Resolver, f: SourceFile): (r: Option<Step>)
    ensures r.Some? && r.value.Edges? ==> r.value.importer in res.known
    ensures r.Some? && r.value.Edges? ==> forall t :: t in r.value.targets ==> t in res.known
    ensures r.Some? && r.value.Edges? ==>
      HaratianPaths.Suffix(HaratianPaths.Name(f.path)) in HaratianPaths.Extensions(lang) &&
      Resolve(res, f.path) == Some(Some(r.value.importer))
    ensures HaratianPaths.Suffix(HaratianPaths.Name(f.path)) !in HaratianPaths.Extensions(lang) ==> r == Some(Skip)
  {
    var name := HaratianPaths.Name(f.path);
    if HaratianPaths.Suffix(name) !in HaratianPaths.Extensions(lang) then Some(Skip)
    else
      var imports :- HaratianPaths.ExtractPaths(lang, f.nodes, res.repo, f.path, res.project);
      var importer :- Resolve(res, f.path);
      if importer.None? then Some(Skip)
      else
        var ts :- Targets(p => Resolve(res, p), imports);
        ResolvedAreKnown(res, imports, ts);
        Some(Edges(importer.value, ts))
  }

  /** Every target of a file's imports is a known file. */
  lemma ResolvedAreKnown(res: Resolver, imports: seq<string>, ts: seq<string>)
    requires Targets(p => Resolve(res, p), imports) == Some(ts)
    ensures forall t :: t in ts ==> t in res.known
  {
    forall t | t in ts
      ensures t in res.known
    {
      ResolvesKnown(res, imports, t);
    }
  }

  lemma {:induction false} ResolvesKnown(res: Resolver, imports: seq<string>, t: string)
    requires Resolves(p => Resolve(res, p), imports, t)
    ensures t in res.known
    decreases |imports|
  {
    var last := imports[|imports| - 1];
    if Resolve(res, last) != Some(Some(t)) {
      ResolvesKnown(res, imports[..|imports| - 1], t);
    }
  }

  /** Adding a file's edges to the graph. */
  function Apply(g: GraphMeasures.Graph, step: Step): (r: GraphMeasures.Graph)
    ensures r.nodes == g.nodes
    ensures step.Skip? ==> r == g
  {
    match step
    case Skip => g
    case Edges(importer, ts) => GraphMeasures.Graph(g.nodes, SetEdges(g.weight, importer, CountTargets(ts)))
  }

  /** One step of the walk. */
  function AddFile(lang: HaratianPaths.Language, res: Resolver, g: GraphMeasures.Graph, f: SourceFile): (r: Option<GraphMeasures.Graph>)
    ensures r.Some? <==> ParseFile(lang, res, f).Some?
    ensures r.Some? ==> r.value.nodes == g.nodes
  {
    var step :- ParseFile(lang, res, f);
    Some(Apply(g, step))
  }

  /** The edges out of the importer to this file's targets weigh exactly the
      number of its imports resolving to each, and no other edge changes. The
      importer itself may be a target: self-loops are kept. */
  lemma FileEdges(g: GraphMeasures.Graph, importer: string, ts: seq<string>)
    ensures var w := Apply(g, Edges(importer, ts)).weight;
      && (forall t :: t in ts ==> (importer, t) in w && w[(importer, t)] == Seqs.Count(ts, t) as real)
      && (forall e: (string, string) :: e.1 !in ts || e.0 != importer ==> (e in w <==> e in g.weight) && (e in w ==> w[e] == g.weight[e]))
  {
  }

  /** A file importing itself gets a self-loop. */
  lemma SelfLoopKept(g: GraphMeasures.Graph, importer: string, ts: seq<string>)
    requires importer in ts
    ensures (importer, importer) in Apply(g, Edges(importer, ts)).weight
    ensures Apply(g, Edges(importer, ts)).weight[(importer, importer)] >= 1.0
  {
    Seqs.CountPositive(ts, importer);
  }

  /** The edges a file adds run between graph nodes and weigh at least 1. */
  lemma {:induction false} ApplyKeepsWeights(g: GraphMeasures.Graph, step: Step)
    requires GraphMeasures.Wf(g)
    requires forall e :: e in g.weight ==> g.weight[e] >= 1.0
    requires step.Edges? ==> step.importer in g.nodes && forall t :: t in step.targets ==> t in g.nodes
    ensures GraphMeasures.Wf(Apply(g, step))
    ensures forall e :: e in Apply(g, step).weight ==> Apply(g, step).weight[e] >= 1.0
  {
    if step.Edges? {
      var counts := CountTargets(step.targets);
      forall t | t in counts.vals
        ensures counts.vals[t] >= 1.0
      {
        Seqs.CountPositive(step.targets, t);
      }
    }
  }

  /** The walk: the files are added to the graph in walk order. `None` when
      reading any of them crashes. */
  function Walk(base: GraphMeasures.Graph, parse: SourceFile -> Option<Step>, files: seq<SourceFile>): (r: Option<GraphMeasures.Graph>)
    ensures r.Some? <==> forall i :: 0 <= i < |files| ==> parse(files[i]).Some?
    ensures r.Some? ==> r.value.nodes == base.nodes
  {
    if |files| == 0 then Some(base)
    else
      var front := files[..|files| - 1];
      assert forall i :: 0 <= i < |files| - 1 ==> front[i] == files[i];
      var g :- Walk(base, parse, front);
      var step :- parse(files[|files| - 1]);
      Some(Apply(g, step))
  }

  /** A step whose edges join nodes of `g`. */
  predicate InGraph(g: GraphMeasures.Graph, step: Step) {
    step.Edges? ==> step.importer in g.nodes && forall t :: t in step.targets ==> t in g.nodes
  }

  /** When every step joins nodes of the starting graph, the walk keeps the
      graph well formed and every edge weighs at least 1. */
  lemma {:induction false} WalkWf(base: GraphMeasures.Graph, parse: SourceFile -> Option<Step>, files: seq<SourceFile>)
    requires GraphMeasures.Wf(base) && base.weight == map[]
    requires forall i :: 0 <= i < |files| && parse(files[i]).Some? ==> InGraph(base, parse(files[i]).value)
    requires Walk(base, parse, files).Some?
    ensures GraphMeasures.Wf(Walk(base, parse, files).value)
    ensures forall e :: e in Walk(base, parse, files).value.weight ==> Walk(base, parse, files).value.weight[e] >= 1.0
    decreases |files|
  {
    if |files| > 0 {
      var front := files[..|files| - 1];
      assert forall i :: 0 <= i < |files| - 1 ==> front[i] == files[i];
      WalkWf(base, parse, front);
      var g := Walk(base, parse, front).value;
      var step := parse(files[|files| - 1]).value;
      assert Walk(base, parse, files).value == Apply(g, step);
      ApplyKeepsWeights(g, step);
    }
  }

  /** `_build_internal_dep_graph` for a supported language: every known file
      is a node, then the walked files add their edges. `None` is a crash of
      path extraction or resolution. The graph is well formed: every edge
      joins two known files and weighs at least 1, the count of at least one
      import. */
  function BuildGraph(lang: HaratianPaths.Language, res: Resolver, files: seq<SourceFile>): (r: Option<GraphMeasures.Graph>)
    ensures r.Some? <==> forall i :: 0 <= i < |files| ==> ParseFile(lang, res, files[i]).Some?
    ensures r.Some? ==> r.value.nodes == Seqs.Dedup(res.known)
    ensures r.Some? ==> GraphMeasures.Wf(r.value)
    ensures r.Some? ==> forall e :: e in r.value.weight ==> r.value.weight[e] >= 1.0
  {
    var base := GraphMeasures.Graph(Seqs.Dedup(res.known), map[]);
    var parse := f => ParseFile(lang, res, f);
    assert forall i :: 0 <= i < |files| && parse(files[i]).Some? ==> InGraph(base, parse(files[i]).value);
    var r := Walk(base, parse, files);
    if r.Some? then WalkWf(base, parse, files); r else r
  }
}
