/**
 * CallGraph<T>: the call graph of a module with a payload of type T per
 * function.  The fields are updated in place by build, mapFuncOp and
 * mapCallOp; walk reports the updateNodeFn / updateEdgeFn calls it makes
 * as a sequence of events.
 */
module CallGraphs {
  import opened CallGraphSpec

  class CallGraph<T> {
    const moduleOp: ModuleOp
    /** T{}: the payload that funcMap[f] value-initialises for a missing f. */
    const emptyData: T
    var graph: Graph
    var funcMap: map<Func, T>
    var roots: seq<Func>

    /** Builds the call graph of moduleOp; no payload is recorded yet. */
    constructor (moduleOp: ModuleOp, emptyData: T)
      ensures this.moduleOp == moduleOp && this.emptyData == emptyData
      ensures graph == GraphOf(moduleOp.funcs)
      ensures roots == Roots(moduleOp)
      ensures funcMap == map[]
    {
      this.moduleOp := moduleOp;
      this.emptyData := emptyData;
      graph := map[];
      funcMap := map[];
      roots := [];
      new;
      Build();
    }

    /**
     * build: the first module walk appends an edge to the caller's list for
     * every call that resolves to a function and marks the callee visited;
     * the second collects, in module order, the functions never visited.
     */
    method Build()
      requires graph == map[] && roots == []
      modifies this
      ensures graph == GraphOf(moduleOp.funcs)
      ensures roots == Roots(moduleOp)
      ensures funcMap == old(funcMap)
    {
      var visited: set<Func> := {};
      var funcs := moduleOp.funcs;
      for i := 0 to |funcs|
        invariant graph == GraphOf(funcs[..i])
        invariant visited == Callees(funcs[..i])
        invariant roots == [] && funcMap == old(funcMap)
      {
        assert funcs[..i + 1][..i] == funcs[..i];
        visited := AddCalls(funcs[i], visited);
      }
      assert funcs[..|funcs|] == funcs;
      CollectRoots(visited);
    }

    /** The calls of one function met by the first module walk. */
    method AddCalls(fo: FuncOp, visited: set<Func>) returns (visitedOut: set<Func>)
      modifies this
      ensures graph == AddEdges(old(graph), fo.func, ResolvedEdges(fo.calls))
      ensures visitedOut == visited + CalleesOfCalls(fo.calls)
      ensures roots == old(roots) && funcMap == old(funcMap)
    {
      var caller := fo.func;
      var g := graph;
      visitedOut := visited;
      for j := 0 to |fo.calls|
        invariant g == AddEdges(old(graph), caller, ResolvedEdges(fo.calls[..j]))
        invariant visitedOut == visited + CalleesOfCalls(fo.calls[..j])
        invariant graph == old(graph) && roots == old(roots) && funcMap == old(funcMap)
      {
        var site := fo.calls[j];
        CallStep(fo.calls, j);
        GraphStep(old(graph), g, caller, fo.calls, j);
        if site.resolved.Some? {
          var callee := site.resolved.value;
          g := g[caller := Lookup(g, caller) + [Edge(site.call, callee)]];
          visitedOut := visitedOut + {callee};
        }
      }
      assert fo.calls[..|fo.calls|] == fo.calls;
      graph := g;
    }

    /** The second module walk: every function not visited becomes a root, in module order. */
    method CollectRoots(visited: set<Func>)
      modifies this
      ensures roots == old(roots) + RootsOf(moduleOp.funcs, visited)
      ensures graph == old(graph) && funcMap == old(funcMap)
    {
      var funcs := moduleOp.funcs;
      var found := roots;
      for i := 0 to |funcs|
        invariant found == old(roots) + RootsOf(funcs[..i], visited)
      {
        assert funcs[..i + 1][..i] == funcs[..i];
        if funcs[i].func !in visited {
          found := found + [funcs[i].func];
        }
      }
      assert funcs[..|funcs|] == funcs;
      roots := found;
    }

    /**
     * doWalk(f): the cycle check on visited (which aborts the program), the
     * node update in pre-order, each edge of f in list order with its update
     * before or after the walk of its callee, the node update in post-order,
     * and finally f erased from visited.  Nothing ever inserts into visited,
     * so starting from an empty set the check never fires; rank, the proof
     * that f reaches no cycle, is what makes the recursion end.
     */
    method DoWalk(f: Func, visited: set<Func>, eo: WalkOrder, no: WalkOrder, ghost rank: map<Func, nat>)
      returns (events: seq<Event>, visitedOut: set<Func>, fatal: bool)
      requires Ranking(graph, rank) && f in rank
      ensures visitedOut <= visited
      ensures f in visited ==> fatal
      ensures visited == {} ==> !fatal && visitedOut == {} && events == Subtree(graph, rank, f, eo, no)
      decreases rank[f]
    {
      if f in visited {
        // the fatal cycle error: the model reports it and stops
        return [], visited, true;
      }
      events := NodeIf(no, PreOrder, f);
      var es := Lookup(graph, f);
      var current := visited;
      var k := 0;
      while k < |es|
        invariant 0 <= k <= |es|
        invariant current <= visited
        invariant visited == {} ==> current == {} && events == WalkPrefix(graph, rank, f, k, eo, no)
      {
        var e := es[k];
        WalkPrefixStep(graph, rank, f, k, eo, no);
        var sub, after, subFatal := DoWalk(e.callee, current, eo, no, rank);
        if subFatal {
          return events + EdgeIf(eo, PreOrder, e) + sub, after, true;
        }
        events := events + (EdgeIf(eo, PreOrder, e) + sub + EdgeIf(eo, PostOrder, e));
        current := after;
        k := k + 1;
      }
      WalkPrefixDone(graph, rank, f, eo, no);
      events := events + NodeIf(no, PostOrder, f);
      visitedOut := current - {f};
      fatal := false;
    }

    /**
     * walk: doWalk from every root in root order, with one visited set that
     * starts empty.  The source's template arguments UpdateEdgeOrder and
     * UpdateNodeOrder, here eo and no, both default to PreOrder.
     */
    method Walk(eo: WalkOrder, no: WalkOrder, ghost rank: map<Func, nat>) returns (events: seq<Event>)
      requires Ranking(graph, rank) && AllRanked(roots, rank)
      ensures events == WalkTrace(graph, rank, roots, eo, no)
    {
      var visited: set<Func> := {};
      events := [];
      for i := 0 to |roots|
        invariant visited == {}
        invariant AllRanked(roots[..i], rank)
        invariant events == WalkTrace(graph, rank, roots[..i], eo, no)
      {
        assert roots[..i + 1][..i] == roots[..i];
        var sub, after, fatal := DoWalk(roots[i], visited, eo, no, rank);
        events := events + sub;
        visited := after;
      }
      assert roots[..|roots|] == roots;
    }

    /** getFuncData: the payload of f when funcMap has an entry for it, and null otherwise. */
    function GetFuncData(f: Func): (r: Option<T>)
      reads this
      ensures r.Some? <==> f in funcMap
      ensures r.Some? ==> r.value == funcMap[f]
    {
      if f in funcMap then Some(funcMap[f]) else None
    }

    /** getRoots: a copy of the roots. */
    function GetRoots(): (r: seq<Func>)
      reads this
      ensures r == roots
    {
      roots
    }

    /** getNumFunctions: the number of functions with a payload. */
    function GetNumFunctions(): (n: nat)
      reads this
      ensures n == |funcMap|
      ensures n == 0 <==> funcMap == map[]
    {
      |funcMap|
    }

    /** isRoot: whether f occurs among the roots. */
    function IsRoot(f: Func): (b: bool)
      reads this
      ensures b <==> exists i :: 0 <= i < |roots| && roots[i] == f
    {
      f in roots
    }

    /** The inner loop of the rewrite: each edge of one list replaced in place, in order. */
    static method RewriteList(es: seq<Edge>, rw: Rewrite) returns (r: seq<Edge>)
      ensures r == Rewritten(es, rw)
    {
      r := es;
      for j := 0 to |r|
        invariant |r| == |es|
        invariant forall i :: 0 <= i < j ==> r[i] == Apply(rw, es[i])
        invariant forall i :: j <= i < |r| ==> r[i] == es[i]
      {
        r := r[j := Apply(rw, r[j])];
      }
    }

    /** The loop over every list of the graph, rewriting each edge in place; map order does not matter. */
    method RewriteEdges(rw: Rewrite)
      modifies this
      ensures graph == RewriteGraph(old(graph), rw)
      ensures roots == old(roots) && funcMap == old(funcMap)
    {
      var g := graph;
      var todo := g.Keys;
      PartlyRewrittenStart(g, rw);
      while todo != {}
        invariant PartlyRewritten(old(graph), g, todo, rw)
        invariant graph == old(graph) && roots == old(roots) && funcMap == old(funcMap)
        decreases |todo|
      {
        var k :| k in todo;
        var es := RewriteList(g[k], rw);
        PartlyRewrittenStep(old(graph), g, todo, rw, k, es);
        g := g[k := es];
        todo := todo - {k};
      }
      PartlyRewrittenDone(old(graph), g, rw);
      graph := g;
    }

    /**
     * mapFuncOp(f, t): every edge into f is redirected to t, graph[t] and
     * funcMap[t] become copies of f's entries (creating f's too when
     * missing), and the first root equal to f becomes t.
     */
    method MapFuncOp(f: Func, t: Func)
      modifies this
      ensures graph == MapFuncGraph(old(graph), f, t)
      ensures roots == ReplaceFirst(old(roots), f, t)
      ensures funcMap == MapFuncData(old(funcMap), f, t, emptyData)
    {
      RewriteEdges(RedirectCallee(f, t));
      var edges := Lookup(graph, f);
      graph := graph[f := edges][t := edges];
      roots := ReplaceFirstRoot(roots, f, t);
      var data := if f in funcMap then funcMap[f] else emptyData;
      funcMap := funcMap[f := data][t := data];
    }

    /** mapCallOp(c, t): every edge of call c now belongs to call t. */
    method MapCallOp(c: Call, t: Call)
      modifies this
      ensures graph == MapCallGraph(old(graph), c, t)
      ensures roots == old(roots) && funcMap == old(funcMap)
    {
      RewriteEdges(RetargetCall(c, t));
    }
  }

  /** The roots loop of mapFuncOp: the first f, if any, becomes t, and the search stops there. */
  method ReplaceFirstRoot(roots: seq<Func>, f: Func, t: Func) returns (r: seq<Func>)
    ensures r == ReplaceFirst(roots, f, t)
  {
    var i := 0;
    while i < |roots| && roots[i] != f
      invariant 0 <= i <= |roots|
      invariant f !in roots[..i]
    {
      assert roots[..i + 1] == roots[..i] + [roots[i]];
      i := i + 1;
    }
    if i < |roots| {
      ReplaceFirstAt(roots, f, t, i);
      r := roots[i := t];
    } else {
      assert roots[..i] == roots;
      r := roots;
    }
  }

  /** Right after construction no function has a payload: getNumFunctions() is 0 and getFuncData is null. */
  lemma FreshGraphHasNoData<T>(cg: CallGraph<T>, f: Func)
    requires cg.funcMap == map[]
    ensures cg.GetNumFunctions() == 0 && cg.GetFuncData(f) == None
  {
  }
}
