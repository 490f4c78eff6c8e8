/** Reachability in the dependency graph of a CycloneDX document: the worklist search of
    src/scanners/supply-chain/adapters.ts. */
module DependencyGraph {
  import opened Wrappers
  import opened Sorting

  /** One entry of `dependencies`; None stands for a member that is missing or not of the
      expected type. */
  datatype Dependency = Dependency(ref: Option<string>, dependsOn: Option<seq<Option<string>>>)

  type Edges = map<string, seq<string>>

  datatype Graph = Graph(available: bool, direct: set<string>, reachable: set<string>)

  const NO_GRAPH := Graph(false, {}, {})

  function NonemptyStrings(values: seq<Option<string>>): (r: seq<string>)
    ensures forall x :: x in r <==> x != "" && Some(x) in values
  {
    if values == [] then []
    else
      var rest := NonemptyStrings(values[1..]);
      assert values == [values[0]] + values[1..];
      if values[0].Some? && values[0].value != "" then [values[0].value] + rest else rest
  }

  /** The edge list of each ref; a later entry for a ref replaces an earlier one. */
  function EdgesOf(dependencies: seq<Dependency>): Edges {
    if dependencies == [] then map[]
    else
      var last := dependencies[|dependencies| - 1];
      var edges := EdgesOf(dependencies[..|dependencies| - 1]);
      if last.ref.Some? && last.dependsOn.Some?
      then edges[last.ref.value := NonemptyStrings(last.dependsOn.value)]
      else edges
  }

  function Children(edges: Edges, ref: string): seq<string> {
    if ref in edges then edges[ref] else []
  }

  /** A walk along edges that starts at one of the roots. */
  ghost predicate IsPath(edges: Edges, roots: set<string>, path: seq<string>) {
    && path != [] && path[0] in roots
    && forall i :: 0 < i < |path| ==> path[i] in Children(edges, path[i - 1])
  }

  ghost predicate Reaches(edges: Edges, roots: set<string>, ref: string) {
    exists path :: IsPath(edges, roots, path) && path[|path| - 1] == ref
  }

  /** Everything a search can meet. */
  ghost function Universe(edges: Edges, roots: set<string>): set<string> {
    roots + set k, x | k in edges && x in edges[k] :: x
  }

  ghost function ReachableRefs(edges: Edges, roots: set<string>): set<string> {
    set x | x in Universe(edges, roots) && Reaches(edges, roots, x)
  }

  lemma RootReaches(edges: Edges, roots: set<string>, ref: string)
    requires ref in roots
    ensures Reaches(edges, roots, ref)
  {
    assert IsPath(edges, roots, [ref]);
  }

  lemma ChildReaches(edges: Edges, roots: set<string>, ref: string, child: string)
    requires Reaches(edges, roots, ref) && child in Children(edges, ref)
    ensures Reaches(edges, roots, child)
  {
    var path :| IsPath(edges, roots, path) && path[|path| - 1] == ref;
    assert IsPath(edges, roots, path + [child]);
  }

  lemma ReachesIsReachable(edges: Edges, roots: set<string>, ref: string)
    ensures Reaches(edges, roots, ref) <==> ref in ReachableRefs(edges, roots)
  {
    if Reaches(edges, roots, ref) {
      var path :| IsPath(edges, roots, path) && path[|path| - 1] == ref;
      if |path| > 1 {
        assert path[|path| - 1] in Children(edges, path[|path| - 2]);
      }
    }
  }

  /** A set that holds the roots and is closed under edges holds every reachable ref. */
  lemma {:induction false} ClosedHoldsPath(edges: Edges, roots: set<string>, closed: set<string>, path: seq<string>)
    requires roots <= closed
    requires forall x, c :: x in closed && c in Children(edges, x) ==> c in closed
    requires IsPath(edges, roots, path)
    ensures path[|path| - 1] in closed
    decreases |path|
  {
    if |path| > 1 {
      var front := path[..|path| - 1];
      assert IsPath(edges, roots, front);
      ClosedHoldsPath(edges, roots, closed, front);
      assert path[|path| - 1] in Children(edges, front[|front| - 1]);
    }
  }

  lemma ClosedHoldsReachable(edges: Edges, roots: set<string>, closed: set<string>)
    requires roots <= closed
    requires forall x, c :: x in closed && c in Children(edges, x) ==> c in closed
    ensures forall x :: Reaches(edges, roots, x) ==> x in closed
  {
    forall x | Reaches(edges, roots, x) ensures x in closed {
      var path :| IsPath(edges, roots, path) && path[|path| - 1] == x;
      ClosedHoldsPath(edges, roots, closed, path);
    }
  }

  /** What the search returns, stated without the search. */
  ghost function GraphOf(rootRef: Option<string>, dependencies: Option<seq<Dependency>>): Graph {
    var edges := if dependencies.Some? then EdgesOf(dependencies.value) else map[];
    if rootRef.None? || rootRef.value !in edges then NO_GRAPH
    else
      var direct := set x | x in edges[rootRef.value];
      Graph(true, direct, ReachableRefs(edges, direct))
  }

  method BuildEdges(dependencies: seq<Dependency>) returns (edges: Edges)
    ensures edges == EdgesOf(dependencies)
  {
    edges := map[];
    var i := 0;
    while i < |dependencies|
      invariant 0 <= i <= |dependencies|
      invariant edges == EdgesOf(dependencies[..i])
    {
      var d := dependencies[i];
      assert dependencies[..i + 1][..i] == dependencies[..i];
      if d.ref.Some? && d.dependsOn.Some? {
        edges := edges[d.ref.value := NonemptyStrings(d.dependsOn.value)];
      }
      i := i + 1;
    }
    assert dependencies[..i] == dependencies;
  }

  /** Pushes the children that were not visited yet. */
  method PushChildren(reachable: set<string>, children: seq<string>, pending: seq<string>) returns (r: seq<string>)
    ensures forall x :: x in r <==> x in pending || (x in children && x !in reachable)
  {
    r := pending;
    var i := 0;
    while i < |children|
      invariant 0 <= i <= |children|
      invariant forall x :: x in r <==> x in pending || (x in children[..i] && x !in reachable)
    {
      assert children[..i + 1] == children[..i] + [children[i]];
      if children[i] !in reachable {
        r := r + [children[i]];
      }
      i := i + 1;
    }
    assert children[..i] == children;
  }

  /** Visited and pending refs are reachable, and nothing reachable was forgotten: the roots and
      the children of visited refs are visited or pending. */
  ghost predicate Searching(edges: Edges, roots: set<string>, reachable: set<string>, pending: seq<string>) {
    && (forall x :: x in reachable || x in pending ==> x in ReachableRefs(edges, roots))
    && (forall x :: x in roots ==> x in reachable || x in pending)
    && (forall x, c :: x in reachable && c in Children(edges, x) ==> c in reachable || c in pending)
  }

  lemma SearchStarts(edges: Edges, roots: set<string>, stack: seq<string>)
    requires forall x :: x in stack <==> x in roots
    ensures Searching(edges, roots, {}, stack)
  {
    forall x | x in roots ensures x in ReachableRefs(edges, roots) {
      RootReaches(edges, roots, x);
    }
  }

  lemma SkipVisited(edges: Edges, roots: set<string>, reachable: set<string>, popped: seq<string>, ref: string)
    requires Searching(edges, roots, reachable, popped + [ref]) && ref in reachable
    ensures Searching(edges, roots, reachable, popped)
  {
    hide ReachableRefs, Children;
    forall x ensures x in reachable || x in popped <==> x in reachable || x in popped + [ref] {
    }
  }

  lemma VisitNew(edges: Edges, roots: set<string>, reachable: set<string>, popped: seq<string>, ref: string,
                 pending: seq<string>)
    requires Searching(edges, roots, reachable, popped + [ref])
    requires forall x :: x in pending <==> x in popped || (x in Children(edges, ref) && x !in reachable + {ref})
    ensures Searching(edges, roots, reachable + {ref}, pending)
  {
    assert ref in popped + [ref];
    ReachesIsReachable(edges, roots, ref);
    forall c | c in Children(edges, ref) ensures c in ReachableRefs(edges, roots) {
      ChildReaches(edges, roots, ref, c);
      ReachesIsReachable(edges, roots, c);
    }
    hide ReachableRefs;
    forall x | x in roots ensures x in reachable + {ref} || x in pending {
      assert x in reachable || x in popped + [ref];
    }
    forall x, c | x in reachable + {ref} && c in Children(edges, x) ensures c in reachable + {ref} || c in pending {
      if x != ref {
        assert c in reachable || c in popped + [ref];
      }
    }
  }

  lemma SearchEnds(edges: Edges, roots: set<string>, reachable: set<string>)
    requires Searching(edges, roots, reachable, [])
    ensures reachable == ReachableRefs(edges, roots)
  {
    ClosedHoldsReachable(edges, roots, reachable);
  }

  /** The worklist loop: a stack of refs, popped from the end. */
  method Search(edges: Edges, direct: set<string>, stack: seq<string>) returns (reachable: set<string>)
    requires forall x :: x in stack <==> x in direct
    ensures reachable == ReachableRefs(edges, direct)
  {
    hide *;
    reachable := {};
    var pending := stack;
    SearchStarts(edges, direct, stack);
    while pending != []
      invariant Searching(edges, direct, reachable, pending)
      decreases |ReachableRefs(edges, direct) - reachable|, |pending|
    {
      var ref := pending[|pending| - 1];
      var popped := pending[..|pending| - 1];
      assert pending == popped + [ref];
      if ref in reachable {
        SkipVisited(edges, direct, reachable, popped, ref);
        pending := popped;
      } else {
        ghost var before := reachable;
        OneFewerLeft(edges, direct, reachable, popped, ref);
        reachable := reachable + {ref};
        pending := PushChildren(reachable, Children(edges, ref), popped);
        VisitNew(edges, direct, before, popped, ref, pending);
      }
    }
    SearchEnds(edges, direct, reachable);
  }

  lemma OneFewerLeft(edges: Edges, roots: set<string>, reachable: set<string>, popped: seq<string>, ref: string)
    requires Searching(edges, roots, reachable, popped + [ref]) && ref !in reachable
    ensures |ReachableRefs(edges, roots) - (reachable + {ref})| < |ReachableRefs(edges, roots) - reachable|
  {
    var all := ReachableRefs(edges, roots);
    assert ref in popped + [ref];
    assert ref in all;
    hide *;
    assert all - reachable == (all - (reachable + {ref})) + {ref};
  }

  method DependencyGraph(rootRef: Option<string>, dependencies: Option<seq<Dependency>>) returns (g: Graph)
    ensures g == GraphOf(rootRef, dependencies)
  {
    var edges := map[];
    if dependencies.Some? {
      edges := BuildEdges(dependencies.value);
    }
    if rootRef.None? || rootRef.value !in edges {
      return NO_GRAPH;
    }
    var direct := set x | x in edges[rootRef.value];
    var reachable := Search(edges, direct, Unique(edges[rootRef.value]));
    return Graph(true, direct, reachable);
  }
}
