/**
 * The second pass of `make_branched_conversation`
 * (`_make_branched_conversation_chains` and its helpers): for every row of
 * messages (the messages at one index across all versions), the stamp lists
 * are linked into a graph, the graph is walked depth first into chains, and a
 * message whose ids one chain covers gets that chain as its `versions` list.
 *
 * Python iterates sets in an order it does not promise; the walk picks the
 * next start node and orders each node's successors by an arbitrary choice.
 */
module BranchingChains {
  import opened Wrappers
  import opened Seqs
  import opened Branching
  import opened BranchingProofs

  type Info = map<string, Stamp>
  type Graph = map<string, set<string>>

  // ------------------------------------------------------------- the graph

  /** The neighbouring pairs of one list, left to right. */
  function Consecutive(l: seq<Stamp>): (r: seq<(Stamp, Stamp)>)
    ensures |r| == if |l| < 2 then 0 else |l| - 1
    ensures forall i :: 0 <= i < |r| ==> r[i] == (l[i], l[i + 1])
  {
    if |l| < 2 then [] else [(l[0], l[1])] + Consecutive(l[1..])
  }

  /** Every neighbouring pair, in the order the nested loops visit them. */
  function PairsOf(lists: seq<seq<Stamp>>): seq<(Stamp, Stamp)> {
    if |lists| == 0 then [] else Consecutive(lists[0]) + PairsOf(lists[1..])
  }

  /** A pair of `PairsOf` is two neighbours of one of the lists. */
  lemma {:induction false} PairsOfFromLists(lists: seq<seq<Stamp>>, p: (Stamp, Stamp))
    requires p in PairsOf(lists)
    ensures exists l, i :: l in lists && 0 <= i < |l| - 1 && p == (l[i], l[i + 1])
    decreases |lists|
  {
    var head := Consecutive(lists[0]);
    if p in head {
      var i :| 0 <= i < |head| && head[i] == p;
      var l := lists[0];
      assert l in lists && 0 <= i < |l| - 1 && p == (l[i], l[i + 1]);
    } else {
      PairsOfFromLists(lists[1..], p);
      var l, i :| l in lists[1..] && 0 <= i < |l| - 1 && p == (l[i], l[i + 1]);
      assert l in lists;
    }
  }

  /** A list with at most one stamp adds no node to the graph. */
  lemma {:induction false} ShortListAddsNoPairs(lists: seq<seq<Stamp>>, extra: seq<Stamp>)
    requires |extra| <= 1
    ensures PairsOf(lists + [extra]) == PairsOf(lists)
    ensures NodesOf(lists + [extra]) == NodesOf(lists)
    decreases |lists|
  {
    if |lists| == 0 {
      assert PairsOf([extra]) == Consecutive(extra) + PairsOf([]);
    } else {
      assert (lists + [extra])[1..] == lists[1..] + [extra];
      ShortListAddsNoPairs(lists[1..], extra);
    }
  }

  /** Id `b` immediately follows id `a` in one of the lists. */
  predicate Follows(lists: seq<seq<Stamp>>, a: string, b: string) {
    exists p :: p in PairsOf(lists) && p.0.id == a && p.1.id == b
  }

  /** The ids of every stamp that has a neighbour in its list. */
  function NodesOf(lists: seq<seq<Stamp>>): set<string> {
    (set p | p in PairsOf(lists) :: p.0.id) + (set p | p in PairsOf(lists) :: p.1.id)
  }

  predicate HasEdge(g: Graph, a: string, b: string) {
    a in g && b in g[a]
  }

  /** `node_info` maps every id to a stamp carrying that id. */
  predicate InfoConsistent(info: Info) {
    forall n :: n in info ==> info[n].id == n
  }

  predicate GraphWithin(info: Info, graph: Graph) {
    forall n :: n in graph ==> n in info && graph[n] <= info.Keys
  }

  /** The graph-building loop of `_get_version_time_id_chain`; a later pair's stamp overwrites `node_info`. */
  function AddPairs(info: Info, graph: Graph, ps: seq<(Stamp, Stamp)>): (r: (Info, Graph))
    ensures info.Keys <= r.0.Keys
    decreases |ps|
  {
    if |ps| == 0 then (info, graph)
    else
      var (a, b) := ps[0];
      var info1 := info[a.id := a][b.id := b];
      var graph1 := graph[a.id := (if a.id in graph then graph[a.id] else {}) + {b.id}];
      AddPairs(info1, graph1, ps[1..])
  }

  /** `node_info` gains exactly the ids of the pairs. */
  lemma {:induction false} AddPairsKeys(info: Info, graph: Graph, ps: seq<(Stamp, Stamp)>)
    ensures AddPairs(info, graph, ps).0.Keys == info.Keys + (set p | p in ps :: p.0.id) + (set p | p in ps :: p.1.id)
    decreases |ps|
  {
    if |ps| > 0 {
      var (a, b) := ps[0];
      var info1 := info[a.id := a][b.id := b];
      var graph1 := graph[a.id := (if a.id in graph then graph[a.id] else {}) + {b.id}];
      AddPairsKeys(info1, graph1, ps[1..]);
      PairIdsSplit(ps);
    }
  }

  /** The ids on either side of a list of pairs: the head's, then the tail's. */
  lemma PairIdsSplit(ps: seq<(Stamp, Stamp)>)
    requires |ps| > 0
    ensures (set p | p in ps :: p.0.id) == {ps[0].0.id} + (set p | p in ps[1..] :: p.0.id)
    ensures (set p | p in ps :: p.1.id) == {ps[0].1.id} + (set p | p in ps[1..] :: p.1.id)
  {
    assert forall p :: p in ps <==> p == ps[0] || p in ps[1..];
  }

  lemma {:induction false} AddPairsWellFormed(info: Info, graph: Graph, ps: seq<(Stamp, Stamp)>)
    requires InfoConsistent(info) && GraphWithin(info, graph)
    ensures var r := AddPairs(info, graph, ps);
            InfoConsistent(r.0) && GraphWithin(r.0, r.1)
    decreases |ps|
  {
    if |ps| > 0 {
      var (a, b) := ps[0];
      var info1 := info[a.id := a][b.id := b];
      var graph1 := graph[a.id := (if a.id in graph then graph[a.id] else {}) + {b.id}];
      AddPairsWellFormed(info1, graph1, ps[1..]);
    }
  }

  /** Every stamp in `node_info` is the old one or comes from a pair. */
  lemma {:induction false} AddPairsStamps(info: Info, graph: Graph, ps: seq<(Stamp, Stamp)>, n: string)
    requires n in AddPairs(info, graph, ps).0
    ensures var t := AddPairs(info, graph, ps).0[n];
            (n in info && t == info[n]) || exists p :: p in ps && (t == p.0 || t == p.1)
    decreases |ps|
  {
    if |ps| > 0 {
      var (a, b) := ps[0];
      var info1 := info[a.id := a][b.id := b];
      var graph1 := graph[a.id := (if a.id in graph then graph[a.id] else {}) + {b.id}];
      AddPairsStamps(info1, graph1, ps[1..], n);
      var t := AddPairs(info, graph, ps).0[n];
      if !(n in info1 && t == info1[n]) {
        var p :| p in ps[1..] && (t == p.0 || t == p.1);
        assert p in ps;
      } else if !(n in info && t == info[n]) {
        assert ps[0] in ps;
      }
    }
  }

  /** The edges are the old ones plus one per pair. */
  lemma {:induction false} AddPairsEdges(info: Info, graph: Graph, ps: seq<(Stamp, Stamp)>, x: string, y: string)
    ensures HasEdge(AddPairs(info, graph, ps).1, x, y) <==>
            HasEdge(graph, x, y) || exists p :: p in ps && p.0.id == x && p.1.id == y
    decreases |ps|
  {
    if |ps| > 0 {
      var (a, b) := ps[0];
      var info1 := info[a.id := a][b.id := b];
      var graph1 := graph[a.id := (if a.id in graph then graph[a.id] else {}) + {b.id}];
      AddPairsEdges(info1, graph1, ps[1..], x, y);
      assert HasEdge(graph1, x, y) <==> HasEdge(graph, x, y) || (a.id == x && b.id == y);
      assert ps[0] in ps;
      assert forall p :: p in ps <==> p == ps[0] || p in ps[1..];
    }
  }

  /** `node_info` and `graph` for the lists of one row. */
  function BuildGraph(lists: seq<seq<Stamp>>): (r: (Info, Graph))
    ensures r.0.Keys == NodesOf(lists)
    ensures InfoConsistent(r.0) && GraphWithin(r.0, r.1)
  {
    var r := AddPairs(map[], map[], PairsOf(lists));
    AddPairsWellFormed(map[], map[], PairsOf(lists));
    AddPairsKeys(map[], map[], PairsOf(lists));
    r
  }

  /** Every stamp in `node_info` occurs in one of the lists. */
  lemma BuildGraphStamps(lists: seq<seq<Stamp>>, n: string)
    requires n in BuildGraph(lists).0
    ensures exists l :: l in lists && BuildGraph(lists).0[n] in l
  {
    var t := BuildGraph(lists).0[n];
    AddPairsStamps(map[], map[], PairsOf(lists), n);
    var p :| p in PairsOf(lists) && (t == p.0 || t == p.1);
    PairsOfFromLists(lists, p);
    var l, i :| l in lists && 0 <= i < |l| - 1 && p == (l[i], l[i + 1]);
    assert l[i] in l && l[i + 1] in l;
  }

  /** An edge of the graph is an id following another in a list, and back. */
  lemma BuildGraphEdges(lists: seq<seq<Stamp>>, a: string, b: string)
    ensures HasEdge(BuildGraph(lists).1, a, b) <==> Follows(lists, a, b)
  {
    AddPairsEdges(map[], map[], PairsOf(lists), a, b);
  }

  /** `start_nodes`: nodes no edge leads to. */
  function StartNodes(info: Info, graph: Graph): set<string> {
    set n | n in info.Keys && forall a :: a in graph ==> !HasEdge(graph, a, n)
  }

  /** Each id of `p` has an edge to the next. */
  predicate GraphPath(g: Graph, p: seq<string>) {
    forall i :: 0 <= i < |p| - 1 ==> HasEdge(g, p[i], p[i + 1])
  }

  /** Some path of edges leads from `a` to `b` (possibly the empty one). */
  ghost predicate Reaches(g: Graph, a: string, b: string) {
    exists p :: |p| > 0 && p[0] == a && p[|p| - 1] == b && GraphPath(g, p)
  }

  /** Each id of `p` is followed by the next in one of the lists. */
  predicate FollowPath(lists: seq<seq<Stamp>>, p: seq<string>) {
    forall i :: 0 <= i < |p| - 1 ==> Follows(lists, p[i], p[i + 1])
  }

  /** `b` is `a` or lies after it along neighbouring pairs of the lists. */
  ghost predicate Linked(lists: seq<seq<Stamp>>, a: string, b: string) {
    exists p :: |p| > 0 && p[0] == a && p[|p| - 1] == b && FollowPath(lists, p)
  }

  lemma ReachesSelf(g: Graph, a: string)
    ensures Reaches(g, a, a)
  {
    assert GraphPath(g, [a]);
  }

  lemma ReachesStep(g: Graph, a: string, b: string, c: string)
    requires Reaches(g, a, b) && HasEdge(g, b, c)
    ensures Reaches(g, a, c)
  {
    var p :| |p| > 0 && p[0] == a && p[|p| - 1] == b && GraphPath(g, p);
    var q := p + [c];
    forall i | 0 <= i < |q| - 1 ensures HasEdge(g, q[i], q[i + 1]) {
      if i < |p| - 1 {
        assert q[i] == p[i] && q[i + 1] == p[i + 1];
      }
    }
    assert GraphPath(g, q);
  }

  /** A path in the graph of some lists is a path along their neighbouring pairs. */
  lemma ReachesLinked(lists: seq<seq<Stamp>>, a: string, b: string)
    requires Reaches(BuildGraph(lists).1, a, b)
    ensures Linked(lists, a, b)
  {
    var g := BuildGraph(lists).1;
    var p :| |p| > 0 && p[0] == a && p[|p| - 1] == b && GraphPath(g, p);
    forall i | 0 <= i < |p| - 1 ensures Follows(lists, p[i], p[i + 1]) {
      BuildGraphEdges(lists, p[i], p[i + 1]);
    }
    assert FollowPath(lists, p);
  }

  /** Every stamp of `chain` is reachable from `start`. */
  ghost predicate ReachedFrom(g: Graph, start: string, chain: seq<Stamp>) {
    forall t :: t in chain ==> Reaches(g, start, t.id)
  }

  /** A graph path into a set closed under successors stays in it. */
  lemma ClosedUnderReach(g: Graph, closed: set<string>, a: string, n: string)
    requires forall m :: m in closed && m in g ==> g[m] <= closed
    requires a in closed && Reaches(g, a, n)
    ensures n in closed
  {
    var p :| |p| > 0 && p[0] == a && p[|p| - 1] == n && GraphPath(g, p);
    var i := 0;
    while i < |p| - 1
      invariant 0 <= i < |p| && p[i] in closed
    {
      assert HasEdge(g, p[i], p[i + 1]);
      i := i + 1;
    }
  }

  /** A path along neighbouring pairs of some lists is a path in their graph. */
  lemma LinkedReaches(lists: seq<seq<Stamp>>, a: string, b: string)
    requires Linked(lists, a, b)
    ensures Reaches(BuildGraph(lists).1, a, b)
  {
    var g := BuildGraph(lists).1;
    var p :| |p| > 0 && p[0] == a && p[|p| - 1] == b && FollowPath(lists, p);
    forall i | 0 <= i < |p| - 1 ensures HasEdge(g, p[i], p[i + 1]) {
      BuildGraphEdges(lists, p[i], p[i + 1]);
    }
    assert GraphPath(g, p);
  }

  /** Every stamp after the first has an edge into it from an earlier stamp: the order a walk appends them. */
  predicate EdgeOrdered(g: Graph, chain: seq<Stamp>) {
    forall i :: 0 < i < |chain| ==> EdgeFromBefore(g, chain, i, chain[i].id)
  }

  /** Some stamp of `chain` before index `i` has an edge to `x`. */
  predicate EdgeFromBefore(g: Graph, chain: seq<Stamp>, i: int, x: string)
    requires 0 <= i <= |chain|
  {
    exists j :: 0 <= j < i && HasEdge(g, chain[j].id, x)
  }

  /** Each chain holds every id reachable from its start that no earlier chain holds. */
  ghost predicate FirstReached(g: Graph, chains: seq<seq<Stamp>>) {
    forall k: int, n: string ::
      0 <= k < |chains| && |chains[k]| > 0 && Reaches(g, chains[k][0].id, n) && n !in IdsOf(Flatten(chains[..k]))
      ==> n in IdsOf(chains[k])
  }

  /**
   * What each walk leaves: its stamps are reachable from its start, each
   * after a stamp with an edge to it, and it holds every id reachable from
   * its start that no earlier walk holds.
   */
  ghost predicate WalkedFromStarts(g: Graph, chains: seq<seq<Stamp>>) {
    (forall c: seq<Stamp> :: c in chains && |c| > 0 ==> ReachedFrom(g, c[0].id, c))
    && (forall c: seq<Stamp> :: c in chains ==> EdgeOrdered(g, c))
    && FirstReached(g, chains)
  }

  lemma WalkedFromStartsAppend(g: Graph, chains: seq<seq<Stamp>>, chain: seq<Stamp>)
    requires WalkedFromStarts(g, chains)
    requires |chain| > 0 && ReachedFrom(g, chain[0].id, chain) && EdgeOrdered(g, chain)
    requires forall n :: Reaches(g, chain[0].id, n) ==> n in IdsOf(Flatten(chains)) + IdsOf(chain)
    ensures WalkedFromStarts(g, chains + [chain])
  {
    FirstReachedAppend(g, chains, chain);
  }

  lemma FirstReachedAppend(g: Graph, chains: seq<seq<Stamp>>, chain: seq<Stamp>)
    requires FirstReached(g, chains)
    requires |chain| > 0 && forall n :: Reaches(g, chain[0].id, n) ==> n in IdsOf(Flatten(chains)) + IdsOf(chain)
    ensures FirstReached(g, chains + [chain])
  {
    var cs: seq<seq<Stamp>> := chains + [chain];
    forall k: int, n: string | 0 <= k < |cs| && |cs[k]| > 0 && Reaches(g, cs[k][0].id, n) && n !in IdsOf(Flatten(cs[..k]))
      ensures n in IdsOf(cs[k])
    {
      if k < |chains| {
        assert cs[..k] == chains[..k] && cs[k] == chains[k];
      } else {
        assert cs[..k] == chains && cs[k] == chain;
      }
    }
  }

  // ------------------------------------------------------------- the walk

  /** The chains laid end to end. */
  function Flatten(chains: seq<seq<Stamp>>): seq<Stamp> {
    if |chains| == 0 then [] else Flatten(chains[..|chains| - 1]) + chains[|chains| - 1]
  }

  predicate DistinctIds(s: seq<Stamp>) {
    forall i, j :: 0 <= i < j < |s| ==> s[i].id != s[j].id
  }

  /** The order in which a set's elements are pushed: any order. */
  method SetToSeq(s: set<string>) returns (r: seq<string>)
    ensures forall x :: x in r <==> x in s
  {
    r := [];
    var rest := s;
    while rest != {}
      invariant rest <= s
      invariant forall x :: x in r <==> x in s && x !in rest
      decreases |rest|
    {
      var x :| x in rest;
      r := r + [x];
      rest := rest - {x};
    }
  }

  /**
   * The depth-first walk of `_get_version_time_id_chain`: one chain per start
   * node not yet visited, each listing the nodes first reached from it.
   */
  method WalkChains(info: Info, graph: Graph) returns (chains: seq<seq<Stamp>>)
    requires InfoConsistent(info) && GraphWithin(info, graph)
    ensures forall c: seq<Stamp> :: c in chains ==> |c| > 0 && c[0].id in StartNodes(info, graph)
    ensures WalkedFromStarts(graph, chains)
    ensures forall t :: t in Flatten(chains) ==> t.id in info && info[t.id] == t
    ensures DistinctIds(Flatten(chains))
    ensures StartNodes(info, graph) <= IdsOf(Flatten(chains))
    ensures forall n :: n in IdsOf(Flatten(chains)) && n in graph ==> graph[n] <= IdsOf(Flatten(chains))
  {
    var starts := StartNodes(info, graph);
    var remaining := starts;
    var visited: set<string> := {};
    chains := [];
    while remaining != {}
      invariant remaining <= starts
      invariant visited == IdsOf(Flatten(chains)) && visited <= info.Keys
      invariant starts - remaining <= visited
      invariant DistinctIds(Flatten(chains))
      invariant forall c: seq<Stamp> :: c in chains ==> |c| > 0 && c[0].id in starts
      invariant WalkedFromStarts(graph, chains)
      invariant forall t :: t in Flatten(chains) ==> t.id in info && info[t.id] == t
      invariant forall n :: n in visited && n in graph ==> graph[n] <= visited
      decreases |remaining|
    {
      var start :| start in remaining;
      remaining := remaining - {start};
      if start !in visited {
        var chain := WalkFrom(info, graph, start, Flatten(chains), visited);
        visited := visited + IdsOf(chain);
        WalkedFromStartsAppend(graph, chains, chain);
        FlattenAppend(chains, chain);
        chains := chains + [chain];
      }
    }
  }

  lemma FlattenAppend(chains: seq<seq<Stamp>>, chain: seq<Stamp>)
    ensures Flatten(chains + [chain]) == Flatten(chains) + chain
  {
    assert (chains + [chain])[..|chains|] == chains;
  }

  /** Every successor of a visited node is visited or still pending. */
  predicate ClosedUpTo(graph: Graph, visited: set<string>, pending: seq<string>) {
    forall n :: n in visited && n in graph ==> forall m :: m in graph[n] ==> m in visited || m in pending
  }

  lemma PopVisited(graph: Graph, visited: set<string>, rest: seq<string>, node: string)
    requires ClosedUpTo(graph, visited, rest + [node]) && node in visited
    ensures ClosedUpTo(graph, visited, rest)
  {
  }

  lemma PopNew(graph: Graph, visited: set<string>, rest: seq<string>, node: string, next: seq<string>)
    requires ClosedUpTo(graph, visited, rest + [node])
    requires node in graph ==> forall m :: m in graph[node] ==> m in next
    ensures ClosedUpTo(graph, visited + {node}, rest + next)
  {
  }

  lemma AppendNewId(done: seq<Stamp>, chain: seq<Stamp>, t: Stamp)
    requires DistinctIds(done + chain) && t.id !in IdsOf(done) + IdsOf(chain)
    ensures DistinctIds(done + (chain + [t])) && IdsOf(chain + [t]) == IdsOf(chain) + {t.id}
  {
    var s := done + chain;
    assert done + (chain + [t]) == s + [t];
    forall i | 0 <= i < |s| ensures s[i].id != t.id {
      if i < |done| { assert s[i] == done[i] && done[i] in done; }
      else { assert s[i] == chain[i - |done|] && chain[i - |done|] in chain; }
    }
  }

  lemma FewerUnvisited(keys: set<string>, visited: set<string>, node: string)
    requires node in keys && node !in visited
    ensures |keys - (visited + {node})| < |keys - visited|
  {
    assert keys - visited == (keys - (visited + {node})) + {node};
  }

  /** What the walk from `start` keeps true: `visited` is what earlier walks and this chain reached. */
  ghost predicate WalkInvariant(info: Info, graph: Graph, start: string, done: seq<Stamp>, visited0: set<string>,
                          chain: seq<Stamp>, visited: set<string>, stack: seq<string>)
  {
    WalkCore(info, graph, start, done, visited0, chain, visited, stack)
    && WalkReach(graph, start, chain, stack)
    && WalkOrder(graph, chain, stack)
  }

  /** The bookkeeping part: ids, stamps, the first node and closure up to the stack. */
  predicate WalkCore(info: Info, graph: Graph, start: string, done: seq<Stamp>, visited0: set<string>,
                     chain: seq<Stamp>, visited: set<string>, stack: seq<string>)
  {
    visited == visited0 + IdsOf(chain) && visited <= info.Keys
    && (forall x :: x in stack ==> x in info)
    && DistinctIds(done + chain)
    && (forall t :: t in chain ==> t.id in info && info[t.id] == t)
    && (|chain| == 0 ==> stack == [start] && start !in visited)
    && (|chain| > 0 ==> chain[0].id == start)
    && ClosedUpTo(graph, visited, stack)
  }

  /** Everything in the chain and on the stack is reachable from `start`. */
  ghost predicate WalkReach(graph: Graph, start: string, chain: seq<Stamp>, stack: seq<string>) {
    ReachedFrom(graph, start, chain) && forall x :: x in stack ==> Reaches(graph, start, x)
  }

  lemma WalkReachStep(graph: Graph, start: string, chain: seq<Stamp>, t: Stamp, rest: seq<string>, next: seq<string>)
    requires WalkReach(graph, start, chain, rest + [t.id])
    requires forall m :: m in next ==> HasEdge(graph, t.id, m)
    ensures WalkReach(graph, start, chain + [t], rest + next)
  {
    assert t.id in rest + [t.id];
    forall m | m in next ensures Reaches(graph, start, m) {
      ReachesStep(graph, start, t.id, m);
    }
    forall x | x in rest ensures Reaches(graph, start, x) {
      assert x in rest + [t.id];
    }
  }

  /** The chain is edge-ordered and, once started, every pending node is a successor of one of its nodes. */
  predicate WalkOrder(graph: Graph, chain: seq<Stamp>, stack: seq<string>) {
    EdgeOrdered(graph, chain)
    && (|chain| > 0 ==> forall x :: x in stack ==> EdgeFromBefore(graph, chain, |chain|, x))
  }

  lemma WalkVisitedNode(info: Info, graph: Graph, start: string, done: seq<Stamp>, visited0: set<string>,
                        chain: seq<Stamp>, visited: set<string>, rest: seq<string>, node: string)
    requires WalkInvariant(info, graph, start, done, visited0, chain, visited, rest + [node])
    requires node in visited && |chain| > 0
    ensures WalkInvariant(info, graph, start, done, visited0, chain, visited, rest)
  {
    PopVisited(graph, visited, rest, node);
    forall x | x in rest ensures x in rest + [node] {
    }
    assert WalkReach(graph, start, chain, rest);
  }

  lemma WalkNewNode(info: Info, graph: Graph, start: string, done: seq<Stamp>, visited0: set<string>,
                    chain: seq<Stamp>, visited: set<string>, rest: seq<string>, node: string, next: seq<string>)
    requires InfoConsistent(info) && GraphWithin(info, graph)
    requires WalkInvariant(info, graph, start, done, visited0, chain, visited, rest + [node])
    requires node !in visited && visited0 == IdsOf(done)
    requires node in graph ==> forall m :: m in graph[node] ==> m in next
    requires forall m :: m in next ==> node in graph && m in graph[node]
    ensures WalkInvariant(info, graph, start, done, visited0, chain + [info[node]], visited + {node}, rest + next)
  {
    var t := info[node];
    assert t.id == node;
    WalkCoreStep(info, graph, start, done, visited0, chain, visited, rest, node, next);
    WalkReachStep(graph, start, chain, t, rest, next);
    if |chain| == 0 {
      assert rest + [node] == [start];
      assert rest == [];
    }
    EdgeOrderStep(graph, chain, t, rest, next);
  }

  lemma WalkCoreStep(info: Info, graph: Graph, start: string, done: seq<Stamp>, visited0: set<string>,
                     chain: seq<Stamp>, visited: set<string>, rest: seq<string>, node: string, next: seq<string>)
    requires InfoConsistent(info) && GraphWithin(info, graph)
    requires WalkCore(info, graph, start, done, visited0, chain, visited, rest + [node])
    requires node !in visited && visited0 == IdsOf(done)
    requires node in graph ==> forall m :: m in graph[node] ==> m in next
    requires forall m :: m in next ==> node in graph && m in graph[node]
    ensures WalkCore(info, graph, start, done, visited0, chain + [info[node]], visited + {node}, rest + next)
  {
    var t := info[node];
    assert t.id == node;
    assert rest + [node] == (rest + [node])[..|rest|] + [node];
    assert node in rest + [node];
    AppendNewId(done, chain, t);
    PopNew(graph, visited, rest, node, next);
    if |chain| == 0 {
      assert rest + [node] == [start];
    }
    assert (chain + [t])[0] == if |chain| == 0 then t else chain[0];
  }

  /** Appending a popped node keeps the chain edge-ordered and every pending node a successor of the chain. */
  lemma EdgeOrderStep(graph: Graph, chain: seq<Stamp>, t: Stamp, rest: seq<string>, next: seq<string>)
    requires WalkOrder(graph, chain, rest + [t.id])
    requires |chain| == 0 ==> rest == []
    requires forall m :: m in next ==> HasEdge(graph, t.id, m)
    ensures WalkOrder(graph, chain + [t], rest + next)
  {
    var c1 := chain + [t];
    forall i | 0 < i < |c1| ensures EdgeFromBefore(graph, c1, i, c1[i].id) {
      if i < |chain| {
        assert EdgeFromBefore(graph, chain, i, chain[i].id);
        var j :| 0 <= j < i && HasEdge(graph, chain[j].id, chain[i].id);
        assert c1[j] == chain[j] && c1[i] == chain[i];
      } else {
        assert i == |chain| && c1[i] == t && t.id in rest + [t.id];
        assert EdgeFromBefore(graph, chain, |chain|, t.id);
        var j :| 0 <= j < |chain| && HasEdge(graph, chain[j].id, t.id);
        assert c1[j] == chain[j];
      }
    }
    forall x | x in rest + next ensures EdgeFromBefore(graph, c1, |c1|, x) {
      if x in next {
        assert c1[|chain|] == t;
      } else {
        assert x in rest + [t.id];
        assert EdgeFromBefore(graph, chain, |chain|, x);
        var j :| 0 <= j < |chain| && HasEdge(graph, chain[j].id, x);
        assert c1[j] == chain[j];
      }
    }
  }

  lemma WalkFinished(info: Info, graph: Graph, start: string, done: seq<Stamp>, visited0: set<string>,
                     chain: seq<Stamp>, visited: set<string>)
    requires WalkInvariant(info, graph, start, done, visited0, chain, visited, [])
    ensures |chain| > 0 && chain[0].id == start
    ensures visited0 + IdsOf(chain) <= info.Keys
    ensures forall n :: n in visited0 + IdsOf(chain) && n in graph ==> graph[n] <= visited0 + IdsOf(chain)
    ensures ReachedFrom(graph, start, chain)
    ensures EdgeOrdered(graph, chain)
  {
  }

  lemma SplitLast(s: seq<string>)
    requires |s| > 0
    ensures s == s[..|s| - 1] + [s[|s| - 1]]
  {
  }

  /** One walk from `start`, skipping what earlier walks visited. */
  method WalkFrom(info: Info, graph: Graph, start: string, ghost done: seq<Stamp>, visited0: set<string>)
      returns (chain: seq<Stamp>)
    requires InfoConsistent(info) && GraphWithin(info, graph)
    requires start in info && start !in visited0
    requires visited0 == IdsOf(done) && visited0 <= info.Keys && DistinctIds(done)
    requires forall n :: n in visited0 && n in graph ==> graph[n] <= visited0
    ensures |chain| > 0 && chain[0].id == start
    ensures visited0 + IdsOf(chain) <= info.Keys
    ensures DistinctIds(done + chain)
    ensures forall t :: t in chain ==> t.id in info && info[t.id] == t
    ensures forall n :: n in visited0 + IdsOf(chain) && n in graph ==> graph[n] <= visited0 + IdsOf(chain)
    ensures ReachedFrom(graph, start, chain)
    ensures EdgeOrdered(graph, chain)
    ensures forall n :: Reaches(graph, start, n) ==> n in visited0 + IdsOf(chain)
  {
    chain := [];
    var visited := visited0;
    var stack := [start];
    assert done + chain == done;
    ReachesSelf(graph, start);
    assert WalkInvariant(info, graph, start, done, visited0, chain, visited, stack);
    while |stack| > 0
      invariant WalkInvariant(info, graph, start, done, visited0, chain, visited, stack)
      decreases |info.Keys - visited|, |stack|
    {
      var node := stack[|stack| - 1];
      var rest := stack[..|stack| - 1];
      SplitLast(stack);
      if node in visited {
        assert |chain| > 0;
        WalkVisitedNode(info, graph, start, done, visited0, chain, visited, rest, node);
        stack := rest;
      } else {
        var next: seq<string> := [];
        if node in graph {
          next := SetToSeq(graph[node]);
        }
        WalkNewNode(info, graph, start, done, visited0, chain, visited, rest, node, next);
        FewerUnvisited(info.Keys, visited, node);
        chain := chain + [info[node]];
        visited := visited + {node};
        stack := rest + next;
      }
    }
    WalkFinished(info, graph, start, done, visited0, chain, visited);
    forall n | Reaches(graph, start, n) ensures n in visited0 + IdsOf(chain) {
      assert chain[0] in chain;
      ClosedUnderReach(graph, visited0 + IdsOf(chain), start, n);
    }
  }

  /**
   * What `_get_version_time_id_chain` promises of its chains for `lists`, in
   * every iteration order of its sets: each chain starts at an id that follows
   * no other and holds exactly the ids linked to that start that no earlier
   * chain holds, each after some id of the chain it follows; every stamp comes
   * from a list and no id is listed twice; every id that follows no other is
   * listed and so is, with any id, every id that follows it.
   */
  ghost predicate ChainsOf(lists: seq<seq<Stamp>>, chains: seq<seq<Stamp>>) {
    ChainStarts(lists, chains) && StampsFrom(lists, chains) && DistinctIds(Flatten(chains))
    && ChainsClosed(lists, chains) && FirstLinked(lists, chains) && FollowOrdered(lists, chains)
  }

  /** Each chain starts at an id that follows no other and holds only ids linked to it. */
  ghost predicate ChainStarts(lists: seq<seq<Stamp>>, chains: seq<seq<Stamp>>) {
    forall c: seq<Stamp> :: c in chains ==>
      |c| > 0 && c[0].id in NodesOf(lists) && (forall a :: !Follows(lists, a, c[0].id))
      && forall t :: t in c ==> Linked(lists, c[0].id, t.id)
  }

  /** Every stamp of the chains occurs in one of the lists. */
  ghost predicate StampsFrom(lists: seq<seq<Stamp>>, chains: seq<seq<Stamp>>) {
    forall t :: t in Flatten(chains) ==> exists l :: l in lists && t in l
  }

  /** Every id that follows no other is listed, and so is whatever follows a listed id. */
  ghost predicate ChainsClosed(lists: seq<seq<Stamp>>, chains: seq<seq<Stamp>>) {
    (forall n :: n in NodesOf(lists) && (forall a :: !Follows(lists, a, n)) ==> n in IdsOf(Flatten(chains)))
    && (forall a, b :: a in IdsOf(Flatten(chains)) && Follows(lists, a, b) ==> b in IdsOf(Flatten(chains)))
  }

  /** Each chain holds every id linked to its start that no earlier chain holds. */
  ghost predicate FirstLinked(lists: seq<seq<Stamp>>, chains: seq<seq<Stamp>>) {
    forall k: int, n: string ::
      0 <= k < |chains| && |chains[k]| > 0 && Linked(lists, chains[k][0].id, n) && n !in IdsOf(Flatten(chains[..k]))
      ==> n in IdsOf(chains[k])
  }

  /** In each chain, every id after the first follows an earlier id of the chain in some list. */
  predicate FollowOrdered(lists: seq<seq<Stamp>>, chains: seq<seq<Stamp>>) {
    forall c: seq<Stamp>, i :: c in chains && 0 < i < |c| ==> exists j :: 0 <= j < i && Follows(lists, c[j].id, c[i].id)
  }

  /** `_get_version_time_id_chain`: the graph of the lists, walked from every start node. */
  method GetVersionTimeIdChain(lists: seq<seq<Stamp>>) returns (chains: seq<seq<Stamp>>)
    ensures ChainsOf(lists, chains)
  {
    var (info, graph) := BuildGraph(lists);
    chains := WalkChains(info, graph);
    forall n ensures n in StartNodes(info, graph) <==> n in NodesOf(lists) && forall a :: !Follows(lists, a, n) {
      forall a ensures HasEdge(graph, a, n) <==> Follows(lists, a, n) {
        BuildGraphEdges(lists, a, n);
      }
    }
    forall c: seq<Stamp>, t | c in chains && t in c ensures Linked(lists, c[0].id, t.id) {
      ReachesLinked(lists, c[0].id, t.id);
    }
    forall t | t in Flatten(chains) ensures exists l :: l in lists && t in l {
      BuildGraphStamps(lists, t.id);
    }
    forall a, b | a in IdsOf(Flatten(chains)) && Follows(lists, a, b) ensures b in IdsOf(Flatten(chains)) {
      BuildGraphEdges(lists, a, b);
    }
    forall k: int, n: string | 0 <= k < |chains| && |chains[k]| > 0 && Linked(lists, chains[k][0].id, n)
                  && n !in IdsOf(Flatten(chains[..k]))
      ensures n in IdsOf(chains[k])
    {
      LinkedReaches(lists, chains[k][0].id, n);
    }
    forall c: seq<Stamp>, i | c in chains && 0 < i < |c|
      ensures exists j :: 0 <= j < i && Follows(lists, c[j].id, c[i].id)
    {
      assert EdgeOrdered(graph, c) && EdgeFromBefore(graph, c, i, c[i].id);
      var j :| 0 <= j < i && HasEdge(graph, c[j].id, c[i].id);
      BuildGraphEdges(lists, c[j].id, c[i].id);
    }
  }

  /** The two lists `[a, b]` and `[c, d]` give two chains, not one: `c` is not linked to `a`. */
  lemma SeparateListsAreNotLinked(a: Stamp, b: Stamp, c: Stamp, d: Stamp)
    requires a.id == "a" && b.id == "b" && c.id == "c" && d.id == "d"
    ensures !ChainsOf([[a, b], [c, d]], [[a, b, c, d]])
  {
    var lists := [[a, b], [c, d]];
    assert PairsOf(lists) == [(a, b), (c, d)] by {
      assert PairsOf(lists[1..]) == Consecutive([c, d]) + PairsOf([]);
    }
    if Linked(lists, "a", "c") {
      var p :| |p| > 0 && p[0] == "a" && p[|p| - 1] == "c" && FollowPath(lists, p);
      LinkedFromA(lists, p);
    }
    assert c in [a, b, c, d];
  }

  /** The lists `[a, x, y]` and `[b, x, z]`, two branches that meet at `x`. */
  predicate MeetingLists(a: Stamp, x: Stamp, y: Stamp, b: Stamp, z: Stamp) {
    a.id == "a" && x.id == "x" && y.id == "y" && b.id == "b" && z.id == "z"
  }

  lemma MeetingPairs(a: Stamp, x: Stamp, y: Stamp, b: Stamp, z: Stamp)
    requires MeetingLists(a, x, y, b, z)
    ensures PairsOf([[a, x, y], [b, x, z]]) == [(a, x), (x, y), (b, x), (x, z)]
  {
    var lists := [[a, x, y], [b, x, z]];
    assert Consecutive([x, y]) == [(x, y)];
    assert Consecutive([x, z]) == [(x, z)];
    assert PairsOf(lists[1..]) == Consecutive([b, x, z]) + PairsOf([]);
  }

  /**
   * Splitting `[a, x, y]` and `[b, x, z]` into `[a, z]` and `[b, x, y]` is not
   * a walk's outcome: `x` follows `a`, so the chain from `a` must hold it.
   */
  lemma MeetingListsMisSplit(a: Stamp, x: Stamp, y: Stamp, b: Stamp, z: Stamp)
    requires MeetingLists(a, x, y, b, z)
    ensures !ChainsOf([[a, x, y], [b, x, z]], [[a, z], [b, x, y]])
  {
    var lists := [[a, x, y], [b, x, z]];
    var chains := [[a, z], [b, x, y]];
    MeetingPairs(a, x, y, b, z);
    assert (a, x) in PairsOf(lists);
    assert FollowPath(lists, ["a", "x"]);
    assert Linked(lists, "a", "x");
    assert Flatten(chains[..0]) == [];
    assert "x" !in IdsOf(chains[0]);
  }

  /** In `[a, x, y]` and `[b, x, z]` exactly `a` and `b` follow no id. */
  lemma MeetingStarts(a: Stamp, x: Stamp, y: Stamp, b: Stamp, z: Stamp, n: string)
    requires MeetingLists(a, x, y, b, z)
    ensures n in NodesOf([[a, x, y], [b, x, z]]) && (forall m :: !Follows([[a, x, y], [b, x, z]], m, n))
            <==> n == "a" || n == "b"
  {
    var lists := [[a, x, y], [b, x, z]];
    var ps := PairsOf(lists);
    MeetingPairs(a, x, y, b, z);
    assert forall p :: p in ps <==> p == (a, x) || p == (x, y) || p == (b, x) || p == (x, z);
    assert Follows(lists, "a", "x") && Follows(lists, "x", "y") && Follows(lists, "x", "z");
    assert "a" in NodesOf(lists) && "b" in NodesOf(lists);
  }

  /** From `a` or `b`, the ids `x`, `y` and `z` are all linked. */
  lemma MeetingLinked(a: Stamp, x: Stamp, y: Stamp, b: Stamp, z: Stamp, s: string)
    requires MeetingLists(a, x, y, b, z) && (s == "a" || s == "b")
    ensures var lists := [[a, x, y], [b, x, z]];
            Linked(lists, s, "x") && Linked(lists, s, "y") && Linked(lists, s, "z")
  {
    var lists := [[a, x, y], [b, x, z]];
    var ps := PairsOf(lists);
    MeetingPairs(a, x, y, b, z);
    assert (a, x) in ps && (x, y) in ps && (b, x) in ps && (x, z) in ps;
    assert FollowPath(lists, [s, "x", "y"]) && FollowPath(lists, [s, "x", "z"]) && FollowPath(lists, [s, "x"]);
  }

  /**
   * For `[a, x, y]` and `[b, x, z]` every walk order makes the first chain
   * start at `a` or `b` and hold `x`, `y` and `z` as well.
   */
  lemma MeetingListsFirstChain(a: Stamp, x: Stamp, y: Stamp, b: Stamp, z: Stamp, chains: seq<seq<Stamp>>)
    requires MeetingLists(a, x, y, b, z)
    requires ChainsOf([[a, x, y], [b, x, z]], chains)
    ensures |chains| > 0
    ensures {"a", "x", "y", "z"} <= IdsOf(chains[0]) || {"b", "x", "y", "z"} <= IdsOf(chains[0])
  {
    var lists := [[a, x, y], [b, x, z]];
    MeetingStarts(a, x, y, b, z, "a");
    assert ChainsClosed(lists, chains);
    assert "a" in IdsOf(Flatten(chains));
    assert |chains| > 0;
    var c := chains[0];
    assert c in chains && ChainStarts(lists, chains);
    var s := c[0].id;
    MeetingStarts(a, x, y, b, z, s);
    MeetingLinked(a, x, y, b, z, s);
    assert Flatten(chains[..0]) == [] && FirstLinked(lists, chains);
    assert c[0] in c;
  }

  /** Along the pairs `(a, b)` and `(c, d)` a path from "a" never leaves {"a", "b"}. */
  lemma {:induction false} LinkedFromA(lists: seq<seq<Stamp>>, p: seq<string>)
    requires |p| > 0 && p[0] == "a" && FollowPath(lists, p)
    requires forall q :: q in PairsOf(lists) ==> (q.0.id == "a" && q.1.id == "b") || (q.0.id == "c" && q.1.id == "d")
    ensures p[|p| - 1] in {"a", "b"}
    decreases |p|
  {
    if |p| > 1 {
      var front := p[..|p| - 1];
      assert FollowPath(lists, front) by {
        forall i | 0 <= i < |front| - 1 ensures Follows(lists, front[i], front[i + 1]) {
          assert front[i] == p[i] && front[i + 1] == p[i + 1];
        }
      }
      LinkedFromA(lists, front);
      assert Follows(lists, p[|p| - 2], p[|p| - 1]);
    }
  }

  // ------------------------------------------------------------- matching

  /** `{"id": ..., "chain": ...}` */
  datatype ChainMatch = ChainMatch(id: string, chain: seq<Stamp>)

  /** The chain holds every version id the message records. */
  predicate Covers(chain: seq<Stamp>, m: Msg) {
    IdsOf(m.versions) <= IdsOf(chain)
  }

  /** `chains[i]` is the first chain covering `m`. */
  predicate FirstCover(chains: seq<seq<Stamp>>, m: Msg, i: int) {
    0 <= i < |chains| && Covers(chains[i], m) && forall j :: 0 <= j < i ==> !Covers(chains[j], m)
  }

  /**
   * `_get_version_chain_matches`: in candidate order, each candidate some
   * chain covers is paired with the first such chain; the rest are skipped.
   */
  function GetVersionChainMatches(cands: seq<Msg>, chains: seq<seq<Stamp>>): (r: seq<ChainMatch>)
    ensures |r| <= |cands|
    ensures forall x :: x in r ==> exists c, i :: c in cands && c.id == x.id && FirstCover(chains, c, i) && x.chain == chains[i]
  {
    if |cands| == 0 then []
    else
      var c := cands[0];
      var rest := GetVersionChainMatches(cands[1..], chains);
      assert forall m :: m in cands[1..] ==> m in cands;
      match FindIndex(chains, (ch: seq<Stamp>) => Covers(ch, c))
      case None => rest
      case Some(i) =>
        assert FirstCover(chains, c, i);
        [ChainMatch(c.id, chains[i])] + rest
  }

  /** No candidate a chain covers is skipped. */
  lemma {:induction false} MatchesComplete(cands: seq<Msg>, chains: seq<seq<Stamp>>, j: nat, i: nat)
    requires j < |cands| && i < |chains| && Covers(chains[i], cands[j])
    ensures exists x :: x in GetVersionChainMatches(cands, chains) && x.id == cands[j].id
    decreases |cands|
  {
    var r := GetVersionChainMatches(cands, chains);
    var rest := GetVersionChainMatches(cands[1..], chains);
    if j == 0 {
      var k := FindIndex(chains, (ch: seq<Stamp>) => Covers(ch, cands[0]));
      assert k.Some?;
      assert r[0].id == cands[0].id;
    } else {
      MatchesComplete(cands[1..], chains, j - 1, i);
      var x :| x in rest && x.id == cands[j].id;
      assert x in r;
    }
  }

  /** The matches of consecutive candidate lists are the matches of each, in order. */
  lemma {:induction false} MatchesAppend(a: seq<Msg>, b: seq<Msg>, chains: seq<seq<Stamp>>)
    ensures GetVersionChainMatches(a + b, chains) == GetVersionChainMatches(a, chains) + GetVersionChainMatches(b, chains)
    decreases |a|
  {
    if |a| > 0 {
      assert (a + b)[0] == a[0] && (a + b)[1..] == a[1..] + b;
      MatchesAppend(a[1..], b, chains);
    } else {
      assert a + b == b;
    }
  }

  /** One candidate gives one match, with the first chain covering it, or none when no chain covers it. */
  lemma MatchesOfOne(c: Msg, chains: seq<seq<Stamp>>)
    ensures (forall i :: 0 <= i < |chains| ==> !Covers(chains[i], c)) ==> GetVersionChainMatches([c], chains) == []
    ensures forall i :: FirstCover(chains, c, i) ==> GetVersionChainMatches([c], chains) == [ChainMatch(c.id, chains[i])]
  {
    assert [c][0] == c && [c][1..] == [];
    var k := FindIndex(chains, (ch: seq<Stamp>) => Covers(ch, c));
    forall i | FirstCover(chains, c, i) ensures GetVersionChainMatches([c], chains) == [ChainMatch(c.id, chains[i])] {
      assert k == Some(i);
    }
  }

  // ----------------------------------------------------------- replacement

  /** Version `v` has message `id` at row `idx`. */
  predicate Holds(v: BVersion, idx: nat, id: string) {
    idx < |v.messages| && v.messages[idx].id == id
  }

  /** The first version holding message `id` at row `idx`: the one the replacement loop breaks at. */
  function HolderIndex(s: seq<BVersion>, idx: nat, id: string): (r: Option<nat>)
    ensures r.Some? ==> r.value < |s| && Holds(s[r.value], idx, id) && forall u :: 0 <= u < r.value ==> !Holds(s[u], idx, id)
    ensures r.None? <==> forall u :: 0 <= u < |s| ==> !Holds(s[u], idx, id)
  {
    FindIndex(s, (v: BVersion) => Holds(v, idx, id))
  }

  /** The earliest match for message `id`. */
  function MatchIndex(ms: seq<ChainMatch>, id: string): (r: Option<nat>)
    ensures r.Some? ==> r.value < |ms| && ms[r.value].id == id && forall i :: 0 <= i < r.value ==> ms[i].id != id
    ensures r.None? <==> forall i :: 0 <= i < |ms| ==> ms[i].id != id
  {
    FindIndex(ms, (x: ChainMatch) => x.id == id)
  }

  function SetVersionsAt(s: seq<BVersion>, v: nat, idx: nat, chain: seq<Stamp>): seq<BVersion>
    requires v < |s| && idx < |s[v].messages|
  {
    s[v := s[v].(messages := s[v].messages[idx := s[v].messages[idx].(versions := chain)])]
  }

  /** One popped match: the first holder's message gets the chain. */
  function ReplaceChain(s: seq<BVersion>, idx: nat, x: ChainMatch): seq<BVersion> {
    match HolderIndex(s, idx, x.id)
    case None => s
    case Some(v) => SetVersionsAt(s, v, idx, x.chain)
  }

  /** `while id_version_chain_matches: ... pop()`: the matches are applied last first. */
  function ApplyMatches(s: seq<BVersion>, idx: nat, ms: seq<ChainMatch>): seq<BVersion>
    decreases |ms|
  {
    if |ms| == 0 then s
    else ApplyMatches(ReplaceChain(s, idx, ms[|ms| - 1]), idx, ms[..|ms| - 1])
  }

  /**
   * What the replacement loop leaves at row `idx` of version `v`: the chain of
   * the earliest match for the message if `v` is the first version holding
   * it, and the old list otherwise.
   */
  function Expected(s: seq<BVersion>, idx: nat, ms: seq<ChainMatch>, v: nat): seq<Stamp>
    requires v < |s| && idx < |s[v].messages|
  {
    var id := s[v].messages[idx].id;
    match MatchIndex(ms, id)
    case Some(i) => if HolderIndex(s, idx, id) == Some(v) then ms[i].chain else s[v].messages[idx].versions
    case None => s[v].messages[idx].versions
  }

  lemma ReplaceChainSpec(s: seq<BVersion>, idx: nat, x: ChainMatch)
    ensures var r := ReplaceChain(s, idx, x);
            SameShape(s, r)
            && (forall v, k :: 0 <= v < |s| && 0 <= k < |s[v].messages| && k != idx ==> r[v].messages[k] == s[v].messages[k])
            && (forall v :: 0 <= v < |s| && idx < |s[v].messages| ==>
                  r[v].messages[idx].versions ==
                    if HolderIndex(s, idx, x.id) == Some(v) then x.chain else s[v].messages[idx].versions)
  {
    var r := ReplaceChain(s, idx, x);
    match HolderIndex(s, idx, x.id)
    case None =>
      assert forall i :: 0 <= i < |s| ==> SameVersion(s[i], r[i]);
    case Some(w) =>
      forall i | 0 <= i < |s| ensures SameVersion(s[i], r[i]) {
        if i == w {
          assert SameMessages(s[i].messages, r[i].messages);
        }
      }
  }

  lemma ShapeKeepsHolder(a: seq<BVersion>, b: seq<BVersion>, idx: nat, id: string)
    requires SameShape(a, b)
    ensures HolderIndex(a, idx, id) == HolderIndex(b, idx, id)
  {
    assert forall u :: 0 <= u < |a| ==> (Holds(a[u], idx, id) <==> Holds(b[u], idx, id)) by {
      forall u | 0 <= u < |a| ensures Holds(a[u], idx, id) <==> Holds(b[u], idx, id) {
        assert SameVersion(a[u], b[u]);
      }
    }
  }

  /** The replacement loop changes only row `idx`, and only `versions` lists there. */
  lemma {:induction false} ApplyMatchesShape(s: seq<BVersion>, idx: nat, ms: seq<ChainMatch>)
    ensures var r := ApplyMatches(s, idx, ms);
            SameShape(s, r)
            && (forall v, k :: 0 <= v < |s| && 0 <= k < |s[v].messages| && k != idx ==> r[v].messages[k] == s[v].messages[k])
    decreases |ms|
  {
    var r := ApplyMatches(s, idx, ms);
    if |ms| == 0 {
      assert SameShape(s, r);
    } else {
      var s1 := ReplaceChain(s, idx, ms[|ms| - 1]);
      ReplaceChainSpec(s, idx, ms[|ms| - 1]);
      ApplyMatchesShape(s1, idx, ms[..|ms| - 1]);
      ShapeTransitive(s, s1, r);
      forall v, k | 0 <= v < |s| && 0 <= k < |s[v].messages| && k != idx
        ensures r[v].messages[k] == s[v].messages[k]
      {
        assert SameVersion(s[v], s1[v]);
      }
    }
  }

  lemma MatchIndexPop(ms: seq<ChainMatch>, id: string)
    requires |ms| > 0
    ensures var front := ms[..|ms| - 1];
            MatchIndex(ms, id) == if MatchIndex(front, id).Some? then MatchIndex(front, id)
                                  else if ms[|ms| - 1].id == id then Some(|ms| - 1) else None
  {
  }

  lemma ReplaceChainCell(s: seq<BVersion>, idx: nat, x: ChainMatch, v: nat)
    requires v < |s| && idx < |s[v].messages|
    ensures var r := ReplaceChain(s, idx, x);
            |r| == |s| && SameVersion(s[v], r[v])
            && r[v].messages[idx].versions == if HolderIndex(s, idx, x.id) == Some(v) then x.chain else s[v].messages[idx].versions
  {
  }

  /** One message of the row: popping the last match first leaves the earliest match's chain. */
  lemma ExpectedAfterPop(s: seq<BVersion>, s1: seq<BVersion>, idx: nat, ms: seq<ChainMatch>, v: nat)
    requires |ms| > 0 && s1 == ReplaceChain(s, idx, ms[|ms| - 1]) && SameShape(s, s1)
    requires v < |s| && idx < |s[v].messages|
    ensures Expected(s1, idx, ms[..|ms| - 1], v) == Expected(s, idx, ms, v)
  {
    var id := s[v].messages[idx].id;
    ReplaceChainCell(s, idx, ms[|ms| - 1], v);
    ShapeKeepsHolder(s, s1, idx, id);
    MatchIndexPop(ms, id);
  }

  /** The replacement loop for one row, against its reference `Expected`. */
  lemma {:induction false} ApplyMatchesRow(s: seq<BVersion>, idx: nat, ms: seq<ChainMatch>)
    ensures var r := ApplyMatches(s, idx, ms);
            |r| == |s|
            && forall v :: 0 <= v < |s| && idx < |s[v].messages| ==>
                 idx < |r[v].messages| && r[v].messages[idx].versions == Expected(s, idx, ms, v)
    decreases |ms|
  {
    ApplyMatchesShape(s, idx, ms);
    var r := ApplyMatches(s, idx, ms);
    if |ms| > 0 {
      var s1 := ReplaceChain(s, idx, ms[|ms| - 1]);
      ApplyMatchesRow(s1, idx, ms[..|ms| - 1]);
      ReplaceChainSpec(s, idx, ms[|ms| - 1]);
      forall v | 0 <= v < |s| && idx < |s[v].messages|
        ensures idx < |r[v].messages| && r[v].messages[idx].versions == Expected(s, idx, ms, v)
      {
        ExpectedAfterPop(s, s1, idx, ms, v);
        assert SameVersion(s[v], s1[v]) && SameVersion(s[v], r[v]);
      }
    } else {
      forall v | 0 <= v < |s| && idx < |s[v].messages|
        ensures idx < |r[v].messages| && r[v].messages[idx].versions == Expected(s, idx, ms, v)
      {
        assert MatchIndex(ms, s[v].messages[idx].id) == None;
      }
    }
  }

  // ------------------------------------------------------------- the pass

  lemma {:induction false} FlattenMember(chains: seq<seq<Stamp>>, c: seq<Stamp>)
    requires c in chains
    ensures forall t :: t in c ==> t in Flatten(chains)
    ensures DistinctIds(Flatten(chains)) ==> DistinctIds(c)
    decreases |chains|
  {
    var n := |chains|;
    var front, last := chains[..n - 1], chains[n - 1];
    assert Flatten(chains) == Flatten(front) + last;
    if c == last {
      var f := Flatten(front);
      if DistinctIds(f + last) {
        forall i, j | 0 <= i < j < |last| ensures last[i].id != last[j].id {
          assert (f + last)[|f| + i] == last[i] && (f + last)[|f| + j] == last[j];
        }
      }
    } else {
      assert c in front;
      FlattenMember(front, c);
      var f := Flatten(front);
      if DistinctIds(f + last) {
        assert forall i :: 0 <= i < |f| ==> (f + last)[i] == f[i];
      }
    }
  }

  /** The number of rows `zip_longest` produces: the longest version's message count. */
  function RowCount(s: seq<BVersion>): (r: nat)
    ensures forall v :: 0 <= v < |s| ==> |s[v].messages| <= r
    ensures r == 0 || exists v :: 0 <= v < |s| && |s[v].messages| == r
  {
    if |s| == 0 then 0
    else
      var rest := RowCount(s[1..]);
      assert forall v :: 1 <= v < |s| ==> s[v] == s[1..][v - 1];
      assert rest > 0 ==> exists v :: 1 <= v < |s| && |s[v].messages| == rest by {
        if rest > 0 {
          var w :| 0 <= w < |s[1..]| && |s[1..][w].messages| == rest;
          assert s[w + 1] == s[1..][w];
        }
      }
      if |s[0].messages| > rest then |s[0].messages| else rest
  }

  /** `candidate_cells`: the row's messages whose `versions` list is not empty, in version order. */
  function Candidates(s: seq<BVersion>, idx: nat): seq<Msg>
  {
    if |s| == 0 then []
    else
      var rest := Candidates(s[1..], idx);
      if idx < |s[0].messages| && |s[0].messages[idx].versions| > 0 then [s[0].messages[idx]] + rest else rest
  }

  /** Every candidate is a message of the row with a non-empty `versions` list. */
  lemma {:induction false} CandidatesSound(s: seq<BVersion>, idx: nat, m: Msg)
    requires m in Candidates(s, idx)
    ensures |m.versions| > 0 && exists v :: 0 <= v < |s| && idx < |s[v].messages| && s[v].messages[idx] == m
    decreases |s|
  {
    if !(idx < |s[0].messages| && s[0].messages[idx] == m && |m.versions| > 0) {
      CandidatesSound(s[1..], idx, m);
      var v :| 0 <= v < |s[1..]| && idx < |s[1..][v].messages| && s[1..][v].messages[idx] == m;
      assert s[v + 1] == s[1..][v];
    }
  }

  /** Every message of the row with a non-empty `versions` list is a candidate. */
  lemma {:induction false} CandidatesComplete(s: seq<BVersion>, idx: nat, v: nat)
    requires v < |s| && idx < |s[v].messages| && |s[v].messages[idx].versions| > 0
    ensures s[v].messages[idx] in Candidates(s, idx)
    decreases |s|
  {
    if v > 0 {
      assert s[1..][v - 1] == s[v];
      CandidatesComplete(s[1..], idx, v - 1);
    }
  }

  /** The candidates of consecutive versions are the candidates of each, in order. */
  lemma {:induction false} CandidatesAppend(a: seq<BVersion>, b: seq<BVersion>, idx: nat)
    ensures Candidates(a + b, idx) == Candidates(a, idx) + Candidates(b, idx)
    decreases |a|
  {
    if |a| > 0 {
      var w, tail := a[0], a[1..];
      var h := if idx < |w.messages| && |w.messages[idx].versions| > 0 then [w.messages[idx]] else [];
      calc {
        Candidates(a + b, idx);
        { assert a + b == [w] + (tail + b); CandidatesCons(w, tail + b, idx); }
        h + Candidates(tail + b, idx);
        { CandidatesAppend(tail, b, idx); }
        h + (Candidates(tail, idx) + Candidates(b, idx));
        (h + Candidates(tail, idx)) + Candidates(b, idx);
        { assert a == [w] + tail; CandidatesCons(w, tail, idx); }
        Candidates(a, idx) + Candidates(b, idx);
      }
    } else {
      assert a + b == b;
    }
  }

  lemma CandidatesCons(w: BVersion, rest: seq<BVersion>, idx: nat)
    ensures Candidates([w] + rest, idx) ==
              (if idx < |w.messages| && |w.messages[idx].versions| > 0 then [w.messages[idx]] else []) + Candidates(rest, idx)
  {
    assert ([w] + rest)[0] == w && ([w] + rest)[1..] == rest;
  }

  /** One version contributes its message at row `idx` exactly when it has one with a non-empty `versions` list. */
  lemma CandidatesOfOne(w: BVersion, idx: nat)
    ensures Candidates([w], idx) == if idx < |w.messages| && |w.messages[idx].versions| > 0 then [w.messages[idx]] else []
  {
    assert [w][0] == w && [w][1..] == [];
  }

  /** `versions_to_check` */
  function VersionLists(cands: seq<Msg>): (r: seq<seq<Stamp>>)
    ensures |r| == |cands| && forall i :: 0 <= i < |cands| ==> r[i] == cands[i].versions
  {
    seq(|cands|, i requires 0 <= i < |cands| => cands[i].versions)
  }

  /** Stamp `t` is recorded by some message at row `k`. */
  predicate InRow(s: seq<BVersion>, k: nat, t: Stamp) {
    exists v :: 0 <= v < |s| && k < |s[v].messages| && t in s[v].messages[k].versions
  }

  /**
   * After the chain pass a message's list is either untouched or a chain: no
   * id twice, every stamp taken from the same row, and covering every id a
   * message with the same id recorded in that row.
   */
  predicate ChainOrKept(s: seq<BVersion>, r: seq<BVersion>, v: nat, k: nat)
    requires SameShape(s, r) && v < |s| && k < |s[v].messages|
  {
    assert SameVersion(s[v], r[v]);
    var now := r[v].messages[k].versions;
    now == s[v].messages[k].versions
    || (DistinctIds(now) && (forall t :: t in now ==> InRow(s, k, t))
        && exists u :: 0 <= u < |s| && Holds(s[u], k, s[v].messages[k].id) && Covers(now, s[u].messages[k]))
  }

  /**
   * One row of `_make_branched_conversation_chains`, from the state the earlier
   * rows left: the row's chains, their matches against the candidates, and the
   * replacement loop.
   */
  method ChainRow(r: seq<BVersion>, idx: nat) returns (r1: seq<BVersion>)
    ensures exists chains :: ChainsOf(VersionLists(Candidates(r, idx)), chains)
              && r1 == ApplyMatches(r, idx, GetVersionChainMatches(Candidates(r, idx), chains))
  {
    var cands := Candidates(r, idx);
    if |cands| >= 1 {
      var chains := GetVersionTimeIdChain(VersionLists(cands));
      r1 := ApplyMatches(r, idx, GetVersionChainMatches(cands, chains));
    } else {
      r1 := r;
      assert NodesOf(VersionLists(cands)) == {};
      assert ChainsOf(VersionLists(cands), []) && GetVersionChainMatches(cands, []) == [];
    }
  }

  /** Every match pairs a candidate of the row with a duplicate-free chain of the row's stamps that covers it. */
  predicate RowMatches(r: seq<BVersion>, idx: nat, ms: seq<ChainMatch>) {
    forall x :: x in ms ==>
      DistinctIds(x.chain) && (forall t :: t in x.chain ==> InRow(r, idx, t))
      && exists u :: 0 <= u < |r| && Holds(r[u], idx, x.id) && Covers(x.chain, r[u].messages[idx])
  }

  lemma ChainStampInRow(r: seq<BVersion>, idx: nat, cands: seq<Msg>, t: Stamp)
    requires cands == Candidates(r, idx)
    requires exists l :: l in VersionLists(cands) && t in l
    ensures InRow(r, idx, t)
  {
    var lists := VersionLists(cands);
    var l :| l in lists && t in l;
    var q :| 0 <= q < |lists| && lists[q] == l;
    assert cands[q] in cands;
    CandidatesSound(r, idx, cands[q]);
    var v :| 0 <= v < |r| && idx < |r[v].messages| && r[v].messages[idx] == cands[q];
  }

  lemma MatchFromRow(r: seq<BVersion>, idx: nat, cands: seq<Msg>, chains: seq<seq<Stamp>>, x: ChainMatch)
    requires cands == Candidates(r, idx)
    requires forall t :: t in Flatten(chains) ==> exists l :: l in VersionLists(cands) && t in l
    requires DistinctIds(Flatten(chains))
    requires x in GetVersionChainMatches(cands, chains)
    ensures DistinctIds(x.chain) && (forall t :: t in x.chain ==> InRow(r, idx, t))
    ensures exists u :: 0 <= u < |r| && Holds(r[u], idx, x.id) && Covers(x.chain, r[u].messages[idx])
  {
    var c, i :| c in cands && c.id == x.id && FirstCover(chains, c, i) && x.chain == chains[i];
    FlattenMember(chains, chains[i]);
    forall t | t in x.chain ensures InRow(r, idx, t) {
      ChainStampInRow(r, idx, cands, t);
    }
    CandidatesSound(r, idx, c);
    var u :| 0 <= u < |r| && idx < |r[u].messages| && r[u].messages[idx] == c;
    assert Holds(r[u], idx, x.id);
  }

  lemma RowMatchesFrom(r: seq<BVersion>, idx: nat, cands: seq<Msg>, chains: seq<seq<Stamp>>)
    requires cands == Candidates(r, idx)
    requires forall t :: t in Flatten(chains) ==> exists l :: l in VersionLists(cands) && t in l
    requires DistinctIds(Flatten(chains))
    ensures RowMatches(r, idx, GetVersionChainMatches(cands, chains))
  {
    forall x | x in GetVersionChainMatches(cands, chains)
      ensures DistinctIds(x.chain) && (forall t :: t in x.chain ==> InRow(r, idx, t))
      ensures exists u :: 0 <= u < |r| && Holds(r[u], idx, x.id) && Covers(x.chain, r[u].messages[idx])
    {
      MatchFromRow(r, idx, cands, chains, x);
    }
  }

  /** Row `k` and every later one is as in `s`. */
  predicate RowsFrom(s: seq<BVersion>, r: seq<BVersion>, k: nat)
    requires SameShape(s, r)
  {
    forall v, j :: 0 <= v < |s| && k <= j < |s[v].messages| ==>
      assert SameVersion(s[v], r[v]); r[v].messages[j] == s[v].messages[j]
  }

  lemma RowCell(s: seq<BVersion>, r: seq<BVersion>, idx: nat, ms: seq<ChainMatch>, v: nat)
    requires SameShape(s, r) && RowsFrom(s, r, idx) && RowMatches(r, idx, ms)
    requires v < |s| && idx < |s[v].messages|
    ensures var r1 := ApplyMatches(r, idx, ms);
            SameShape(s, r1) && ChainOrKept(s, r1, v, idx)
  {
    var r1 := ApplyMatches(r, idx, ms);
    ApplyMatchesShape(r, idx, ms);
    ApplyMatchesRow(r, idx, ms);
    ShapeTransitive(s, r, r1);
    assert SameVersion(s[v], r[v]);
    var id := r[v].messages[idx].id;
    match MatchIndex(ms, id)
    case None =>
    case Some(i) =>
      if HolderIndex(r, idx, id) == Some(v) {
        var x := ms[i];
        assert x in ms;
        forall t | t in x.chain ensures InRow(s, idx, t) {
          var w :| 0 <= w < |r| && idx < |r[w].messages| && t in r[w].messages[idx].versions;
          assert SameVersion(s[w], r[w]);
        }
        var u :| 0 <= u < |r| && Holds(r[u], idx, x.id) && Covers(x.chain, r[u].messages[idx]);
        assert SameVersion(s[u], r[u]);
        assert Holds(s[u], idx, s[v].messages[idx].id);
      }
  }

  lemma RowDone(s: seq<BVersion>, r: seq<BVersion>, idx: nat, ms: seq<ChainMatch>)
    requires SameShape(s, r) && RowsFrom(s, r, idx) && RowMatches(r, idx, ms)
    requires forall v, k :: 0 <= v < |s| && 0 <= k < idx && k < |s[v].messages| ==> ChainOrKept(s, r, v, k)
    ensures var r1 := ApplyMatches(r, idx, ms);
            SameShape(s, r1) && RowsFrom(s, r1, idx + 1)
            && forall v, k :: 0 <= v < |s| && 0 <= k < idx + 1 && k < |s[v].messages| ==> ChainOrKept(s, r1, v, k)
  {
    var r1 := ApplyMatches(r, idx, ms);
    ApplyMatchesShape(r, idx, ms);
    ShapeTransitive(s, r, r1);
    forall v, k | 0 <= v < |s| && 0 <= k < idx + 1 && k < |s[v].messages| ensures ChainOrKept(s, r1, v, k) {
      if k == idx {
        RowCell(s, r, idx, ms, v);
      } else {
        assert SameVersion(s[v], r[v]);
        assert ChainOrKept(s, r, v, k);
      }
    }
    forall v, j | 0 <= v < |s| && idx + 1 <= j < |s[v].messages| ensures r1[v].messages[j] == s[v].messages[j] {
      assert SameVersion(s[v], r[v]);
    }
  }

  /** Every cell of row `idx` of `r` is what the replacement loop leaves for `ms` from `s`. */
  predicate RowIs(s: seq<BVersion>, r: seq<BVersion>, idx: nat, ms: seq<ChainMatch>) {
    |r| == |s|
    && forall v :: 0 <= v < |s| && idx < |s[v].messages| ==>
         idx < |r[v].messages| && r[v].messages[idx].versions == Expected(s, idx, ms, v)
  }

  /** Row `idx` of `r` is row `idx` of `s` after matching its candidates against some chains of their lists. */
  ghost predicate RowOutcome(s: seq<BVersion>, r: seq<BVersion>, idx: nat) {
    exists chains :: ChainsOf(VersionLists(Candidates(s, idx)), chains)
      && RowIs(s, r, idx, GetVersionChainMatches(Candidates(s, idx), chains))
  }

  /** The whole chain pass: only `versions` lists change, and every row is as the row step leaves it. */
  ghost predicate ChainPass(s: seq<BVersion>, r: seq<BVersion>) {
    SameShape(s, r) && forall idx :: 0 <= idx < RowCount(s) ==> RowOutcome(s, r, idx)
  }

  /** Versions that agree on row `idx` and in shape have the same candidates there. */
  lemma {:induction false} CandidatesSameRow(s: seq<BVersion>, r: seq<BVersion>, idx: nat)
    requires SameShape(s, r)
    requires forall v :: 0 <= v < |s| && idx < |s[v].messages| ==> r[v].messages[idx] == s[v].messages[idx]
    ensures Candidates(r, idx) == Candidates(s, idx)
    decreases |s|
  {
    if |s| > 0 {
      assert SameVersion(s[0], r[0]);
      assert forall v :: 1 <= v < |s| ==> s[1..][v - 1] == s[v] && r[1..][v - 1] == r[v];
      CandidatesSameRow(s[1..], r[1..], idx);
    }
  }

  /** A row not touched since `r` keeps its outcome. */
  lemma RowOutcomeKept(s: seq<BVersion>, r: seq<BVersion>, r1: seq<BVersion>, k: nat)
    requires SameShape(s, r) && SameShape(s, r1) && RowOutcome(s, r, k)
    requires forall v :: 0 <= v < |s| && k < |s[v].messages| ==>
               assert SameVersion(s[v], r[v]) && SameVersion(s[v], r1[v]); r1[v].messages[k] == r[v].messages[k]
    ensures RowOutcome(s, r1, k)
  {
    var chains :| ChainsOf(VersionLists(Candidates(s, k)), chains)
                  && RowIs(s, r, k, GetVersionChainMatches(Candidates(s, k), chains));
    var ms := GetVersionChainMatches(Candidates(s, k), chains);
    forall v | 0 <= v < |s| && k < |s[v].messages|
      ensures k < |r1[v].messages| && r1[v].messages[k].versions == Expected(s, k, ms, v)
    {
      assert SameVersion(s[v], r[v]) && SameVersion(s[v], r1[v]);
    }
    assert RowIs(s, r1, k, ms);
  }

  /** The row step at `idx`, on a state whose row `idx` is still that of `s`, leaves that row's outcome. */
  lemma RowOutcomeNew(s: seq<BVersion>, r: seq<BVersion>, idx: nat, chains: seq<seq<Stamp>>)
    requires SameShape(s, r) && RowsFrom(s, r, idx)
    requires ChainsOf(VersionLists(Candidates(r, idx)), chains)
    ensures RowOutcome(s, ApplyMatches(r, idx, GetVersionChainMatches(Candidates(r, idx), chains)), idx)
  {
    forall v | 0 <= v < |s| && idx < |s[v].messages| ensures r[v].messages[idx] == s[v].messages[idx] {
      assert SameVersion(s[v], r[v]);
    }
    CandidatesSameRow(s, r, idx);
    var ms := GetVersionChainMatches(Candidates(s, idx), chains);
    ApplyMatchesRow(r, idx, ms);
    RowIsFromSameRow(s, r, ApplyMatches(r, idx, ms), idx, ms);
  }

  lemma RowIsFromSameRow(s: seq<BVersion>, r: seq<BVersion>, r1: seq<BVersion>, idx: nat, ms: seq<ChainMatch>)
    requires SameShape(s, r) && RowIs(r, r1, idx, ms)
    requires forall v :: 0 <= v < |s| && idx < |s[v].messages| ==> r[v].messages[idx] == s[v].messages[idx]
    ensures RowIs(s, r1, idx, ms)
  {
    forall v | 0 <= v < |s| && idx < |s[v].messages|
      ensures idx < |r1[v].messages| && r1[v].messages[idx].versions == Expected(s, idx, ms, v)
    {
      assert SameVersion(s[v], r[v]);
      ShapeKeepsHolder(s, r, idx, s[v].messages[idx].id);
    }
  }

  /** Rows after `idx` and before are untouched by the row step at `idx`. */
  lemma RowStepKeepsOthers(s: seq<BVersion>, r: seq<BVersion>, idx: nat, ms: seq<ChainMatch>)
    requires SameShape(s, r) && RowsFrom(s, r, idx)
    requires forall k :: 0 <= k < idx ==> RowOutcome(s, r, k)
    ensures var r1 := ApplyMatches(r, idx, ms);
            SameShape(s, r1) && RowsFrom(s, r1, idx + 1) && forall k :: 0 <= k < idx ==> RowOutcome(s, r1, k)
  {
    var r1 := ApplyMatches(r, idx, ms);
    ApplyMatchesShape(r, idx, ms);
    ShapeTransitive(s, r, r1);
    forall k | 0 <= k < idx ensures RowOutcome(s, r1, k) {
      forall v | 0 <= v < |s| && k < |s[v].messages| ensures r1[v].messages[k] == r[v].messages[k] {
        assert SameVersion(s[v], r[v]);
      }
      RowOutcomeKept(s, r, r1, k);
    }
    forall v, j | 0 <= v < |s| && idx + 1 <= j < |s[v].messages| ensures r1[v].messages[j] == s[v].messages[j] {
      assert SameVersion(s[v], r[v]);
    }
  }

  /** What holds once the rows before `idx` are done. */
  ghost predicate PassDoneUpTo(s: seq<BVersion>, r: seq<BVersion>, idx: nat) {
    SameShape(s, r) && RowsFrom(s, r, idx)
    && (forall k :: 0 <= k < idx ==> RowOutcome(s, r, k))
    && forall v, k :: 0 <= v < |s| && 0 <= k < idx && k < |s[v].messages| ==> ChainOrKept(s, r, v, k)
  }

  /** The row step at `idx`, for any chains of the row's lists, finishes row `idx`. */
  lemma RowStep(s: seq<BVersion>, r: seq<BVersion>, idx: nat, chains: seq<seq<Stamp>>)
    requires PassDoneUpTo(s, r, idx)
    requires ChainsOf(VersionLists(Candidates(r, idx)), chains)
    ensures PassDoneUpTo(s, ApplyMatches(r, idx, GetVersionChainMatches(Candidates(r, idx), chains)), idx + 1)
  {
    var cands := Candidates(r, idx);
    var ms := GetVersionChainMatches(cands, chains);
    var r1 := ApplyMatches(r, idx, ms);
    RowMatchesFrom(r, idx, cands, chains);
    RowDone(s, r, idx, ms);
    RowStepKeepsOthers(s, r, idx, ms);
    RowOutcomeNew(s, r, idx, chains);
    assert forall k :: 0 <= k < idx + 1 ==> RowOutcome(s, r1, k);
  }

  /**
   * `_make_branched_conversation_chains`: rows are processed in order; only
   * `versions` lists change, every row is what the row step makes of it, and
   * each list becomes a chain as `ChainOrKept` says.
   */
  method MakeBranchedConversationChains(s: seq<BVersion>) returns (r: seq<BVersion>)
    ensures ChainPass(s, r)
    ensures forall v, k :: 0 <= v < |s| && 0 <= k < |s[v].messages| ==> ChainOrKept(s, r, v, k)
  {
    r := s;
    var idx := 0;
    var rows := RowCount(s);
    assert PassDoneUpTo(s, r, 0) by {
      assert SameShape(s, s) by {
        assert forall i :: 0 <= i < |s| ==> SameVersion(s[i], s[i]);
      }
    }
    while idx < rows
      invariant idx <= rows
      invariant PassDoneUpTo(s, r, idx)
    {
      var r1 := ChainRow(r, idx);
      ghost var chains :| ChainsOf(VersionLists(Candidates(r, idx)), chains)
                          && r1 == ApplyMatches(r, idx, GetVersionChainMatches(Candidates(r, idx), chains));
      RowStep(s, r, idx, chains);
      r := r1;
      idx := idx + 1;
    }
  }

  /**
   * The first version holding a message with a non-empty `versions` list gets
   * the first chain covering that message, whenever one does: the candidates
   * before it belong to other messages, so its own match is the earliest.
   */
  lemma HolderGetsCoveringChain(s: seq<BVersion>, idx: nat, chains: seq<seq<Stamp>>, v: nat, i: nat)
    requires v < |s| && idx < |s[v].messages| && |s[v].messages[idx].versions| > 0
    requires HolderIndex(s, idx, s[v].messages[idx].id) == Some(v)
    requires FirstCover(chains, s[v].messages[idx], i)
    ensures Expected(s, idx, GetVersionChainMatches(Candidates(s, idx), chains), v) == chains[i]
    ensures Covers(Expected(s, idx, GetVersionChainMatches(Candidates(s, idx), chains), v), s[v].messages[idx])
  {
    var m := s[v].messages[idx];
    var pre, post := Candidates(s[..v], idx), Candidates(s[v + 1..], idx);
    CandidatesAround(s, idx, v);
    CandidatesBeforeHolder(s, idx, v, m.id);
    MatchesAppend(pre, [m] + post, chains);
    MatchesAppend([m], post, chains);
    MatchesOfOne(m, chains);
    var mpre := GetVersionChainMatches(pre, chains);
    MatchesKeepIds(pre, chains, m.id);
    var ms := GetVersionChainMatches(Candidates(s, idx), chains);
    assert ms == mpre + ([ChainMatch(m.id, chains[i])] + GetVersionChainMatches(post, chains));
    MatchIndexAfter(mpre, ChainMatch(m.id, chains[i]), GetVersionChainMatches(post, chains), m.id);
  }

  /** The candidates of a row split around version `v`. */
  lemma CandidatesAround(s: seq<BVersion>, idx: nat, v: nat)
    requires v < |s| && idx < |s[v].messages| && |s[v].messages[idx].versions| > 0
    ensures Candidates(s, idx) == Candidates(s[..v], idx) + ([s[v].messages[idx]] + Candidates(s[v + 1..], idx))
  {
    assert s == s[..v] + ([s[v]] + s[v + 1..]);
    CandidatesAppend(s[..v], [s[v]] + s[v + 1..], idx);
    CandidatesAppend([s[v]], s[v + 1..], idx);
    CandidatesOfOne(s[v], idx);
  }

  /** Before the first version holding `id`, no candidate carries `id`. */
  lemma CandidatesBeforeHolder(s: seq<BVersion>, idx: nat, v: nat, id: string)
    requires v <= |s| && forall u :: 0 <= u < v ==> !Holds(s[u], idx, id)
    ensures forall c :: c in Candidates(s[..v], idx) ==> c.id != id
  {
    var before := s[..v];
    forall c | c in Candidates(before, idx) ensures c.id != id {
      CandidatesSound(before, idx, c);
      var u :| 0 <= u < |before| && idx < |before[u].messages| && before[u].messages[idx] == c;
      assert before[u] == s[u];
    }
  }

  /** Matches carry the ids of their candidates. */
  lemma MatchesKeepIds(cands: seq<Msg>, chains: seq<seq<Stamp>>, id: string)
    requires forall c :: c in cands ==> c.id != id
    ensures forall j :: 0 <= j < |GetVersionChainMatches(cands, chains)| ==> GetVersionChainMatches(cands, chains)[j].id != id
  {
    var ms := GetVersionChainMatches(cands, chains);
    forall j | 0 <= j < |ms| ensures ms[j].id != id {
      assert ms[j] in ms;
    }
  }

  lemma MatchIndexAfter(a: seq<ChainMatch>, x: ChainMatch, b: seq<ChainMatch>, id: string)
    requires forall j :: 0 <= j < |a| ==> a[j].id != id
    requires x.id == id
    ensures MatchIndex(a + ([x] + b), id) == Some(|a|)
  {
    var ms := a + ([x] + b);
    assert ms[|a|] == x;
    assert forall j :: 0 <= j < |a| ==> ms[j] == a[j];
  }

  /** After the pass, a first holder a chain of its row covers carries the first such chain. */
  lemma ChainPassCoversHolders(s: seq<BVersion>, r: seq<BVersion>, idx: nat, v: nat)
    requires ChainPass(s, r)
    requires v < |s| && idx < |s[v].messages| && |s[v].messages[idx].versions| > 0
    requires HolderIndex(s, idx, s[v].messages[idx].id) == Some(v)
    ensures exists chains :: ChainsOf(VersionLists(Candidates(s, idx)), chains)
              && idx < |r[v].messages|
              && (forall i :: FirstCover(chains, s[v].messages[idx], i) ==> r[v].messages[idx].versions == chains[i])
  {
    assert idx < RowCount(s);
    assert RowOutcome(s, r, idx);
    var chains :| ChainsOf(VersionLists(Candidates(s, idx)), chains)
                  && RowIs(s, r, idx, GetVersionChainMatches(Candidates(s, idx), chains));
    var m := s[v].messages[idx];
    assert idx < |r[v].messages| && r[v].messages[idx].versions == Expected(s, idx, GetVersionChainMatches(Candidates(s, idx), chains), v);
    forall i | FirstCover(chains, m, i) ensures r[v].messages[idx].versions == chains[i] {
      HolderGetsCoveringChain(s, idx, chains, v, i);
    }
  }

  /**
   * Two versions whose first messages record `[a, x, y]` and `[b, x, z]`:
   * whatever the walk order, the pass gives one of the two messages a chain
   * that also holds the other branch's last id.
   */
  lemma MeetingPassRewrites(s: seq<BVersion>, r: seq<BVersion>, a: Stamp, x: Stamp, y: Stamp, b: Stamp, z: Stamp)
    requires MeetingLists(a, x, y, b, z)
    requires |s| == 2 && |s[0].messages| == 1 && |s[1].messages| == 1
    requires s[0].messages[0].id != s[1].messages[0].id
    requires s[0].messages[0].versions == [a, x, y] && s[1].messages[0].versions == [b, x, z]
    requires ChainPass(s, r)
    ensures |r| == 2 && |r[0].messages| == 1 && |r[1].messages| == 1
    ensures {"a", "x", "y", "z"} <= IdsOf(r[0].messages[0].versions)
            || {"b", "x", "y", "z"} <= IdsOf(r[1].messages[0].versions)
  {
    assert SameVersion(s[0], r[0]) && SameVersion(s[1], r[1]);
    assert 0 < RowCount(s) && RowOutcome(s, r, 0);
    var lists := [[a, x, y], [b, x, z]];
    MeetingCandidates(s, a, x, y, b, z);
    var chains :| ChainsOf(lists, chains) && RowIs(s, r, 0, GetVersionChainMatches(Candidates(s, 0), chains));
    MeetingListsFirstChain(a, x, y, b, z, chains);
    MeetingRowRewrites(s, r, chains, a, x, y, b, z);
  }

  /** The same, for the row as the step leaves it under chains whose first one holds either branch and `x`, `y`, `z`. */
  lemma MeetingRowRewrites(s: seq<BVersion>, r: seq<BVersion>, chains: seq<seq<Stamp>>,
                           a: Stamp, x: Stamp, y: Stamp, b: Stamp, z: Stamp)
    requires MeetingLists(a, x, y, b, z)
    requires |s| == 2 && |s[0].messages| == 1 && |s[1].messages| == 1
    requires s[0].messages[0].id != s[1].messages[0].id
    requires s[0].messages[0].versions == [a, x, y] && s[1].messages[0].versions == [b, x, z]
    requires |chains| > 0
    requires {"a", "x", "y", "z"} <= IdsOf(chains[0]) || {"b", "x", "y", "z"} <= IdsOf(chains[0])
    requires RowIs(s, r, 0, GetVersionChainMatches(Candidates(s, 0), chains))
    ensures |r| == 2 && 0 < |r[0].messages| && 0 < |r[1].messages|
    ensures {"a", "x", "y", "z"} <= IdsOf(r[0].messages[0].versions)
            || {"b", "x", "y", "z"} <= IdsOf(r[1].messages[0].versions)
  {
    var X, Y := s[0].messages[0], s[1].messages[0];
    MeetingIds(a, x, y, b, z);
    if {"a", "x", "y", "z"} <= IdsOf(chains[0]) {
      assert Holds(s[0], 0, X.id);
      assert FirstCover(chains, X, 0);
      RowIsHolderCell(s, r, 0, chains, 0, 0);
    } else {
      assert !Holds(s[0], 0, Y.id) && Holds(s[1], 0, Y.id);
      assert FirstCover(chains, Y, 0);
      RowIsHolderCell(s, r, 0, chains, 1, 0);
    }
  }

  lemma MeetingIds(a: Stamp, x: Stamp, y: Stamp, b: Stamp, z: Stamp)
    requires MeetingLists(a, x, y, b, z)
    ensures IdsOf([a, x, y]) == {"a", "x", "y"} && IdsOf([b, x, z]) == {"b", "x", "z"}
  {
  }

  /** The candidates of that first row are the two messages, so their lists are the meeting lists. */
  lemma MeetingCandidates(s: seq<BVersion>, a: Stamp, x: Stamp, y: Stamp, b: Stamp, z: Stamp)
    requires |s| == 2 && |s[0].messages| == 1 && |s[1].messages| == 1
    requires s[0].messages[0].versions == [a, x, y] && s[1].messages[0].versions == [b, x, z]
    ensures Candidates(s, 0) == [s[0].messages[0], s[1].messages[0]]
    ensures VersionLists(Candidates(s, 0)) == [[a, x, y], [b, x, z]]
  {
    assert s == [s[0]] + [s[1]];
    CandidatesCons(s[0], [s[1]], 0);
    CandidatesOfOne(s[1], 0);
  }

  /** In a row as the step leaves it, a first holder that a chain covers holds the first covering chain. */
  lemma RowIsHolderCell(s: seq<BVersion>, r: seq<BVersion>, idx: nat, chains: seq<seq<Stamp>>, v: nat, i: nat)
    requires RowIs(s, r, idx, GetVersionChainMatches(Candidates(s, idx), chains))
    requires v < |s| && idx < |s[v].messages| && |s[v].messages[idx].versions| > 0
    requires HolderIndex(s, idx, s[v].messages[idx].id) == Some(v)
    requires FirstCover(chains, s[v].messages[idx], i)
    ensures idx < |r[v].messages| && r[v].messages[idx].versions == chains[i]
  {
    HolderGetsCoveringChain(s, idx, chains, v, i);
  }

  /** So leaving those two versions as they are is not the chain pass. */
  lemma MeetingPassIsNotIdentity(s: seq<BVersion>, a: Stamp, x: Stamp, y: Stamp, b: Stamp, z: Stamp)
    requires MeetingLists(a, x, y, b, z)
    requires |s| == 2 && |s[0].messages| == 1 && |s[1].messages| == 1
    requires s[0].messages[0].id != s[1].messages[0].id
    requires s[0].messages[0].versions == [a, x, y] && s[1].messages[0].versions == [b, x, z]
    ensures !ChainPass(s, s)
  {
    assert "z" !in IdsOf([a, x, y]) && "y" !in IdsOf([b, x, z]);
    if ChainPass(s, s) {
      MeetingPassRewrites(s, s, a, x, y, b, z);
    }
  }

  // ------------------------------------------------------------- the whole

  /**
   * `make_branched_conversation`: the branch annotation, then, when asked,
   * the chain pass.  It fails exactly when the annotation does.
   */
  method MakeBranchedConversation(versions: seq<BVersion>, calculateChains: bool)
      returns (r: Result<seq<BVersion>, BranchError>)
    requires UniqueIds(versions)
    ensures r.Err? <==> exists i :: 0 <= i < |versions| && StepFails(versions, i)
    ensures r.Err? ==> r.error == ContentMismatch
    ensures r.Ok? ==> SameShape(versions, r.value)
    ensures r.Ok? && !calculateChains ==>
              Grows(versions, r.value) && forall i :: 0 <= i < |versions| ==> BranchRecorded(versions, r.value, i)
    ensures r.Ok? && calculateChains ==>
              AnnotateBranches(versions).Ok? && ChainPass(AnnotateBranches(versions).value, r.value)
  {
    AnnotateBranchesSpec(versions);
    var annotated := AnnotateBranches(versions);
    if annotated.Err? {
      return annotated;
    }
    if !calculateChains {
      return annotated;
    }
    var chained := MakeBranchedConversationChains(annotated.value);
    ShapeTransitive(versions, annotated.value, chained);
    return Ok(chained);
  }
}
