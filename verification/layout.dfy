/**
 * The graph layout of the roadmap page (frontend/src/pages/Roadmap.jsx): the
 * API nodes become flow nodes placed on a grid by their longest-path level in
 * the prerequisite graph, and every prerequisite becomes one edge.
 *
 * The page's recursion only terminates on an acyclic prerequisite graph; the
 * model asks for a witness of acyclicity, a `rank` that strictly drops along
 * every prerequisite, and uses it only as a termination measure.
 */
module Layout {
  import opened Models
  import opened Text
  import ResourceAgent

  /** A node as the page receives it; `prerequisites` may be absent. */
  datatype ApiNode = ApiNode(
    id: string, title: string, description: string,
    resources: seq<Resource>, prerequisites: Option<seq<string>>)

  /** Absent prerequisites behave like an empty list. */
  function Prereqs(n: ApiNode): seq<string> {
    if n.prerequisites.Some? then n.prerequisites.value else []
  }

  /** Node id to prerequisite ids. */
  type Graph = map<string, seq<string>>

  /** `nodeMap`: every id maps to the prerequisites of the LAST node with that
      id, since later `set` calls overwrite earlier ones. */
  function NodeMap(nodes: seq<ApiNode>): Graph
    decreases |nodes|
  {
    if |nodes| == 0 then map[]
    else NodeMap(nodes[..|nodes| - 1])[nodes[|nodes| - 1].id := Prereqs(nodes[|nodes| - 1])]
  }

  /** The map holds exactly the ids of the nodes. */
  lemma {:induction false} NodeMapKeys(nodes: seq<ApiNode>, id: string)
    ensures id in NodeMap(nodes) <==> exists i :: 0 <= i < |nodes| && nodes[i].id == id
    decreases |nodes|
  {
    if |nodes| > 0 {
      var n := |nodes| - 1;
      NodeMapKeys(nodes[..n], id);
      if exists i :: 0 <= i < n && nodes[..n][i].id == id {
        var i :| 0 <= i < n && nodes[..n][i].id == id;
        assert nodes[i].id == id;
      }
      if exists i :: 0 <= i < |nodes| && nodes[i].id == id {
        var i :| 0 <= i < |nodes| && nodes[i].id == id;
        if i < n {
          assert nodes[..n][i].id == id;
        }
      }
    }
  }

  /** The last node with a given id decides its prerequisites. */
  lemma {:induction false} NodeMapLast(nodes: seq<ApiNode>, i: nat)
    requires i < |nodes| && LastWithId(nodes, i)
    ensures nodes[i].id in NodeMap(nodes) && NodeMap(nodes)[nodes[i].id] == Prereqs(nodes[i])
    decreases |nodes|
  {
    var n := |nodes| - 1;
    if i < n {
      assert nodes[..n][i] == nodes[i];
      assert LastWithId(nodes[..n], i) by {
        forall j | i < j < n
          ensures nodes[..n][j].id != nodes[..n][i].id
        {
          assert nodes[..n][j] == nodes[j];
        }
      }
      NodeMapLast(nodes[..n], i);
      assert nodes[n].id != nodes[i].id;
    }
  }

  /** No later node shares the id of node `i`. */
  predicate LastWithId(nodes: seq<ApiNode>, i: int)
    requires 0 <= i < |nodes|
  {
    forall j :: i < j < |nodes| ==> nodes[j].id != nodes[i].id
  }

  predicate DistinctIds(nodes: seq<ApiNode>) {
    forall i, j :: 0 <= i < j < |nodes| ==> nodes[i].id != nodes[j].id
  }

  // ---------------------------------------------------------------------
  // Levels
  // ---------------------------------------------------------------------

  /** `rank` witnesses that the graph is acyclic: every node is ranked and a
      prerequisite that is itself a node has a smaller rank. */
  predicate Ranked(g: Graph, rank: map<string, nat>) {
    && (forall id :: id in g ==> id in rank)
    && (forall id, k :: id in g && 0 <= k < |g[id]| && g[id][k] in g ==> rank[g[id][k]] < rank[id])
  }

  function Height(g: Graph, rank: map<string, nat>, id: string): nat {
    if id in g && id in rank then rank[id] + 1 else 0
  }

  /** The level `getLevel` computes: 0 for an unknown id or one without
      prerequisites, else one more than the largest level of its
      prerequisites. */
  function Level(g: Graph, rank: map<string, nat>, id: string): nat
    requires Ranked(g, rank)
    decreases Height(g, rank, id), 1, 0
  {
    if id !in g || |g[id]| == 0 then 0 else MaxLevel(g, rank, id, g[id]) + 1
  }

  /** `maxPrereqLevel` after the prerequisites `ps` (a prefix of the
      parent's list) have been visited, starting from -1. */
  function MaxLevel(g: Graph, rank: map<string, nat>, parent: string, ps: seq<string>): (m: int)
    requires Ranked(g, rank)
    requires parent in g && ps <= g[parent]
    ensures m >= -1 && (|ps| > 0 ==> m >= 0)
    decreases Height(g, rank, parent), 0, |ps|
  {
    if |ps| == 0 then -1
    else
      var n := |ps| - 1;
      assert g[parent][n] == ps[n];
      var prefix := MaxLevel(g, rank, parent, ps[..n]);
      var last := Level(g, rank, ps[n]);
      if prefix >= last then prefix else last
  }

  /** `MaxLevel` is the largest level among the visited prerequisites. */
  lemma {:induction false} MaxLevelIsMax(g: Graph, rank: map<string, nat>, parent: string, ps: seq<string>)
    requires Ranked(g, rank)
    requires parent in g && ps <= g[parent]
    ensures forall k :: 0 <= k < |ps| ==> Level(g, rank, ps[k]) <= MaxLevel(g, rank, parent, ps)
    ensures |ps| > 0 ==> exists k :: 0 <= k < |ps| && Level(g, rank, ps[k]) == MaxLevel(g, rank, parent, ps)
    decreases |ps|
  {
    if |ps| > 0 {
      var n := |ps| - 1;
      var m := MaxLevel(g, rank, parent, ps);
      MaxLevelIsMax(g, rank, parent, ps[..n]);
      assert forall k :: 0 <= k < n ==> ps[..n][k] == ps[k];
      if n > 0 && MaxLevel(g, rank, parent, ps[..n]) == m {
        var k :| 0 <= k < n && Level(g, rank, ps[..n][k]) == m;
        assert Level(g, rank, ps[k]) == m;
      } else {
        assert Level(g, rank, ps[n]) == m;
      }
    }
  }

  /** Every prerequisite sits on a strictly lower level than its dependant. */
  lemma PrereqBelow(g: Graph, rank: map<string, nat>, id: string, k: nat)
    requires Ranked(g, rank)
    requires id in g && k < |g[id]|
    ensures Level(g, rank, g[id][k]) < Level(g, rank, id)
  {
    MaxLevelIsMax(g, rank, id, g[id]);
  }

  /** The level is a longest path: a node with prerequisites has one exactly
      one level below it. */
  lemma LevelIsTight(g: Graph, rank: map<string, nat>, id: string)
    requires Ranked(g, rank)
    requires id in g && |g[id]| > 0
    ensures exists k :: 0 <= k < |g[id]| && Level(g, rank, g[id][k]) + 1 == Level(g, rank, id)
  {
    var m := MaxLevel(g, rank, id, g[id]);
    MaxLevelIsMax(g, rank, id, g[id]);
    var k :| 0 <= k < |g[id]| && Level(g, rank, g[id][k]) == m;
    assert Level(g, rank, g[id][k]) + 1 == Level(g, rank, id);
  }

  /** The level does not depend on which acyclicity witness is used. */
  lemma {:induction false} LevelRankIndependent(g: Graph, r1: map<string, nat>, r2: map<string, nat>, id: string)
    requires Ranked(g, r1) && Ranked(g, r2)
    ensures Level(g, r1, id) == Level(g, r2, id)
    decreases Height(g, r1, id), 1, 0
  {
    if id in g && |g[id]| > 0 {
      MaxLevelRankIndependent(g, r1, r2, id, g[id]);
    }
  }

  lemma {:induction false} MaxLevelRankIndependent(g: Graph, r1: map<string, nat>, r2: map<string, nat>, parent: string, ps: seq<string>)
    requires Ranked(g, r1) && Ranked(g, r2)
    requires parent in g && ps <= g[parent]
    ensures MaxLevel(g, r1, parent, ps) == MaxLevel(g, r2, parent, ps)
    decreases Height(g, r1, parent), 0, |ps|
  {
    if |ps| > 0 {
      var n := |ps| - 1;
      assert g[parent][n] == ps[n];
      MaxLevelRankIndependent(g, r1, r2, parent, ps[..n]);
      LevelRankIndependent(g, r1, r2, ps[n]);
    }
  }

  /** A node listed as its own prerequisite admits no rank: the page's
      recursion would never end on it. */
  lemma SelfLoopUnranked(g: Graph, rank: map<string, nat>, id: string, k: nat)
    requires id in g && k < |g[id]| && g[id][k] == id
    ensures !Ranked(g, rank)
  {
  }

  /** One more prerequisite visited: the running maximum takes its level
      into account. */
  lemma MaxLevelStep(g: Graph, rank: map<string, nat>, id: string, k: nat)
    requires Ranked(g, rank)
    requires id in g && k < |g[id]|
    ensures Height(g, rank, g[id][k]) < Height(g, rank, id)
    ensures var prefix := MaxLevel(g, rank, id, g[id][..k]);
            var last := Level(g, rank, g[id][k]);
            MaxLevel(g, rank, id, g[id][..k + 1]) == if prefix >= last then prefix else last
  {
    assert g[id][..k + 1][..k] == g[id][..k];
  }

  /** A node with prerequisites is one level above the largest of theirs. */
  lemma LevelFromMax(g: Graph, rank: map<string, nat>, id: string)
    requires Ranked(g, rank)
    requires id in g && |g[id]| > 0
    ensures Level(g, rank, id) == MaxLevel(g, rank, id, g[id][..|g[id]|]) + 1
  {
    assert g[id][..|g[id]|] == g[id];
  }

  /** Every memoised entry holds the level of its id. */
  predicate Memoised(g: Graph, rank: map<string, nat>, memo: map<string, int>)
    requires Ranked(g, rank)
  {
    forall id :: id in memo ==> memo[id] == Level(g, rank, id)
  }

  lemma MemoisedAdd(g: Graph, rank: map<string, nat>, memo: map<string, int>, id: string, v: int)
    requires Ranked(g, rank) && Memoised(g, rank, memo)
    requires v == Level(g, rank, id)
    ensures Memoised(g, rank, memo[id := v]) && id in memo[id := v]
    ensures memo.Keys <= memo[id := v].Keys
  {
  }

  /** `getLevel(nodeId)` with the `levels` map as memo: whatever was memoised
      before, the answer is the level, and the memo stays exact. */
  method GetLevel(g: Graph, ghost rank: map<string, nat>, id: string, memo: map<string, int>)
    returns (level: int, memo': map<string, int>)
    requires Ranked(g, rank) && Memoised(g, rank, memo)
    ensures level == Level(g, rank, id)
    ensures Memoised(g, rank, memo') && id in memo' && memo.Keys <= memo'.Keys
    decreases Height(g, rank, id)
  {
    if id in memo {
      return memo[id], memo;
    }
    if id !in g || |g[id]| == 0 {
      MemoisedAdd(g, rank, memo, id, 0);
      return 0, memo[id := 0];
    }
    var ps := g[id];
    var maxPrereqLevel := -1;
    memo' := memo;
    var k := 0;
    while k < |ps|
      invariant 0 <= k <= |ps|
      invariant Memoised(g, rank, memo') && memo.Keys <= memo'.Keys
      invariant maxPrereqLevel == MaxLevel(g, rank, id, ps[..k])
    {
      MaxLevelStep(g, rank, id, k);
      var prereqLevel;
      prereqLevel, memo' := GetLevel(g, rank, ps[k], memo');
      maxPrereqLevel := if maxPrereqLevel >= prereqLevel then maxPrereqLevel else prereqLevel;
      k := k + 1;
    }
    LevelFromMax(g, rank, id);
    level := maxPrereqLevel + 1;
    MemoisedAdd(g, rank, memo', id, level);
    memo' := memo'[id := level];
  }

  /** `apiNodes.forEach(node => getLevel(node.id))`: the level of every node,
      whatever order the nodes come in. */
  method ComputeLevels(nodes: seq<ApiNode>, ghost rank: map<string, nat>) returns (levels: map<string, int>)
    requires Ranked(NodeMap(nodes), rank)
    ensures Memoised(NodeMap(nodes), rank, levels)
    ensures forall i :: 0 <= i < |nodes| ==> nodes[i].id in levels
  {
    var g := NodeMap(nodes);
    levels := map[];
    var i := 0;
    while i < |nodes|
      invariant 0 <= i <= |nodes|
      invariant Memoised(g, rank, levels)
      invariant forall j :: 0 <= j < i ==> nodes[j].id in levels
    {
      var _, levels' := GetLevel(g, rank, nodes[i].id, levels);
      levels := levels';
      i := i + 1;
    }
  }

  // ---------------------------------------------------------------------
  // Positions and edges
  // ---------------------------------------------------------------------

  datatype Position = Position(x: int, y: int)

  /** A flow node: the API node's id, its title as caption (`data.label`), its description
      and resources, and its grid position. */
  datatype FlowNode = FlowNode(
    id: string, position: Position, caption: string, description: string, resources: seq<Resource>)

  datatype Edge = Edge(id: string, source: string, target: string)

  const ColumnWidth: int := 250
  const RowHeight: int := 150

  /** The level of every node, in input order. */
  function NodeLevels(nodes: seq<ApiNode>, rank: map<string, nat>): (lv: seq<int>)
    requires Ranked(NodeMap(nodes), rank)
    ensures |lv| == |nodes|
    ensures forall i :: 0 <= i < |nodes| ==> lv[i] == Level(NodeMap(nodes), rank, nodes[i].id)
  {
    seq(|nodes|, i requires 0 <= i < |nodes| => Level(NodeMap(nodes), rank, nodes[i].id))
  }

  /** How many of the first `n` entries equal `v`. */
  function CountLevel(lv: seq<int>, v: int, n: nat): nat
    requires n <= |lv|
  {
    if n == 0 then 0 else CountLevel(lv, v, n - 1) + (if lv[n - 1] == v then 1 else 0)
  }

  lemma {:induction false} CountLevelGrows(lv: seq<int>, v: int, a: nat, b: nat)
    requires a < b <= |lv| && lv[a] == v
    ensures CountLevel(lv, v, a) < CountLevel(lv, v, b)
    decreases b
  {
    if b > a + 1 {
      CountLevelGrows(lv, v, a, b - 1);
    }
  }

  /** The grid position of node `i`: row `level`, column = number of earlier
      nodes on the same level. */
  function GridPosition(lv: seq<int>, i: nat): Position
    requires i < |lv|
  {
    Position(CountLevel(lv, lv[i], i) * ColumnWidth, lv[i] * RowHeight)
  }

  /** No two nodes share a grid position. */
  lemma GridPositionsDistinct(lv: seq<int>, i: nat, j: nat)
    requires i < j < |lv|
    ensures GridPosition(lv, i) != GridPosition(lv, j)
  {
    if lv[i] == lv[j] {
      CountLevelGrows(lv, lv[i], i, j);
    }
  }

  /** The edge for one prerequisite of a node. */
  function MakeEdge(prereq: string, target: string): Edge {
    Edge("e" + prereq + "-" + target, prereq, target)
  }

  /** The edges of the first `n` nodes: for each node, one per listed
      prerequisite, in list order. */
  function EdgesUpTo(nodes: seq<ApiNode>, n: nat): (es: seq<Edge>)
    requires n <= |nodes|
    ensures |es| == PrereqTotal(nodes, n)
  {
    if n == 0 then [] else EdgesUpTo(nodes, n - 1) + OwnEdges(Prereqs(nodes[n - 1]), nodes[n - 1].id)
  }

  /** The edges of one node, one per listed prerequisite. */
  function OwnEdges(ps: seq<string>, target: string): (es: seq<Edge>)
    ensures |es| == |ps|
    ensures forall k :: 0 <= k < |ps| ==> es[k] == MakeEdge(ps[k], target)
  {
    seq(|ps|, k requires 0 <= k < |ps| => MakeEdge(ps[k], target))
  }

  /** `node.prerequisites.forEach(prereqId => newEdges.push(...))`. */
  method PushEdges(edges: seq<Edge>, ps: seq<string>, target: string) returns (edges': seq<Edge>)
    ensures edges' == edges + OwnEdges(ps, target)
  {
    edges' := edges;
    var k := 0;
    while k < |ps|
      invariant 0 <= k <= |ps|
      invariant edges' == edges + OwnEdges(ps[..k], target)
    {
      edges' := edges' + [MakeEdge(ps[k], target)];
      k := k + 1;
    }
    assert ps[..|ps|] == ps;
  }

  /** The number of (node, prerequisite) pairs among the first `n` nodes. */
  function PrereqTotal(nodes: seq<ApiNode>, n: nat): nat
    requires n <= |nodes|
  {
    if n == 0 then 0 else PrereqTotal(nodes, n - 1) + |Prereqs(nodes[n - 1])|
  }

  /** Every edge comes from a node and one of its listed prerequisites. */
  lemma {:induction false} EdgeOrigin(nodes: seq<ApiNode>, n: nat, e: Edge)
    requires n <= |nodes|
    requires e in EdgesUpTo(nodes, n)
    ensures exists i, k :: 0 <= i < n && 0 <= k < |Prereqs(nodes[i])| &&
                           e == MakeEdge(Prereqs(nodes[i])[k], nodes[i].id)
    decreases n
  {
    var own := OwnEdges(Prereqs(nodes[n - 1]), nodes[n - 1].id);
    if e in own {
      var k :| 0 <= k < |own| && own[k] == e;
      assert e == MakeEdge(Prereqs(nodes[n - 1])[k], nodes[n - 1].id);
    } else {
      EdgeOrigin(nodes, n - 1, e);
    }
  }

  /** Every listed prerequisite of a node gives an edge. */
  lemma {:induction false} EdgeProduced(nodes: seq<ApiNode>, n: nat, i: nat, k: nat)
    requires i < n <= |nodes| && k < |Prereqs(nodes[i])|
    ensures MakeEdge(Prereqs(nodes[i])[k], nodes[i].id) in EdgesUpTo(nodes, n)
    decreases n
  {
    if i == n - 1 {
      var own := OwnEdges(Prereqs(nodes[n - 1]), nodes[n - 1].id);
      assert own[k] == MakeEdge(Prereqs(nodes[i])[k], nodes[i].id);
    } else {
      EdgeProduced(nodes, n - 1, i, k);
    }
  }

  /** An edge is produced exactly for a node and one of its listed
      prerequisites, from the prerequisite to the node. */
  lemma EdgesCharacterised(nodes: seq<ApiNode>, n: nat, e: Edge)
    requires n <= |nodes|
    ensures e in EdgesUpTo(nodes, n) <==>
              exists i, k :: 0 <= i < n && 0 <= k < |Prereqs(nodes[i])| &&
                             e == MakeEdge(Prereqs(nodes[i])[k], nodes[i].id)
  {
    if e in EdgesUpTo(nodes, n) {
      EdgeOrigin(nodes, n, e);
    }
    if exists i, k :: 0 <= i < n && 0 <= k < |Prereqs(nodes[i])| &&
                      e == MakeEdge(Prereqs(nodes[i])[k], nodes[i].id) {
      var i, k :| 0 <= i < n && 0 <= k < |Prereqs(nodes[i])| &&
                  e == MakeEdge(Prereqs(nodes[i])[k], nodes[i].id);
      EdgeProduced(nodes, n, i, k);
    }
  }

  /** With distinct ids every edge points from a lower level to a higher
      one, so the drawing's edges all run downwards. */
  lemma EdgesPointDown(nodes: seq<ApiNode>, rank: map<string, nat>, e: Edge)
    requires Ranked(NodeMap(nodes), rank) && DistinctIds(nodes)
    requires e in EdgesUpTo(nodes, |nodes|)
    ensures Level(NodeMap(nodes), rank, e.source) < Level(NodeMap(nodes), rank, e.target)
  {
    var g := NodeMap(nodes);
    EdgesCharacterised(nodes, |nodes|, e);
    var i, k :| 0 <= i < |nodes| && 0 <= k < |Prereqs(nodes[i])| &&
                e == MakeEdge(Prereqs(nodes[i])[k], nodes[i].id);
    assert LastWithId(nodes, i);
    NodeMapLast(nodes, i);
    PrereqBelow(g, rank, nodes[i].id, k);
  }

  /** Edge ids are not unique when ids contain `-`: the pairs ("a-b", "c")
      and ("a", "b-c") give the same id. */
  lemma EdgeIdsCanCollide()
    ensures MakeEdge("a-b", "c").id == MakeEdge("a", "b-c").id
    ensures MakeEdge("a-b", "c") != MakeEdge("a", "b-c")
  {
  }

  /** `levelCounts` holds, for every level, the number of nodes among the
      first `i` placed on it (an absent level counts zero). */
  ghost predicate CountsAfter(lv: seq<int>, counts: map<int, int>, i: nat)
    requires i <= |lv|
  {
    && (forall v :: v in counts ==> counts[v] == CountLevel(lv, v, i))
    && (forall v :: v !in counts ==> CountLevel(lv, v, i) == 0)
  }

  /** Placing node `i` bumps the count of its level and no other. */
  lemma CountsStep(lv: seq<int>, counts: map<int, int>, i: nat)
    requires i < |lv| && CountsAfter(lv, counts, i)
    ensures var count := if lv[i] in counts then counts[lv[i]] else 0;
            && count == CountLevel(lv, lv[i], i)
            && CountsAfter(lv, counts[lv[i] := count + 1], i + 1)
  {
  }

  /** The position pass of the `useEffect` transform: one flow node per API
      node, in input order, with `levelCounts` counting the nodes already
      placed on each level. `levels` holds the level of every node. */
  method PlaceNodes(nodes: seq<ApiNode>, levels: map<string, int>, ghost lv: seq<int>)
    returns (flow: seq<FlowNode>)
    requires |lv| == |nodes|
    requires forall i :: 0 <= i < |nodes| ==> nodes[i].id in levels && levels[nodes[i].id] == lv[i]
    ensures |flow| == |nodes|
    ensures forall i :: 0 <= i < |nodes| ==>
              flow[i] == FlowNode(nodes[i].id, GridPosition(lv, i),
                                  nodes[i].title, nodes[i].description, nodes[i].resources)
  {
    var levelCounts: map<int, int> := map[];
    flow := [];
    var i := 0;
    while i < |nodes|
      invariant 0 <= i <= |nodes|
      invariant |flow| == i
      invariant forall j :: 0 <= j < i ==>
                  flow[j] == FlowNode(nodes[j].id, GridPosition(lv, j),
                                      nodes[j].title, nodes[j].description, nodes[j].resources)
      invariant CountsAfter(lv, levelCounts, i)
    {
      CountsStep(lv, levelCounts, i);
      var node := nodes[i];
      var level := levels[node.id];
      var count := if level in levelCounts then levelCounts[level] else 0;
      assert Position(count * ColumnWidth, level * RowHeight) == GridPosition(lv, i);
      flow := flow + [FlowNode(node.id, Position(count * ColumnWidth, level * RowHeight),
                               node.title, node.description, node.resources)];
      levelCounts := levelCounts[level := count + 1];
      i := i + 1;
    }
  }

  /** The edge pass of the `useEffect` transform: a node whose
      `prerequisites` is absent adds no edge. */
  method CollectEdges(nodes: seq<ApiNode>) returns (edges: seq<Edge>)
    ensures edges == EdgesUpTo(nodes, |nodes|)
  {
    edges := [];
    var i := 0;
    while i < |nodes|
      invariant 0 <= i <= |nodes|
      invariant edges == EdgesUpTo(nodes, i)
    {
      var node := nodes[i];
      if node.prerequisites.Some? {
        edges := PushEdges(edges, node.prerequisites.value, node.id);
      } else {
        assert OwnEdges(Prereqs(node), node.id) == [];
      }
      i := i + 1;
    }
  }

  /** The `useEffect` transform: levels first, then one flow node per API
      node in input order at its grid position, and the edges. The page
      places the nodes and collects the edges in one pass; the two do not
      depend on each other, so the model runs them one after the other. */
  method BuildFlow(nodes: seq<ApiNode>, ghost rank: map<string, nat>)
    returns (flow: seq<FlowNode>, edges: seq<Edge>)
    requires Ranked(NodeMap(nodes), rank)
    ensures |flow| == |nodes|
    ensures forall i :: 0 <= i < |nodes| ==>
              flow[i] == FlowNode(nodes[i].id, GridPosition(NodeLevels(nodes, rank), i),
                                  nodes[i].title, nodes[i].description, nodes[i].resources)
    ensures forall i, j :: 0 <= i < j < |flow| ==> flow[i].position != flow[j].position
    ensures edges == EdgesUpTo(nodes, |nodes|)
  {
    var levels := ComputeLevels(nodes, rank);
    ghost var lv := NodeLevels(nodes, rank);
    flow := PlaceNodes(nodes, levels, lv);
    edges := CollectEdges(nodes);
    forall a, b | 0 <= a < b < |flow|
      ensures flow[a].position != flow[b].position
    {
      GridPositionsDistinct(lv, a, b);
    }
  }

  // ---------------------------------------------------------------------
  // Resource links
  // ---------------------------------------------------------------------

  /** `isValidUrl` of a resource card: the link is clickable when the url is
      non-empty and starts with "http" or "https". */
  function IsValidUrl(url: string): (ok: bool)
    ensures ok <==> StartsWith(url, "http")
  {
    url != "" && (StartsWith(url, "http") || StartsWith(url, "https"))
  }

  /** The Google search link appended by the resource lookup is always
      clickable; the `"#"` placeholder of an index item without url is not. */
  lemma SearchLinkClickable(query: string, quote: string -> string, description: string)
    ensures IsValidUrl(ResourceAgent.SearchLink(query, quote, description).url)
    ensures !IsValidUrl("#")
  {
    var url := ResourceAgent.SearchLink(query, quote, description).url;
    assert url[..4] == "http";
  }
}
