/**
 * `generate_roadmap` (src/roadmap_engine.py): turn the topic list produced by
 * the structure generator into roadmap nodes, each with the resources found
 * for "title: description". The structure generator (an LLM call) is an
 * oracle: its answer for the goal is the `structure` argument.
 */
module RoadmapEngine {
  import opened Models
  import opened ResourceAgent
  import EvalAgent

  /** Resources requested per topic. */
  const ResourcesPerNode: int := 3

  /** One topic as the structure generator returns it; `prerequisites` may be
      absent. */
  datatype StructureNode = StructureNode(
    id: string, title: string, description: string, prerequisites: Option<seq<string>>)

  /** The query used to look resources up for a topic. */
  function NodeQuery(n: StructureNode): string {
    n.title + ": " + n.description
  }

  /** One roadmap node: fields copied, missing prerequisites become `[]`,
      resources from `find_resources(query, limit=3)`. */
  function BuildNode(n: StructureNode, svc: Services): (r: RoadmapNode)
    ensures r.id == n.id && r.title == n.title && r.description == n.description
    ensures r.prerequisites == (if n.prerequisites.Some? then n.prerequisites.value else [])
    ensures |r.resources| <= ResourcesPerNode
  {
    RoadmapNode(n.id, n.title, n.description,
                FindResources(NodeQuery(n), ResourcesPerNode, svc).resources,
                if n.prerequisites.Some? then n.prerequisites.value else [])
  }

  /** `generate_roadmap(goal)`: one node per topic, in the generator's order,
      under the same goal. Each topic's lookup sees the services as they
      answer at that moment (`svcs[i]` for topic `i`), since a web search
      repeated later may answer differently. The evaluation the source runs
      afterwards is only logged, so it has no part in the result. */
  function GenerateRoadmap(goal: string, structure: seq<StructureNode>, svcs: seq<Services>): (r: RoadmapResponse)
    requires |svcs| == |structure|
    ensures r.goal == goal
    ensures |r.nodes| == |structure|
    ensures forall i :: 0 <= i < |structure| ==>
              && r.nodes[i].id == structure[i].id
              && r.nodes[i].title == structure[i].title
              && r.nodes[i].description == structure[i].description
              && r.nodes[i].prerequisites == (if structure[i].prerequisites.Some? then structure[i].prerequisites.value else [])
              && r.nodes[i].resources == FindResources(structure[i].title + ": " + structure[i].description, 3, svcs[i]).resources
    ensures forall i :: 0 <= i < |r.nodes| ==> |r.nodes[i].resources| <= ResourcesPerNode
  {
    RoadmapResponse(goal, seq(|structure|, i requires 0 <= i < |structure| => BuildNode(structure[i], svcs[i])))
  }

  /** The evaluation of a generated roadmap counts one node per topic and at
      most three resources per topic. */
  lemma {:induction false} GeneratedRoadmapEvaluation(goal: string, structure: seq<StructureNode>, svcs: seq<Services>)
    requires |svcs| == |structure|
    ensures EvalAgent.Evaluate(GenerateRoadmap(goal, structure, svcs)).nodeCount == |structure|
    ensures EvalAgent.Evaluate(GenerateRoadmap(goal, structure, svcs)).resourceCount <= ResourcesPerNode * |structure|
  {
    var nodes := GenerateRoadmap(goal, structure, svcs).nodes;
    EvalAgent.ResourceCountBound(nodes, ResourcesPerNode);
  }
}
