/** What the test as a whole relies on: on the graph the edge generator describes,
    the component id the validator demands for each vertex is the smallest id in the
    vertex's component, so a correct connected-components result passes the check
    and any other component id fails it. */
module OddEvenScenario {
  import opened JavaText
  import opened OddEvenGraph
  import opened Generators
  import opened ResultCheck

  /** The sizes the test uses: 1000 vertices and 10000 edges. */
  const NUM_VERTICES: int := 1000
  const NUM_EDGES: int := 10000

  /** The line the job writes for a vertex and its component id. */
  function ResultLine(vertex: int, component: int): (line: string)
  {
    Show(vertex) + " " + Show(component)
  }

  /** For every vertex of the generated graph, the demanded component is the smallest
      id reachable from the vertex. */
  lemma DemandedIsComponentMinimum(numEdges: int, numVertices: int, draws: seq<Draw>, v: int)
    requires EdgeArgsValid(numEdges, numVertices)
    requires DrawsAvailable(draws, RandomEdgeCount(numEdges, numVertices), numVertices)
    requires 1 <= v <= numVertices
    ensures IsMinimumLabel(OddEvenEdges(numEdges, numVertices, draws), v, ExpectedComponent(v))
  {
    GeneratedEdgesShape(numEdges, numVertices, draws);
    ComponentMinimum(OddEvenEdges(numEdges, numVertices, draws), numVertices, v);
    assert ExpectedComponent(v) == ParityRoot(v);
  }

  /** The validator accepts the result line `v c` for a vertex v of the generated graph
      exactly when c is the smallest id in the component of v. */
  lemma CheckAcceptsExactlyComponentMinimum(numEdges: int, numVertices: int, draws: seq<Draw>, v: int, c: int)
    requires EdgeArgsValid(numEdges, numVertices)
    requires DrawsAvailable(draws, RandomEdgeCount(numEdges, numVertices), numVertices)
    requires 1 <= v <= numVertices && IsInt(c)
    ensures CheckLine(ResultLine(v, c)) == Pass <==> IsMinimumLabel(OddEvenEdges(numEdges, numVertices, draws), v, c)
  {
    var edges := OddEvenEdges(numEdges, numVertices, draws);
    GeneratedEdgesShape(numEdges, numVertices, draws);
    CheckWrittenLine(v, c);
    MinimumLabelIsParityRoot(edges, numVertices, v, c);
    assert ExpectedComponent(v) == ParityRoot(v);
  }

  /** Read along the edges' direction, the direction in which component ids travel,
      the validator likewise accepts `v c` exactly when c is the smallest id that
      reaches v. */
  lemma CheckAcceptsExactlyMinimumSource(numEdges: int, numVertices: int, draws: seq<Draw>, v: int, c: int)
    requires EdgeArgsValid(numEdges, numVertices)
    requires DrawsAvailable(draws, RandomEdgeCount(numEdges, numVertices), numVertices)
    requires 1 <= v <= numVertices && IsInt(c)
    ensures CheckLine(ResultLine(v, c)) == Pass <==> IsMinimumSource(OddEvenEdges(numEdges, numVertices, draws), v, c)
  {
    var edges := OddEvenEdges(numEdges, numVertices, draws);
    GeneratedEdgesShape(numEdges, numVertices, draws);
    CheckWrittenLine(v, c);
    MinimumSourceIsParityRoot(edges, numVertices, v, c);
    assert ExpectedComponent(v) == ParityRoot(v);
  }

  /** A result file that gives vertices of the generated graph the smallest id of their
      component passes every line of the check, in whatever order the lines come. */
  lemma CorrectResultPasses(numEdges: int, numVertices: int, draws: seq<Draw>, results: seq<(int, int)>)
    requires EdgeArgsValid(numEdges, numVertices)
    requires DrawsAvailable(draws, RandomEdgeCount(numEdges, numVertices), numVertices)
    requires forall k :: 0 <= k < |results| ==>
      1 <= results[k].0 <= numVertices &&
      IsMinimumLabel(OddEvenEdges(numEdges, numVertices, draws), results[k].0, results[k].1)
    ensures forall k :: 0 <= k < |results| ==> CheckLine(ResultLine(results[k].0, results[k].1)) == Pass
  {
    var edges := OddEvenEdges(numEdges, numVertices, draws);
    GeneratedEdgesShape(numEdges, numVertices, draws);
    forall k | 0 <= k < |results| ensures CheckLine(ResultLine(results[k].0, results[k].1)) == Pass {
      var (v, c) := results[k];
      ReachableKeepsParity(edges, numVertices, v, c);
      CheckAcceptsExactlyComponentMinimum(numEdges, numVertices, draws, v, c);
    }
  }

  /** The test's own input: 1000 vertices and 10000 edges pass the argument checks and
      give 998 chain edges followed by 9002 random edges; every odd vertex then has
      component minimum 1 and every even vertex component minimum 2. */
  lemma TestInputComponents(draws: seq<Draw>, v: int)
    requires DrawsAvailable(draws, NUM_EDGES - (NUM_VERTICES - 2), NUM_VERTICES)
    requires 1 <= v <= NUM_VERTICES
    ensures EdgeArgsValid(NUM_EDGES, NUM_VERTICES) && RandomEdgeCount(NUM_EDGES, NUM_VERTICES) == 9002
    ensures IsMinimumLabel(OddEvenEdges(NUM_EDGES, NUM_VERTICES, draws), v, if v % 2 == 1 then 1 else 2)
  {
    DemandedIsComponentMinimum(NUM_EDGES, NUM_VERTICES, draws, v);
  }
}
