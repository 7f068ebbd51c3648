# Connected components over odd/even graphs: test data and result check

This project models the self-contained logic of the workset-iteration integration
test for connected components (`ConnectedComponentsNepheleITCase`). The test runs the
connected-components job under four tail wirings. The iteration engine it drives is
not part of this model. What is modelled:

- **The vertex generator** (`getEnumeratingVertices`). It rejects counts outside
  1..1000000. Otherwise it writes the ids 1..num, one per line.
- **The odd/even edge generator** (`getRandomOddEvenEdges`). It checks four bounds.
  It writes the chain `i-2 i` for i = 3..numVertices. It then writes
  `numEdges - (numVertices - 2)` random edges. A parity correction gives both endpoints
  of each random edge the parity of a coin flip. `java.util.Random` becomes a sequence
  of `Draw`s, the values it would hand out.
- **The graph those edges describe** (module `OddEvenGraph`). The chain links every
  vertex to 1 or to 2. No edge joins vertices of different parity. So the smallest id
  in an odd vertex's component is 1, and in an even vertex's component it is 2. This
  holds both when the edge list is read as an undirected graph and when it is read
  along the edges' direction, from an edge's first endpoint to its second. The job
  partitions edges on their first field and sends component ids that way; the chain
  `i-2 i` runs upward, so 1 and 2 reach every vertex of their parity.
- **The result validator** (`checkOddEvenResult`). Each line must split on a blank
  into exactly two Java `int`s. The component must be `vertex % 2` (Java remainder),
  with 0 replaced by 2. It fails at the first bad line.
- **The link between the two sides** (module `OddEvenScenario`). For every vertex of
  the generated graph, the validator accepts a result line exactly when its component
  is the smallest id reachable from the vertex.
- **The two record maps.** `IdDuplicator` copies field 0 into field 1 of the record
  in place and collects it. `DummyMapper` collects its record unchanged.
- **The Java text conventions these rely on** (module `JavaText`).
  - `StringBuilder.append(int)` and `Integer.parseInt`, with the round trip between them.
  - `Pattern.split` with a one-character pattern.
  - Lines terminated by a line feed, with the round trip between writing and reading them.

The test's 10000 edges over 1000 vertices give 998 chain edges and 9002 random edges
(`NUM_EDGES - (NUM_VERTICES - 2)`); `OddEvenScenario.TestInputComponents` states this.

## Model

| member | source | states |
|---|---|---|
| `Generators.GetEnumeratingVertices` | pact/pact-tests/src/test/java/eu/stratosphere/pact/test/iterative/nephele/ConnectedComponentsNepheleITCase.java:106-116 | throws exactly when num < 1 or num > 1000000; otherwise returns the ids 1..num in order, each followed by a line feed |
| `Generators.VertexTextReadsBack` | pact/pact-tests/src/test/java/eu/stratosphere/pact/test/iterative/nephele/ConnectedComponentsNepheleITCase.java:110-115 | the vertex text ends with a line feed, reads back as exactly num lines, and line i parses back to i |
| `Generators.RandomEdgeCount` | pact/pact-tests/src/test/java/eu/stratosphere/pact/test/iterative/nephele/ConnectedComponentsNepheleITCase.java:139-142 | under valid arguments at least 2 random edges follow the chain, and chain plus random edges number exactly numEdges |
| `Generators.CorrectParity` | pact/pact-tests/src/test/java/eu/stratosphere/pact/test/iterative/nephele/ConnectedComponentsNepheleITCase.java:145-159 | for any draw in [0, numVertices) the corrected endpoint lies in 1..numVertices and has the requested parity; it is the draw plus one, the draw itself, or 2 in the corner where the draw is 0 |
| `Generators.RandomEdge` | pact/pact-tests/src/test/java/eu/stratosphere/pact/test/iterative/nephele/ConnectedComponentsNepheleITCase.java:143-161 | both endpoints of a random edge lie in 1..numVertices and both have the parity of the coin |
| `Generators.GeneratedEdgesShape` | pact/pact-tests/src/test/java/eu/stratosphere/pact/test/iterative/nephele/ConnectedComponentsNepheleITCase.java:118-162 | numEdges edges; the first numVertices - 2 are the chain; all endpoints are in 1..numVertices; no edge crosses parity; random edge k comes from draw k with the coin's parity |
| `Generators.GetRandomOddEvenEdges` | pact/pact-tests/src/test/java/eu/stratosphere/pact/test/iterative/nephele/ConnectedComponentsNepheleITCase.java:127-164 | throws exactly in the four bound violations; otherwise returns the lines of the chain and then of the random edges, in order, each followed by a line feed |
| `Generators.RenderOneMore` | pact/pact-tests/src/test/java/eu/stratosphere/pact/test/iterative/nephele/ConnectedComponentsNepheleITCase.java:136 | appending `source target` and a line feed to the text of some edges gives the text of those edges followed by `(source, target)` |
| `Generators.EdgeTextReadsBack` | pact/pact-tests/src/test/java/eu/stratosphere/pact/test/iterative/nephele/ConnectedComponentsNepheleITCase.java:131-163 | the edge text reads back as numEdges lines; the first numVertices - 2 are `i-2 i`; every line splits into two tokens that parse back to the edge's endpoints |
| `Generators.EdgeLineReadsBack` | pact/pact-tests/src/test/java/eu/stratosphere/pact/test/iterative/nephele/ConnectedComponentsNepheleITCase.java:170-174 | the line of an edge between int-range vertices splits on the blank into exactly its two endpoint texts, each of which parses back to the endpoint |
| `OddEvenGraph.ParityRoot` | pact/pact-tests/src/test/java/eu/stratosphere/pact/test/iterative/nephele/ConnectedComponentsNepheleITCase.java:133-134 | the root a vertex's chain leads down to is 1 or 2 |
| `OddEvenGraph.WalkStaysInParityClass` | pact/pact-tests/src/test/java/eu/stratosphere/pact/test/iterative/nephele/ConnectedComponentsNepheleITCase.java:118-120 | along any walk from a vertex in 1..n, over in-range parity-preserving edges, every vertex stays in 1..n with the start's parity |
| `OddEvenGraph.ReachableKeepsParity` | pact/pact-tests/src/test/java/eu/stratosphere/pact/test/iterative/nephele/ConnectedComponentsNepheleITCase.java:118-120 | every vertex reachable from v lies in 1..n and has v's parity |
| `OddEvenGraph.ChainReachesRoot` | pact/pact-tests/src/test/java/eu/stratosphere/pact/test/iterative/nephele/ConnectedComponentsNepheleITCase.java:133-137 | through the chain every odd vertex reaches 1 and every even vertex reaches 2 |
| `OddEvenGraph.ComponentMinimum` | pact/pact-tests/src/test/java/eu/stratosphere/pact/test/iterative/nephele/ConnectedComponentsNepheleITCase.java:118-136 | with the chain present and no parity-crossing edge, the smallest id in v's component is 1 for odd v and 2 for even v |
| `OddEvenGraph.MinimumLabelIsParityRoot` | pact/pact-tests/src/test/java/eu/stratosphere/pact/test/iterative/nephele/ConnectedComponentsNepheleITCase.java:118-136 | c is the smallest id in v's component if and only if c is 1 (odd v) or 2 (even v) |
| `OddEvenGraph.SourceKeepsParity` | pact/pact-tests/src/test/java/eu/stratosphere/pact/test/iterative/nephele/ConnectedComponentsNepheleITCase.java:143-161 | every vertex that reaches v along the edges' direction lies in 1..n and has v's parity |
| `OddEvenGraph.RootReachesAlongChain` | pact/pact-tests/src/test/java/eu/stratosphere/pact/test/iterative/nephele/ConnectedComponentsNepheleITCase.java:133-137 | following the chain edges `i-2 i` upward, 1 reaches every odd vertex and 2 every even vertex |
| `OddEvenGraph.SourceMinimum` | pact/pact-tests/src/test/java/eu/stratosphere/pact/test/iterative/nephele/ConnectedComponentsNepheleITCase.java:133-161 | with the chain present and no parity-crossing edge, the smallest id reaching v along the edges is 1 for odd v and 2 for even v |
| `OddEvenGraph.MinimumSourceIsParityRoot` | pact/pact-tests/src/test/java/eu/stratosphere/pact/test/iterative/nephele/ConnectedComponentsNepheleITCase.java:133-161 | c is the smallest id reaching v along the edges if and only if c is 1 (odd v) or 2 (even v) |
| `ResultCheck.JavaRemTwo` | pact/pact-tests/src/test/java/eu/stratosphere/pact/test/iterative/nephele/ConnectedComponentsNepheleITCase.java:176 | Java's `x % 2`: a remainder in -1..1 that differs from x by an even number and has x's sign |
| `ResultCheck.ExpectedComponent` | pact/pact-tests/src/test/java/eu/stratosphere/pact/test/iterative/nephele/ConnectedComponentsNepheleITCase.java:176-179 | for a positive vertex, 1 or 2 with the vertex's parity; 2 for every even vertex; -1 for a negative odd vertex |
| `ResultCheck.CheckWrittenLine` | pact/pact-tests/src/test/java/eu/stratosphere/pact/test/iterative/nephele/ConnectedComponentsNepheleITCase.java:170-180 | a line `vertex component` passes exactly when the component is the demanded one, and otherwise fails naming both |
| `ResultCheck.CheckOddEvenResult` | pact/pact-tests/src/test/java/eu/stratosphere/pact/test/iterative/nephele/ConnectedComponentsNepheleITCase.java:166-185 | accepts exactly when every line passes; otherwise it reports the first failing line and its reason (wrong token count, malformed number, wrong component) |
| `OddEvenScenario.DemandedIsComponentMinimum` | pact/pact-tests/src/test/java/eu/stratosphere/pact/test/iterative/nephele/ConnectedComponentsNepheleITCase.java:118-136 | for every vertex of the generated graph, the validator's demanded component is the smallest id in the vertex's component |
| `OddEvenScenario.CheckAcceptsExactlyComponentMinimum` | pact/pact-tests/src/test/java/eu/stratosphere/pact/test/iterative/nephele/ConnectedComponentsNepheleITCase.java:166-185 | for a vertex of the generated graph, the line `v c` passes if and only if c is the smallest id in v's component |
| `OddEvenScenario.CheckAcceptsExactlyMinimumSource` | pact/pact-tests/src/test/java/eu/stratosphere/pact/test/iterative/nephele/ConnectedComponentsNepheleITCase.java:166-185 | for a vertex of the generated graph, the line `v c` passes if and only if c is the smallest id that reaches v along the edges' direction |
| `OddEvenScenario.CorrectResultPasses` | pact/pact-tests/src/test/java/eu/stratosphere/pact/test/iterative/nephele/ConnectedComponentsNepheleITCase.java:214-219 | a result file that labels vertices with their component minimum passes every line, in any order |
| `OddEvenScenario.TestInputComponents` | pact/pact-tests/src/test/java/eu/stratosphere/pact/test/iterative/nephele/ConnectedComponentsNepheleITCase.java:75-77 | the test's 1000 vertices and 10000 edges pass the bounds and give 9002 random edges; odd vertices have minimum 1, even ones 2 |
| `JavaText.Digits` | pact/pact-tests/src/test/java/eu/stratosphere/pact/test/iterative/nephele/ConnectedComponentsNepheleITCase.java:112 | the decimal text of a non-negative number is a non-empty digit string that starts with 0 only for 0 |
| `JavaText.Show` | pact/pact-tests/src/test/java/eu/stratosphere/pact/test/iterative/nephele/ConnectedComponentsNepheleITCase.java:112 | the decimal text of an int is non-empty and contains neither a blank nor a line feed |
| `JavaText.ParseInt` | pact/pact-tests/src/test/java/eu/stratosphere/pact/test/iterative/nephele/ConnectedComponentsNepheleITCase.java:173-174 | a parsed value fits a Java int, and the text starts with a sign or a digit |
| `JavaText.DigitsRoundTrip` | pact/pact-tests/src/test/java/eu/stratosphere/pact/test/iterative/nephele/ConnectedComponentsNepheleITCase.java:112 | the value of a number's digit string is the number |
| `JavaText.ParseShowRoundTrip` | pact/pact-tests/src/test/java/eu/stratosphere/pact/test/iterative/nephele/ConnectedComponentsNepheleITCase.java:173-174 | parsing the decimal text of any Java int gives that int back |
| `JavaText.IndexOf` | pact/pact-tests/src/test/java/eu/stratosphere/pact/test/iterative/nephele/ConnectedComponentsNepheleITCase.java:170 | the first position of a character, or the length when it is absent |
| `JavaText.FieldsRoundTrip` | pact/pact-tests/src/test/java/eu/stratosphere/pact/test/iterative/nephele/ConnectedComponentsNepheleITCase.java:170 | the pieces between separators hold no separator and rejoin to the original text |
| `JavaText.StripTrailingEmpty` | pact/pact-tests/src/test/java/eu/stratosphere/pact/test/iterative/nephele/ConnectedComponentsNepheleITCase.java:170 | removes exactly the trailing empty tokens, keeping the rest as a prefix |
| `JavaText.SplitPair` | pact/pact-tests/src/test/java/eu/stratosphere/pact/test/iterative/nephele/ConnectedComponentsNepheleITCase.java:170-171 | two non-empty blank-free words joined by one blank split into exactly those two tokens |
| `JavaText.JoinLinesSnoc` | pact/pact-tests/src/test/java/eu/stratosphere/pact/test/iterative/nephele/ConnectedComponentsNepheleITCase.java:112-113 | appending a line and a line feed to a text of lines gives the text of the longer list |
| `JavaText.JoinLinesEndsWithLineFeed` | pact/pact-tests/src/test/java/eu/stratosphere/pact/test/iterative/nephele/ConnectedComponentsNepheleITCase.java:113 | a text of at least one line ends with a line feed |
| `JavaText.LinesRoundTrip` | pact/pact-tests/src/test/java/eu/stratosphere/pact/test/iterative/nephele/ConnectedComponentsNepheleITCase.java:169 | reading back a text of line-feed-free lines gives exactly those lines |
| `Mappers.WithField` | pact/pact-tests/src/test/java/eu/stratosphere/pact/test/iterative/nephele/ConnectedComponentsNepheleITCase.java:225 | after setting field pos, that field holds the value; a short record grows to pos + 1 fields with unset ones in between; all other fields keep their values |
| `Mappers.PactRecord.GetField` | pact/pact-tests/src/test/java/eu/stratosphere/pact/test/iterative/nephele/ConnectedComponentsNepheleITCase.java:225 | returns the field when it exists and signals the out-of-bounds error otherwise |
| `Mappers.PactRecord.SetField` | pact/pact-tests/src/test/java/eu/stratosphere/pact/test/iterative/nephele/ConnectedComponentsNepheleITCase.java:225 | the record's fields become the old fields with field pos set |
| `Mappers.Collector.Collect` | pact/pact-tests/src/test/java/eu/stratosphere/pact/test/iterative/nephele/ConnectedComponentsNepheleITCase.java:226 | the record's current fields are emitted once, after everything emitted before |
| `Mappers.DuplicateIdProperties` | pact/pact-tests/src/test/java/eu/stratosphere/pact/test/iterative/nephele/ConnectedComponentsNepheleITCase.java:224-226 | field 0 is kept and copied into field 1, later fields are kept, a one-field record grows to two, and duplicating again changes nothing |
| `Mappers.VertexStartsInOwnComponent` | pact/pact-tests/src/test/java/eu/stratosphere/pact/test/iterative/nephele/ConnectedComponentsNepheleITCase.java:224-226 | a vertex record `(id)` becomes `(id, id)`, so each vertex starts in the component named by its own id |
| `Mappers.IdDuplicator.Map` | pact/pact-tests/src/test/java/eu/stratosphere/pact/test/iterative/nephele/ConnectedComponentsNepheleITCase.java:221-229 | the record itself gets field 1 set to field 0 and is emitted exactly once; a record without field 0 ends in the out-of-bounds error with nothing changed |
| `Mappers.DummyMapper.Map` | pact/pact-tests/src/test/java/eu/stratosphere/pact/test/iterative/nephele/ConnectedComponentsNepheleITCase.java:912-917 | the record is emitted exactly once and is not changed |

## Left out

- The iteration runtime is not part of this model. That covers the head, intermediate and tail tasks, the solution-set hash table, the back channel, the synchronization task and the workset-empty convergence criterion. The test only imports them.
- The connected-components user functions are not part of this model: `NeighborWithComponentIDJoin`, `MinimumComponentIDReduce` and `UpdateComponentIdMatch`. The scenario lemmas therefore speak of any result that labels each vertex with its component minimum, not of the job's actual output.
- Job-graph construction is left out: `createVerticesInput` through the four `createJobGraph*` methods, and the dispatch in `getJobGraph`. It only configures framework objects.
- The JUnit parameter list is left out, and so are temporary files, result readers and the reader loop's I/O. The validator works on the sequence of lines the reader returns.
- `java.util.Random`'s generator sequence is left out. The seed is replaced by the sequence of values it hands out. The only assumption is that `nextInt(numVertices)` lies in [0, numVertices).
- Degree of parallelism, channel types and distributed execution are left out. They are concurrency concerns outside a sequential model.
- JavaText.ParseInt: accepts only ASCII digits, while `Integer.parseInt` also accepts other Unicode decimal digits through `Character.digit`.
- JavaText.SplitLines: ends lines at a line feed only; a reader also ends them at a carriage return.
- Java `int` parameters are modelled as unbounded integers. Both generators check their bounds before any arithmetic, so no overflow can occur.
- `PactRecord` and the collector are framework classes whose code is not shown. The model assumes `setField` grows a short record and `getField` throws `IndexOutOfBoundsException` beyond the last field. It assumes the collector emits the record's contents at the moment of collection. Typed deserialisation of a field is not modelled.
