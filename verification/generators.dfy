/** The two generators of the connected-components test input: the vertex file
    (one id per line) and the odd/even edge file (a chain joining every vertex to
    the vertex two below it, then random edges whose endpoints share a parity).
    `java.util.Random` is replaced by the sequence of values it hands out. */
module Generators {
  import opened JavaText
  import opened OddEvenGraph

  /** A generator's outcome: its text, or the `IllegalArgumentException` it throws. */
  datatype Result<T> = Ok(value: T) | IllegalArgument

  /** The largest vertex or edge count either generator accepts. */
  const MAX_ITEMS: int := 1000000

  // ---------------------------------------------------------------------------
  // Vertices
  // ---------------------------------------------------------------------------

  /** The vertex file's lines: the ids 1..num in increasing order. */
  function VertexLines(num: nat): (ls: seq<string>)
  {
    seq(num, k requires 0 <= k => Show(k + 1))
  }

  /** `getEnumeratingVertices(num)`. */
  method GetEnumeratingVertices(num: int) returns (r: Result<string>)
    ensures r.IllegalArgument? <==> num < 1 || num > MAX_ITEMS
    ensures r.Ok? ==> r.value == JoinLines(VertexLines(num))
  {
    if num < 1 || num > MAX_ITEMS {
      return IllegalArgument;
    }
    var bld: string := "";
    for i := 1 to num + 1
      invariant bld == JoinLines(VertexLines(i - 1))
    {
      assert VertexLines(i) == VertexLines(i - 1) + [Show(i)];
      JoinLinesSnoc(VertexLines(i - 1), Show(i));
      bld := bld + Show(i) + "\n";
    }
    return Ok(bld);
  }

  /** Read line by line, the vertex file holds exactly `num` lines and line i
      (counting from 1) is the decimal text of i, which parses back to i. */
  lemma VertexTextReadsBack(num: int)
    requires 1 <= num <= MAX_ITEMS
    ensures var text := JoinLines(VertexLines(num));
      text[|text| - 1] == '\n' &&
      SplitLines(text) == VertexLines(num) &&
      forall k :: 0 <= k < num ==> SplitLines(text)[k] == Show(k + 1) && ParseInt(SplitLines(text)[k]) == Some(k + 1)
  {
    JoinLinesEndsWithLineFeed(VertexLines(num));
    LinesRoundTrip(VertexLines(num));
    forall k | 0 <= k < num ensures ParseInt(VertexLines(num)[k]) == Some(k + 1) {
      ParseShowRoundTrip(k + 1);
    }
  }

  // ---------------------------------------------------------------------------
  // Edges
  // ---------------------------------------------------------------------------

  /** What one random edge consumes from the generator: `nextBoolean()` and then two
      `nextInt(numVertices)` draws, for the source and for the target. */
  datatype Draw = Draw(coin: bool, sourcePick: int, targetPick: int)

  /** The bounds checked before anything is generated. */
  predicate EdgeArgsValid(numEdges: int, numVertices: int) {
    2 <= numVertices <= MAX_ITEMS && numVertices <= numEdges <= MAX_ITEMS
  }

  /** How many random edges follow the chain: `numEdges` after `numEdges -= numVertices - 2`. */
  function RandomEdgeCount(numEdges: int, numVertices: int): (c: int)
    requires EdgeArgsValid(numEdges, numVertices)
    ensures c >= 2 && (numVertices - 2) + c == numEdges
  {
    numEdges - (numVertices - 2)
  }

  /** `Random.nextInt(numVertices)` only returns values in [0, numVertices), and enough
      draws are available for the random edges. */
  predicate DrawsAvailable(draws: seq<Draw>, count: int, numVertices: int) {
    |draws| >= count &&
    forall k :: 0 <= k < |draws| ==>
      0 <= draws[k].sourcePick < numVertices && 0 <= draws[k].targetPick < numVertices
  }

  /** One endpoint of a random edge: the draw plus one, moved down by one when its
      parity is not `evenOdd`, and moved to 2 when that would leave the range. */
  function CorrectParity(pick: int, evenOdd: int, n: int): (v: int)
    requires n >= 2 && 0 <= pick < n && (evenOdd == 0 || evenOdd == 1)
    ensures 1 <= v <= n && v % 2 == evenOdd
    ensures v == pick + 1 || v == pick || (pick == 0 && v == 2)
  {
    var v := pick + 1;
    if v % 2 != evenOdd then (if v - 1 < 1 then 2 else v - 1) else v
  }

  function EvenOdd(coin: bool): (evenOdd: int)
  {
    if coin then 1 else 0
  }

  /** The random edge a draw produces: both endpoints in 1..n with the parity the coin chose. */
  function RandomEdge(d: Draw, n: int): (e: Edge)
    requires n >= 2 && 0 <= d.sourcePick < n && 0 <= d.targetPick < n
    ensures 1 <= e.0 <= n && 1 <= e.1 <= n
    ensures e.0 % 2 == EvenOdd(d.coin) && e.1 % 2 == EvenOdd(d.coin)
  {
    (CorrectParity(d.sourcePick, EvenOdd(d.coin), n), CorrectParity(d.targetPick, EvenOdd(d.coin), n))
  }

  /** Edge k of the generated list: the chain edge `k+1 k+3` for the first
      numVertices - 2 positions, then the random edge of the next draw. */
  function EdgeAt(numEdges: int, numVertices: int, draws: seq<Draw>, k: int): (e: Edge)
    requires EdgeArgsValid(numEdges, numVertices)
    requires DrawsAvailable(draws, RandomEdgeCount(numEdges, numVertices), numVertices)
    requires 0 <= k < numEdges
  {
    if k < numVertices - 2 then (k + 1, k + 3) else RandomEdge(draws[k - (numVertices - 2)], numVertices)
  }

  /** The edges `getRandomOddEvenEdges` writes, in order: the chain, then one random
      edge per draw. */
  function OddEvenEdges(numEdges: int, numVertices: int, draws: seq<Draw>): (edges: seq<Edge>)
    requires EdgeArgsValid(numEdges, numVertices)
    requires DrawsAvailable(draws, RandomEdgeCount(numEdges, numVertices), numVertices)
  {
    seq(numEdges, k requires 0 <= k < numEdges => EdgeAt(numEdges, numVertices, draws, k))
  }

  /** The generated edge list has `numEdges` edges: first the chain `i-2 i`, then the
      random edges, one per draw, whose endpoints lie in 1..numVertices and share the
      parity the draw's coin chose; so no edge joins an odd vertex to an even one. */
  lemma GeneratedEdgesShape(numEdges: int, numVertices: int, draws: seq<Draw>)
    requires EdgeArgsValid(numEdges, numVertices)
    requires DrawsAvailable(draws, RandomEdgeCount(numEdges, numVertices), numVertices)
    ensures var edges := OddEvenEdges(numEdges, numVertices, draws);
      |edges| == numEdges &&
      ChainPrefix(edges, numVertices) &&
      EndpointsInRange(edges, numVertices) && ParityPreserving(edges) &&
      forall k :: 0 <= k < RandomEdgeCount(numEdges, numVertices) ==>
        edges[numVertices - 2 + k] == RandomEdge(draws[k], numVertices) &&
        edges[numVertices - 2 + k].0 % 2 == EvenOdd(draws[k].coin)
  {
    var edges := OddEvenEdges(numEdges, numVertices, draws);
    forall k | 0 <= k < |edges|
      ensures 1 <= edges[k].0 <= numVertices && 1 <= edges[k].1 <= numVertices
      ensures edges[k].0 % 2 == edges[k].1 % 2
    {
      if k >= numVertices - 2 {
        var d := draws[k - (numVertices - 2)];
        assert edges[k] == RandomEdge(d, numVertices);
      }
    }
    forall k | 0 <= k < RandomEdgeCount(numEdges, numVertices)
      ensures edges[numVertices - 2 + k] == RandomEdge(draws[k], numVertices)
    {
      assert edges[numVertices - 2 + k] == EdgeAt(numEdges, numVertices, draws, numVertices - 2 + k);
    }
  }

  /** The line written for one edge: source, one blank, target. */
  function EdgeLine(e: Edge): (line: string)
  {
    Show(e.0) + " " + Show(e.1)
  }

  function EdgeLines(edges: seq<Edge>): (ls: seq<string>)
  {
    seq(|edges|, k requires 0 <= k < |edges| => EdgeLine(edges[k]))
  }

  /** Writing the line of one more edge after the text of some edges gives the text
      of the longer edge list. */
  lemma RenderOneMore(edges: seq<Edge>, text: string, source: int, target: int)
    requires text == JoinLines(EdgeLines(edges))
    ensures text + Show(source) + " " + Show(target) + "\n" == JoinLines(EdgeLines(edges + [(source, target)]))
  {
    var line := EdgeLine((source, target));
    assert text + Show(source) + " " + Show(target) + "\n" == text + line + "\n";
    assert EdgeLines(edges + [(source, target)]) == EdgeLines(edges) + [line];
    JoinLinesSnoc(EdgeLines(edges), line);
  }

  /** The edges written so far are the first ones of the generated list. */
  ghost predicate WrittenPrefix(written: seq<Edge>, numEdges: int, numVertices: int, draws: seq<Draw>)
    requires EdgeArgsValid(numEdges, numVertices)
    requires DrawsAvailable(draws, RandomEdgeCount(numEdges, numVertices), numVertices)
  {
    |written| <= numEdges &&
    forall k :: 0 <= k < |written| ==> written[k] == EdgeAt(numEdges, numVertices, draws, k)
  }

  /** Writing the next edge of the list keeps the written edges a prefix of it. */
  lemma ExtendWritten(written: seq<Edge>, e: Edge, numEdges: int, numVertices: int, draws: seq<Draw>)
    requires EdgeArgsValid(numEdges, numVertices)
    requires DrawsAvailable(draws, RandomEdgeCount(numEdges, numVertices), numVertices)
    requires WrittenPrefix(written, numEdges, numVertices, draws) && |written| < numEdges
    requires e == EdgeAt(numEdges, numVertices, draws, |written|)
    ensures WrittenPrefix(written + [e], numEdges, numVertices, draws)
  {
    var w := written + [e];
    forall k | 0 <= k < |w| ensures w[k] == EdgeAt(numEdges, numVertices, draws, k) {
      if k < |written| {
        assert w[k] == written[k];
      }
    }
  }

  /** Once all numEdges edges are written, they are the whole list. */
  lemma WrittenComplete(written: seq<Edge>, numEdges: int, numVertices: int, draws: seq<Draw>)
    requires EdgeArgsValid(numEdges, numVertices)
    requires DrawsAvailable(draws, RandomEdgeCount(numEdges, numVertices), numVertices)
    requires WrittenPrefix(written, numEdges, numVertices, draws) && |written| == numEdges
    ensures written == OddEvenEdges(numEdges, numVertices, draws)
  {
  }

  /** `getRandomOddEvenEdges(numEdges, numVertices, seed)`, with the random generator
      seeded by `seed` replaced by the values it would hand out. */
  method GetRandomOddEvenEdges(numEdges: int, numVertices: int, draws: seq<Draw>) returns (r: Result<string>)
    requires EdgeArgsValid(numEdges, numVertices) ==>
      DrawsAvailable(draws, RandomEdgeCount(numEdges, numVertices), numVertices)
    ensures r.IllegalArgument? <==> !EdgeArgsValid(numEdges, numVertices)
    ensures r.Ok? ==> r.value == JoinLines(EdgeLines(OddEvenEdges(numEdges, numVertices, draws)))
  {
    if numVertices < 2 || numVertices > MAX_ITEMS || numEdges < numVertices || numEdges > MAX_ITEMS {
      return IllegalArgument;
    }
    var bld: string := "";
    ghost var written: seq<Edge> := [];

    // the chain: every vertex joined to the one two below it
    for i := 3 to numVertices + 1
      invariant |written| == i - 3
      invariant WrittenPrefix(written, numEdges, numVertices, draws)
      invariant bld == JoinLines(EdgeLines(written))
    {
      ExtendWritten(written, (i - 2, i), numEdges, numVertices, draws);
      RenderOneMore(written, bld, i - 2, i);
      bld := bld + Show(i - 2) + " " + Show(i) + "\n";
      written := written + [(i - 2, i)];
    }

    var remaining := numEdges - (numVertices - 2);
    for i := 1 to remaining + 1
      invariant |written| == numVertices - 2 + i - 1
      invariant WrittenPrefix(written, numEdges, numVertices, draws)
      invariant bld == JoinLines(EdgeLines(written))
    {
      var draw := draws[i - 1];
      var evenOdd := EvenOdd(draw.coin);

      // each endpoint is drawn from 1..numVertices and, when its parity is wrong, moved
      // down by one (or up to 2 from 0)
      var source := CorrectParity(draw.sourcePick, evenOdd, numVertices);
      var target := CorrectParity(draw.targetPick, evenOdd, numVertices);
      ExtendWritten(written, (source, target), numEdges, numVertices, draws);
      RenderOneMore(written, bld, source, target);
      bld := bld + Show(source) + " " + Show(target) + "\n";
      written := written + [(source, target)];
    }
    WrittenComplete(written, numEdges, numVertices, draws);
    return Ok(bld);
  }

  /** Read line by line, the edge file holds exactly `numEdges` lines; each splits on
      the blank into two tokens that parse back to the endpoints of the matching edge,
      and the first `numVertices - 2` lines are `i-2 i` for i = 3..numVertices. */
  lemma EdgeTextReadsBack(numEdges: int, numVertices: int, draws: seq<Draw>)
    requires EdgeArgsValid(numEdges, numVertices)
    requires DrawsAvailable(draws, RandomEdgeCount(numEdges, numVertices), numVertices)
    ensures var edges := OddEvenEdges(numEdges, numVertices, draws);
      var lines := SplitLines(JoinLines(EdgeLines(edges)));
      |lines| == numEdges &&
      (forall i :: 3 <= i <= numVertices ==> lines[i - 3] == Show(i - 2) + " " + Show(i)) &&
      forall k :: 0 <= k < numEdges ==>
        |JavaSplit(lines[k], ' ')| == 2 &&
        ParseInt(JavaSplit(lines[k], ' ')[0]) == Some(edges[k].0) &&
        ParseInt(JavaSplit(lines[k], ' ')[1]) == Some(edges[k].1)
  {
    var edges := OddEvenEdges(numEdges, numVertices, draws);
    GeneratedEdgesShape(numEdges, numVertices, draws);
    var ls := EdgeLines(edges);
    forall k | 0 <= k < numEdges
      ensures ls[k] == EdgeLine(edges[k])
      ensures JavaSplit(ls[k], ' ') == [Show(edges[k].0), Show(edges[k].1)]
      ensures ParseInt(Show(edges[k].0)) == Some(edges[k].0) && ParseInt(Show(edges[k].1)) == Some(edges[k].1)
    {
      EdgeLineReadsBack(edges[k]);
    }
    LinesRoundTrip(ls);
    forall i | 3 <= i <= numVertices ensures ls[i - 3] == Show(i - 2) + " " + Show(i) {
      assert edges[i - 3] == (i - 2, i);
    }
  }

  /** The line of an edge between vertices in int range splits on the blank into two
      tokens that parse back to its endpoints. */
  lemma EdgeLineReadsBack(e: Edge)
    requires IsInt(e.0) && IsInt(e.1)
    ensures JavaSplit(EdgeLine(e), ' ') == [Show(e.0), Show(e.1)]
    ensures ParseInt(Show(e.0)) == Some(e.0) && ParseInt(Show(e.1)) == Some(e.1)
  {
    SplitPair(Show(e.0), Show(e.1), ' ');
    ParseShowRoundTrip(e.0);
    ParseShowRoundTrip(e.1);
  }
}
