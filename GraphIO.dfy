/** graphio.py: the older unweighted graph file format. A header with the
    vertex and edge counts, one vertex per line, then one "v0 v1" edge per
    line; '#' starts a comment. Files are given as their lines. */
module GraphIO {
  import opened Wrappers
  import opened Text
  import opened FileIO
  import opened LineParse

  /** `s_v0, s_v1 = line.split()` then `(int(s_v0), int(s_v1))`: the unpack
      fails with ValueError unless there are exactly two tokens. */
  function ParsePair(line: string): (r: Result<(int, int)>)
    ensures r.Ok? ==>
      (|Split(line)| == 2 && ParseInt(Split(line)[0]) == Ok(r.value.0) && ParseInt(Split(line)[1]) == Ok(r.value.1))
    ensures |Split(line)| != 2 ==> r == Err(ValueError)
  {
    var toks := Split(line);
    if |toks| != 2 then Err(ValueError)
    else
      match ParseInt(toks[0])
      case Err(e) => Err(e)
      case Ok(v0) =>
        match ParseInt(toks[1])
        case Err(e) => Err(e)
        case Ok(v1) => Ok((v0, v1))
  }

  /** read_from_file over the lines of the file: the cleaning loop, then the
      header, vertex and edge loops. */
  method ReadFromFile(raw: seq<string>) returns (r: Result<(seq<int>, seq<(int, int)>)>)
    ensures r == ParseGraph(CleanLines(raw), ParsePair)
  {
    var lines := ReadDataLines(raw);
    r := ReadGraph(lines, ParsePair);
  }

  /** The "v0 v1" text of an edge line. */
  function EdgeText(e: (int, int)): string {
    IntToString(e.0) + " " + IntToString(e.1)
  }

  /** write_to_file's lines: counts, vertices, then "v0 v1" edges. */
  function WriteToFile(vertices: seq<int>, edges: seq<(int, int)>): (lines: seq<string>)
    ensures |lines| == 2 + |vertices| + |edges|
    ensures lines[0] == Line(IntToString(|vertices|)) && lines[1] == Line(IntToString(|edges|))
    ensures forall k | 0 <= k < |vertices| :: lines[2 + k] == Line(IntToString(vertices[k]))
    ensures forall k | 0 <= k < |edges| :: lines[2 + |vertices| + k] == Line(EdgeText(edges[k]))
  {
    Lines(GraphTexts(vertices, edges, EdgeText))
  }

  lemma EdgeTextParses(e: (int, int))
    ensures EdgeText(e) != [] && '#' !in EdgeText(e) && Trimmed(EdgeText(e))
    ensures ParsePair(EdgeText(e)) == Ok(e)
  {
    var ns := [e.0, e.1];
    JoinedInts(ns);
    var ts := seq(|ns|, k requires 0 <= k < |ns| => IntToString(ns[k]));
    assert ts == [IntToString(e.0), IntToString(e.1)];
    assert JoinSpace(ts) == EdgeText(e);
    ParseIntToString(e.0);
    ParseIntToString(e.1);
  }

  /** Reading back what write_to_file wrote gives the same graph. */
  lemma RoundTrip(vertices: seq<int>, edges: seq<(int, int)>)
    ensures ParseGraph(CleanLines(WriteToFile(vertices, edges)), ParsePair) == Ok((vertices, edges))
  {
    WrittenTexts(vertices, edges);
    ReadTexts(vertices, edges);
  }

  /** Cleaning the written lines leaves the written texts. */
  lemma WrittenTexts(vertices: seq<int>, edges: seq<(int, int)>)
    ensures CleanLines(WriteToFile(vertices, edges)) == GraphTexts(vertices, edges, EdgeText)
  {
    forall k | 0 <= k < |edges| ensures EdgeText(edges[k]) != [] && '#' !in EdgeText(edges[k]) && Trimmed(EdgeText(edges[k])) {
      EdgeTextParses(edges[k]);
    }
    CleanWrittenGraph(vertices, edges, EdgeText);
  }

  /** The written texts parse back to the graph. */
  lemma ReadTexts(vertices: seq<int>, edges: seq<(int, int)>)
    ensures ParseGraph(GraphTexts(vertices, edges, EdgeText), ParsePair) == Ok((vertices, edges))
  {
    forall k | 0 <= k < |edges| ensures ParsePair(EdgeText(edges[k])) == Ok(edges[k]) {
      EdgeTextParses(edges[k]);
    }
    ReadGraphTexts(vertices, edges, EdgeText, ParsePair);
  }
}
