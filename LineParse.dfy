/** The shared shape of the two graph readers: after the data lines are
    cleaned, line 0 and line 1 hold the vertex and edge counts, then one line
    per vertex and one line per edge follow, read with a running index. */
module LineParse {
  import opened Wrappers
  import opened Text
  import opened FileIO

  /** `range(n)` runs max(n, 0) times. */
  function Times(n: int): nat {
    if n < 0 then 0 else n
  }

  /** Reading `count` consecutive lines from `from` on with `f`, stopping at
      the first failure: IndexError past the last line, or f's own error. */
  function ParseEach<T>(lines: seq<string>, from: nat, count: nat, f: string -> Result<T>): Result<seq<T>>
    decreases count
  {
    if count == 0 then Ok([])
    else
      match ParseEach(lines, from, count - 1, f)
      case Err(e) => Err(e)
      case Ok(xs) =>
        if from + count - 1 >= |lines| then Err(IndexError)
        else
          match f(lines[from + count - 1])
          case Err(e) => Err(e)
          case Ok(x) => Ok(xs + [x])
  }

  /** A successful read yields one value per line, each f's value for it. */
  lemma {:induction false} ParseEachOk<T>(lines: seq<string>, from: nat, count: nat, f: string -> Result<T>)
    requires ParseEach(lines, from, count, f).Ok?
    ensures count > 0 ==> from + count <= |lines|
    ensures var xs := ParseEach(lines, from, count, f).value;
      |xs| == count && forall k | 0 <= k < count :: f(lines[from + k]) == Ok(xs[k])
  {
    if count > 0 {
      assert ParseEach(lines, from, count - 1, f).Ok?;
      ParseEachOk(lines, from, count - 1, f);
      assert from + count - 1 < |lines|;
    }
  }

  /** Once a read fails, reading more lines fails the same way. */
  lemma {:induction false} ParseEachErr<T>(lines: seq<string>, from: nat, count: nat, more: nat, f: string -> Result<T>)
    requires ParseEach(lines, from, count, f).Err? && count <= more
    ensures ParseEach(lines, from, more, f) == ParseEach(lines, from, count, f)
    decreases more
  {
    if count < more {
      ParseEachErr(lines, from, count, more - 1, f);
    }
  }

  /** Lines holding the encodings of xs read back as xs. */
  lemma {:induction false} ParseEachEncoded<T>(lines: seq<string>, from: nat, xs: seq<T>, f: string -> Result<T>)
    requires from + |xs| <= |lines|
    requires forall k | 0 <= k < |xs| :: f(lines[from + k]) == Ok(xs[k])
    ensures ParseEach(lines, from, |xs|, f) == Ok(xs)
  {
    if xs != [] {
      var init := xs[..|xs| - 1];
      assert forall k | 0 <= k < |init| :: f(lines[from + k]) == Ok(init[k]) by {
        forall k | 0 <= k < |init| ensures f(lines[from + k]) == Ok(init[k]) {
          assert init[k] == xs[k];
        }
      }
      ParseEachEncoded(lines, from, init, f);
      assert xs == init + [xs[|xs| - 1]];
    }
  }

  /** The two header counts: `int(lines[0])`, then `int(lines[1])`. */
  function ParseHeader(lines: seq<string>): Result<(int, int)> {
    if |lines| == 0 then Err(IndexError)
    else
      match ParseInt(lines[0])
      case Err(e) => Err(e)
      case Ok(nv) =>
        if |lines| == 1 then Err(IndexError)
        else
          match ParseInt(lines[1])
          case Err(e) => Err(e)
          case Ok(ne) => Ok((nv, ne))
  }

  /** The header, the vertex lines, then the edge lines, read with `edge`. */
  function ParseGraph<E>(lines: seq<string>, edge: string -> Result<E>): Result<(seq<int>, seq<E>)> {
    match ParseHeader(lines)
    case Err(e) => Err(e)
    case Ok(counts) =>
      match ParseEach(lines, 2, Times(counts.0), ParseInt)
      case Err(e) => Err(e)
      case Ok(vs) =>
        match ParseEach(lines, 2 + Times(counts.0), Times(counts.1), edge)
        case Err(e) => Err(e)
        case Ok(es) => Ok((vs, es))
  }

  /** A read succeeds with vs and es when the header gives their lengths and
      the lines after it read as vs, then as es. */
  lemma ParseGraphOf<E>(lines: seq<string>, edge: string -> Result<E>, vs: seq<int>, es: seq<E>)
    requires ParseHeader(lines) == Ok((|vs|, |es|))
    requires ParseEach(lines, 2, |vs|, ParseInt) == Ok(vs)
    requires ParseEach(lines, 2 + |vs|, |es|, edge) == Ok(es)
    ensures ParseGraph(lines, edge) == Ok((vs, es))
  {
  }

  /** A successful read is the header's, then the two loops' results. */
  lemma ParseGraphParts<E>(lines: seq<string>, edge: string -> Result<E>)
    requires ParseGraph(lines, edge).Ok?
    ensures ParseHeader(lines).Ok? && |lines| >= 2
    ensures var counts := ParseHeader(lines).value;
      var vs := ParseEach(lines, 2, Times(counts.0), ParseInt);
      var es := ParseEach(lines, 2 + Times(counts.0), Times(counts.1), edge);
      vs.Ok? && es.Ok? && ParseGraph(lines, edge).value == (vs.value, es.value)
  {
  }

  /** A successful read has as many vertices and edges as the header says,
      each read from its own line. */
  lemma ParseGraphShape<E>(lines: seq<string>, edge: string -> Result<E>)
    requires ParseGraph(lines, edge).Ok?
    ensures ParseHeader(lines).Ok?
    ensures var vs := ParseGraph(lines, edge).value.0;
      var es := ParseGraph(lines, edge).value.1;
      |vs| == Times(ParseHeader(lines).value.0) && |es| == Times(ParseHeader(lines).value.1) &&
      2 + |vs| + |es| <= |lines| &&
      (forall k | 0 <= k < |vs| :: ParseInt(lines[2 + k]) == Ok(vs[k])) &&
      (forall k | 0 <= k < |es| :: edge(lines[2 + |vs| + k]) == Ok(es[k]))
  {
    ParseGraphParts(lines, edge);
    var counts := ParseHeader(lines).value;
    var nv, ne := Times(counts.0), Times(counts.1);
    var V := ParseEach(lines, 2, nv, ParseInt).value;
    var E := ParseEach(lines, 2 + nv, ne, edge).value;
    LoopsShape(lines, edge, nv, ne, V, E);
  }

  /** The two loops' results: one item per line, the lines after the header. */
  lemma LoopsShape<E>(lines: seq<string>, edge: string -> Result<E>, nv: nat, ne: nat, vs: seq<int>, es: seq<E>)
    requires |lines| >= 2
    requires ParseEach(lines, 2, nv, ParseInt) == Ok(vs) && ParseEach(lines, 2 + nv, ne, edge) == Ok(es)
    ensures |vs| == nv && |es| == ne && 2 + |vs| + |es| <= |lines|
    ensures forall k | 0 <= k < |vs| :: ParseInt(lines[2 + k]) == Ok(vs[k])
    ensures forall k | 0 <= k < |es| :: edge(lines[2 + |vs| + k]) == Ok(es[k])
  {
    ParseEachOk(lines, 2, nv, ParseInt);
    ParseEachOk(lines, 2 + nv, ne, edge);
  }

  /** One of the reader's loops: `count` lines from `from` on, each read with
      `f` at a running index. */
  method ReadEach<T>(lines: seq<string>, from: nat, count: nat, f: string -> Result<T>) returns (r: Result<seq<T>>)
    ensures r == ParseEach(lines, from, count, f)
  {
    var items: seq<T> := [];
    var index := from;
    var k := 0;
    while k < count
      invariant 0 <= k <= count && index == from + k
      invariant ParseEach(lines, from, k, f) == Ok(items)
    {
      if index >= |lines| {
        ParseEachErr(lines, from, k + 1, count, f);
        return Err(IndexError);
      }
      var item := f(lines[index]);
      if item.Err? {
        ParseEachErr(lines, from, k + 1, count, f);
        return Err(item.error);
      }
      items := items + [item.value];
      index, k := index + 1, k + 1;
    }
    return Ok(items);
  }

  /** The body of read_from_file after cleaning: the header, the vertex loop,
      then the edge loop. */
  method ReadGraph<E>(lines: seq<string>, edge: string -> Result<E>) returns (r: Result<(seq<int>, seq<E>)>)
    ensures r == ParseGraph(lines, edge)
  {
    if |lines| == 0 {
      return Err(IndexError);
    }
    var nv := ParseInt(lines[0]);
    if nv.Err? {
      return Err(nv.error);
    }
    if |lines| == 1 {
      return Err(IndexError);
    }
    var ne := ParseInt(lines[1]);
    if ne.Err? {
      return Err(ne.error);
    }
    var vertices := ReadEach(lines, 2, Times(nv.value), ParseInt);
    if vertices.Err? {
      return Err(vertices.error);
    }
    var edges := ReadEach(lines, 2 + Times(nv.value), Times(ne.value), edge);
    if edges.Err? {
      return Err(edges.error);
    }
    return Ok((vertices.value, edges.value));
  }

  // ---------------------------------------------------------------- writing

  /** One written line: the text and its newline. */
  function Line(s: string): string {
    s + "\n"
  }

  lemma CleanWrittenLine(s: string)
    requires s != [] && '#' !in s && Trimmed(s)
    ensures CleanLine(Line(s)) == s
  {
    var t := Line(s);
    assert '#' !in t by {
      assert forall i | 0 <= i < |t| :: t[i] == '#' ==> i < |s| && s[i] == '#';
    }
    CutCommentFind(t);
    assert LStrip(t) == t;
    assert t[..|t| - 1] == s;
    assert RStrip(t) == RStrip(s);
  }

  /** Texts written one per line. */
  function Lines(texts: seq<string>): (lines: seq<string>)
    ensures |lines| == |texts| && forall k | 0 <= k < |texts| :: lines[k] == Line(texts[k])
  {
    seq(|texts|, k requires 0 <= k < |texts| => Line(texts[k]))
  }

  /** The texts of a written graph: the counts, then one text per vertex, then
      one per edge. */
  function GraphTexts<E>(vertices: seq<int>, edges: seq<E>, edgeText: E -> string): (texts: seq<string>)
    ensures |texts| == 2 + |vertices| + |edges|
    ensures texts[0] == IntToString(|vertices|) && texts[1] == IntToString(|edges|)
    ensures forall k | 0 <= k < |vertices| :: texts[2 + k] == IntToString(vertices[k])
    ensures forall k | 0 <= k < |edges| :: texts[2 + |vertices| + k] == edgeText(edges[k])
  {
    [IntToString(|vertices|), IntToString(|edges|)] + Texts(vertices, IntToString) + Texts(edges, edgeText)
  }

  /** One text per item. */
  function Texts<T>(xs: seq<T>, f: T -> string): (ts: seq<string>)
    ensures |ts| == |xs| && forall k | 0 <= k < |xs| :: ts[k] == f(xs[k])
  {
    if xs == [] then [] else Texts(xs[..|xs| - 1], f) + [f(xs[|xs| - 1])]
  }

  /** Cleaning written lines strips their newlines. */
  lemma {:induction false} CleanWritten(texts: seq<string>)
    requires forall k | 0 <= k < |texts| :: texts[k] != [] && '#' !in texts[k] && Trimmed(texts[k])
    ensures CleanLines(Lines(texts)) == texts
  {
    if texts != [] {
      var init := texts[..|texts| - 1];
      var last := texts[|texts| - 1];
      var ls := Lines(texts);
      CleanWritten(init);
      assert ls[..|ls| - 1] == Lines(init);
      CleanWrittenLine(last);
      CleanStep(ls, init, last);
      LastSplit(texts);
    }
  }

  lemma CleanStep(ls: seq<string>, prev: seq<string>, last: string)
    requires ls != [] && CleanLines(ls[..|ls| - 1]) == prev
    requires last != [] && CleanLine(ls[|ls| - 1]) == last
    ensures CleanLines(ls) == prev + [last]
  {
  }

  /** A non-empty sequence is its front followed by its last element. */
  lemma LastSplit<T>(s: seq<T>)
    requires s != []
    ensures s == s[..|s| - 1] + [s[|s| - 1]]
  {
  }

  /** Writing a graph whose edge texts are data lines and cleaning the result
      gives the texts back. */
  lemma CleanWrittenGraph<E>(vertices: seq<int>, edges: seq<E>, edgeText: E -> string)
    requires forall k | 0 <= k < |edges| :: edgeText(edges[k]) != [] && '#' !in edgeText(edges[k]) && Trimmed(edgeText(edges[k]))
    ensures CleanLines(Lines(GraphTexts(vertices, edges, edgeText))) == GraphTexts(vertices, edges, edgeText)
  {
    GraphTextsAreDataLines(vertices, edges, edgeText);
    CleanWritten(GraphTexts(vertices, edges, edgeText));
  }

  /** Written graph texts read back as the graph when each edge's text reads
      back as the edge. */
  lemma ReadGraphTexts<E>(vertices: seq<int>, edges: seq<E>, edgeText: E -> string, edge: string -> Result<E>)
    requires forall k | 0 <= k < |edges| :: edge(edgeText(edges[k])) == Ok(edges[k])
    ensures ParseGraph(GraphTexts(vertices, edges, edgeText), edge) == Ok((vertices, edges))
  {
    ReadLaidOut(GraphTexts(vertices, edges, edgeText), vertices, edges, edge);
  }

  /** Lines laid out as GraphTexts lays them out, whatever their edge texts,
      read back as the graph when each edge line reads back as its edge. */
  lemma ReadLaidOut<E>(lines: seq<string>, vertices: seq<int>, edges: seq<E>, edge: string -> Result<E>)
    requires |lines| == 2 + |vertices| + |edges|
    requires lines[0] == IntToString(|vertices|) && lines[1] == IntToString(|edges|)
    requires forall k | 0 <= k < |vertices| :: lines[2 + k] == IntToString(vertices[k])
    requires forall k | 0 <= k < |edges| :: edge(lines[2 + |vertices| + k]) == Ok(edges[k])
    ensures ParseGraph(lines, edge) == Ok((vertices, edges))
  {
    HeaderReadBack(lines, |vertices|, |edges|);
    IntsReadBack(lines, 2, vertices);
    ParseEachEncoded(lines, 2 + |vertices|, edges, edge);
    ParseGraphOf(lines, edge, vertices, edges);
  }

  lemma HeaderReadBack(lines: seq<string>, nv: int, ne: int)
    requires |lines| >= 2 && lines[0] == IntToString(nv) && lines[1] == IntToString(ne)
    ensures ParseHeader(lines) == Ok((nv, ne))
  {
    ParseIntToString(nv);
    ParseIntToString(ne);
  }

  lemma GraphTextsAreDataLines<E>(vertices: seq<int>, edges: seq<E>, edgeText: E -> string)
    requires forall k | 0 <= k < |edges| :: edgeText(edges[k]) != [] && '#' !in edgeText(edges[k]) && Trimmed(edgeText(edges[k]))
    ensures var texts := GraphTexts(vertices, edges, edgeText);
      forall k | 0 <= k < |texts| :: texts[k] != [] && '#' !in texts[k] && Trimmed(texts[k])
  {
    var texts := GraphTexts(vertices, edges, edgeText);
    forall k | 0 <= k < |texts| ensures texts[k] != [] && '#' !in texts[k] && Trimmed(texts[k]) {
      if k == 0 {
        IntDataLine(|vertices|);
      } else if k == 1 {
        IntDataLine(|edges|);
      } else if k < 2 + |vertices| {
        assert texts[2 + (k - 2)] == IntToString(vertices[k - 2]);
        IntDataLine(vertices[k - 2]);
      } else {
        assert texts[2 + |vertices| + (k - 2 - |vertices|)] == edgeText(edges[k - 2 - |vertices|]);
      }
    }
  }

  lemma IntsReadBack(lines: seq<string>, from: nat, ns: seq<int>)
    requires from + |ns| <= |lines|
    requires forall k | 0 <= k < |ns| :: lines[from + k] == IntToString(ns[k])
    ensures ParseEach(lines, from, |ns|, ParseInt) == Ok(ns)
  {
    forall k | 0 <= k < |ns| ensures ParseInt(lines[from + k]) == Ok(ns[k]) {
      ParseIntToString(ns[k]);
    }
    ParseEachEncoded(lines, from, ns, ParseInt);
  }

  /** A formatted int is a data line. */
  lemma IntDataLine(n: int)
    ensures IntToString(n) != [] && '#' !in IntToString(n) && Trimmed(IntToString(n))
  {
    IntToStringShape(n);
  }

  /** Two or three formatted ints joined by spaces form a data line whose
      split() recovers the formatted ints. */
  lemma JoinedInts(ns: seq<int>)
    requires |ns| > 0
    ensures var ts := seq(|ns|, k requires 0 <= k < |ns| => IntToString(ns[k]));
      var s := JoinSpace(ts);
      s != [] && '#' !in s && Trimmed(s) && Split(s) == ts
  {
    var ts := seq(|ns|, k requires 0 <= k < |ns| => IntToString(ns[k]));
    forall k | 0 <= k < |ts| ensures ts[k] != [] && NoSpace(ts[k]) && '#' !in ts[k] {
      IntToStringShape(ns[k]);
    }
    SplitJoin(ts);
    JoinShape(ts);
  }

  lemma {:induction false} JoinShape(ts: seq<string>)
    requires |ts| > 0 && forall k | 0 <= k < |ts| :: ts[k] != [] && NoSpace(ts[k]) && '#' !in ts[k]
    ensures var s := JoinSpace(ts); s != [] && '#' !in s && Trimmed(s) && s[0] == ts[0][0]
  {
    if |ts| > 1 {
      JoinShape(ts[1..]);
      var s := JoinSpace(ts);
      var tail := JoinSpace(ts[1..]);
      assert s == ts[0] + " " + tail;
      assert s[|s| - 1] == tail[|tail| - 1];
      assert forall i | 0 <= i < |s| :: s[i] == '#' ==>
        (i < |ts[0]| && ts[0][i] == '#') || i == |ts[0]| || (i > |ts[0]| && tail[i - |ts[0]| - 1] == '#');
    }
  }
}
