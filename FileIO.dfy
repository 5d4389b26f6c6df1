/** src/util/fileio.py: the data lines of a text file, with comments cut at
    the first '#', surrounding whitespace stripped and blank lines dropped.
    The file is given as the sequence of lines `readlines()` would return. */
module FileIO {
  import opened Text

  /** `line[:line.find("#")]` when the line holds a '#', otherwise the line. */
  function CutComment(line: string): (r: string)
    ensures r <= line && '#' !in r
    ensures '#' in line ==> line[|r|] == '#'
  {
    if line == [] || line[0] == '#' then []
    else
      var r := [line[0]] + CutComment(line[1..]);
      assert line == [line[0]] + line[1..];
      r
  }

  lemma {:induction false} CutCommentFind(line: string)
    ensures '#' in line ==> CutComment(line) == line[..Find(line, '#')]
    ensures '#' !in line ==> CutComment(line) == line
  {
    if line != [] && line[0] != '#' {
      CutCommentFind(line[1..]);
      assert line == [line[0]] + line[1..];
    }
  }

  /** What one raw line contributes before the emptiness test. */
  function CleanLine(line: string): string {
    Strip(CutComment(line))
  }

  /** A line as read_data_lines returns it: nonempty, no '#', trimmed. */
  predicate IsDataLine(line: string) {
    line != [] && '#' !in line && Trimmed(line)
  }

  /** The data lines of `raw`, in order. */
  function CleanLines(raw: seq<string>): seq<string> {
    if raw == [] then []
    else
      var c := CleanLine(raw[|raw| - 1]);
      CleanLines(raw[..|raw| - 1]) + (if c == [] then [] else [c])
  }

  lemma CleanLineIsDataLine(line: string)
    requires CleanLine(line) != []
    ensures IsDataLine(CleanLine(line))
  {
    var i, j := StripBounds(CutComment(line));
    assert forall k | i <= k < j :: CleanLine(line)[k - i] == CutComment(line)[k];
  }

  /** A line that is already a data line passes through unchanged. */
  lemma DataLineUnchanged(line: string)
    requires IsDataLine(line)
    ensures CleanLine(line) == line
  {
    CutCommentFind(line);
    StripTrimmed(line);
  }

  /** Cleaning works line by line: the result for a concatenation is the
      concatenation of the results, so the order of lines is kept. */
  lemma {:induction false} CleanLinesAppend(a: seq<string>, b: seq<string>)
    ensures CleanLines(a + b) == CleanLines(a) + CleanLines(b)
    decreases |b|
  {
    if b == [] {
      assert a + b == a;
    } else {
      var b' := b[..|b| - 1];
      assert (a + b)[..|a + b| - 1] == a + b';
      CleanLinesAppend(a, b');
    }
  }

  /** Every output line is a data line. */
  lemma {:induction false} CleanLinesAreDataLines(raw: seq<string>)
    ensures forall i | 0 <= i < |CleanLines(raw)| :: IsDataLine(CleanLines(raw)[i])
  {
    if raw != [] {
      CleanLinesAreDataLines(raw[..|raw| - 1]);
      if CleanLine(raw[|raw| - 1]) != [] {
        CleanLineIsDataLine(raw[|raw| - 1]);
      }
    }
  }

  /** Data lines are kept as they are: cleaning is idempotent. */
  lemma {:induction false} CleanDataLines(lines: seq<string>)
    requires forall i | 0 <= i < |lines| :: IsDataLine(lines[i])
    ensures CleanLines(lines) == lines
  {
    if lines != [] {
      CleanDataLines(lines[..|lines| - 1]);
      DataLineUnchanged(lines[|lines| - 1]);
    }
  }

  /** read_data_lines over the lines of the file. */
  method ReadDataLines(raw: seq<string>) returns (lines: seq<string>)
    ensures lines == CleanLines(raw)
    ensures forall i | 0 <= i < |lines| :: IsDataLine(lines[i])
  {
    lines := [];
    var k := 0;
    while k < |raw|
      invariant 0 <= k <= |raw|
      invariant lines == CleanLines(raw[..k])
    {
      var line := raw[k];
      if '#' in line {
        line := line[..Find(line, '#')];
      }
      line := Strip(line);
      CutCommentFind(raw[k]);
      assert raw[..k + 1][..k] == raw[..k];
      if |line| != 0 {
        lines := lines + [line];
      }
      k := k + 1;
    }
    assert raw[..|raw|] == raw;
    CleanLinesAreDataLines(raw);
  }
}
