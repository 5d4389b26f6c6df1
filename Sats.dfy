/** src/util/sats.py: boolean literals and clauses, their evaluation under an
    answer key, procedurally generated variable names, the random problem
    generator (its random picks supplied by the caller) and the text format of
    a problem file. */
module Sats {
  import opened Wrappers
  import opened Text
  import opened FileIO
  import opened LineParse

  /** A literal: the variable `name`, negated when `inverted`. */
  datatype BooleanVariable = BooleanVariable(name: string, inverted: bool)

  /** A clause: the OR of its literals. */
  type Expression = seq<BooleanVariable>

  /** A problem: the AND of its clauses. */
  type Problem = seq<Expression>

  /** An answer key: a truth value for some of the variable names. */
  type AnswerKey = map<string, bool>

  // ================================================================ literals

  /** `var.eval(value)`: the literal's value when its variable has `value`. */
  function Eval(v: BooleanVariable, value: bool): (r: bool)
    ensures r <==> value != v.inverted
  {
    value == !v.inverted
  }

  /** `str(var)`: the name, after a '!' when the literal is negated. */
  function Str(v: BooleanVariable): string {
    (if v.inverted then "!" else "") + v.name
  }

  /** `tok.lstrip("!")`. */
  function LStripBang(s: string): (r: string)
    ensures r == [] || r[0] != '!'
  {
    if s != [] && s[0] == '!' then LStripBang(s[1..]) else s
  }

  /** One token of an expression line read back as a literal. */
  function ParseToken(tok: string): BooleanVariable {
    BooleanVariable(LStripBang(tok), |tok| > 0 && tok[0] == '!')
  }

  /** A literal whose name does not start with '!' reads back from its text. */
  lemma TokenRoundTrip(v: BooleanVariable)
    requires v.name == [] || v.name[0] != '!'
    ensures ParseToken(Str(v)) == v
  {
    if v.inverted {
      assert Str(v)[0] == '!' && Str(v)[1..] == v.name;
      assert LStripBang(Str(v)) == LStripBang(v.name);
    } else {
      assert Str(v) == v.name;
    }
  }

  /** The text of a literal is nonempty and free of whitespace when its name is. */
  lemma StrShape(v: BooleanVariable)
    requires v.name != [] && NoSpace(v.name)
    ensures Str(v) != [] && NoSpace(Str(v))
  {
  }

  // ========================================================== variable names

  /** `_VALID_VAR_CHARS[d]` for a base-26 digit d. */
  function Digit(d: nat): char
    requires d < 26
  {
    ('a' as int + d) as char
  }

  /** The name `_variable_name(n)` builds: the base-26 digits of n, least
      significant first, the last digit being the one below 26. */
  function Name(n: nat): (s: string)
    ensures |s| > 0 && forall i | 0 <= i < |s| :: 'a' <= s[i] <= 'z'
    ensures (n < 26) == (|s| == 1)
  {
    [Digit(n % 26)] + (if n < 26 then [] else Name(n / 26))
  }

  /** Distinct numbers get distinct names. */
  lemma {:induction false} NameInjective(a: nat, b: nat)
    requires Name(a) == Name(b)
    ensures a == b
  {
    var sa, sb := Name(a), Name(b);
    assert Digit(a % 26) == sa[0] == sb[0] == Digit(b % 26);
    if a >= 26 {
      assert sa[1..] == Name(a / 26) && sb[1..] == Name(b / 26);
      NameInjective(a / 26, b / 26);
    }
  }

  /** `_variable_name(n)`: an AssertionError for negative n, otherwise the
      name built digit by digit in a loop that stops once n is below 26. */
  method VariableName(n: int) returns (r: Result<string>)
    ensures n < 0 <==> r == Err(AssertionError)
    ensures n >= 0 ==> r == Ok(Name(n))
  {
    if n < 0 {
      return Err(AssertionError);
    }
    var name := "";
    var m: nat := n;
    while true
      invariant name + Name(m) == Name(n)
      decreases m
    {
      var digit := [Digit(m % 26)];
      if m < 26 {
        assert Name(m) == digit;
        name := name + digit;
        break;
      }
      assert Name(m) == digit + Name(m / 26);
      name := name + digit;
      m := m / 26;
    }
    return Ok(name);
  }

  // ============================================================== evaluation

  /** Some literal whose variable has an answer evaluates to true; variables
      without an answer are ignored, so an empty clause is false. */
  predicate Satisfied(e: Expression, key: AnswerKey) {
    exists i | 0 <= i < |e| :: e[i].name in key && Eval(e[i], key[e[i].name])
  }

  /** Every clause is satisfied; an empty problem is. */
  predicate AllSatisfied(p: Problem, key: AnswerKey) {
    forall i | 0 <= i < |p| :: Satisfied(p[i], key)
  }

  /** `evaluate_expression`: OR the values of the literals with an answer. */
  method EvaluateExpression(e: Expression, key: AnswerKey) returns (r: bool)
    ensures r <==> Satisfied(e, key)
  {
    r := false;
    for i := 0 to |e|
      invariant r <==> exists j | 0 <= j < i :: e[j].name in key && Eval(e[j], key[e[j].name])
    {
      if e[i].name in key {
        r := r || Eval(e[i], key[e[i].name]);
      }
    }
  }

  /** `evaluate`: AND the values of all clauses. */
  method Evaluate(p: Problem, key: AnswerKey) returns (r: bool)
    ensures r <==> AllSatisfied(p, key)
  {
    r := true;
    for i := 0 to |p|
      invariant r <==> forall j | 0 <= j < i :: Satisfied(p[j], key)
    {
      var expResult := EvaluateExpression(p[i], key);
      r := r && expResult;
    }
  }

  // =============================================================== generator

  /** The random picks behind one clause: the variable indices drawn by
      `random.choices`, one `random.choice` of inversion per literal, and the
      literal `random.choice(expression)` forces to be true. */
  datatype ClausePicks = ClausePicks(vars: seq<nat>, inverted: seq<bool>, forced: nat)

  predicate ValidClausePicks(numVariables: int, len: int, cp: ClausePicks) {
    |cp.vars| == Times(len) && |cp.inverted| == Times(len) &&
    (numVariables > 0 ==> forall i | 0 <= i < |cp.vars| :: cp.vars[i] < numVariables) &&
    (len > 0 ==> cp.forced < len)
  }

  /** The clause the picks build: the drawn variables with their drawn
      inversions, except the forced literal, which is made true under the key. */
  function PickedClause(cp: ClausePicks, key: AnswerKey): Expression {
    seq(|cp.vars|, i requires 0 <= i < |cp.vars| =>
      var name := Name(cp.vars[i]);
      BooleanVariable(name,
        if i == cp.forced && name in key then !key[name]
        else i < |cp.inverted| && cp.inverted[i]))
  }

  /** The clauses the picks build under the key. */
  function PickedProblem(picks: seq<ClausePicks>, key: AnswerKey): (p: Problem)
    ensures |p| == |picks|
  {
    if picks == [] then []
    else PickedProblem(picks[..|picks| - 1], key) + [PickedClause(picks[|picks| - 1], key)]
  }

  /** Every picked clause holds its forced literal, which agrees with the key,
      so the key satisfies the picked problem. */
  lemma {:induction false} PickedProblemSatisfied(picks: seq<ClausePicks>, key: AnswerKey)
    requires forall e | 0 <= e < |picks| :: picks[e].forced < |picks[e].vars|
    requires forall e, i | 0 <= e < |picks| && 0 <= i < |picks[e].vars| :: Name(picks[e].vars[i]) in key
    ensures AllSatisfied(PickedProblem(picks, key), key)
  {
    if picks != [] {
      var last := picks[|picks| - 1];
      PickedProblemSatisfied(picks[..|picks| - 1], key);
      var c := PickedClause(last, key);
      assert c[last.forced].name in key && Eval(c[last.forced], key[c[last.forced].name]);
      var p := PickedProblem(picks, key);
      assert p[..|picks| - 1] == PickedProblem(picks[..|picks| - 1], key);
      forall e | 0 <= e < |p| ensures Satisfied(p[e], key) {
        if e < |picks| - 1 {
          assert p[e] == p[..|picks| - 1][e];
        }
      }
    }
  }

  /** The names `_variable_name(0)` .. `_variable_name(n - 1)`. */
  function Names(n: nat): (s: seq<string>)
    ensures |s| == n && forall i | 0 <= i < n :: s[i] == Name(i)
  {
    if n == 0 then [] else Names(n - 1) + [Name(n - 1)]
  }

  /** The list comprehension of variable names. */
  method VariableNames(n: nat) returns (variables: seq<string>)
    ensures variables == Names(n)
  {
    variables := [];
    for i := 0 to n
      invariant variables == Names(i)
    {
      var name := VariableName(i);
      variables := variables + [name.value];
    }
  }

  /** The answer key the picks give: the name of variable i mapped to keyPicks[i]. */
  function KeyMap(keyPicks: seq<bool>): AnswerKey {
    if keyPicks == [] then map[]
    else KeyMap(keyPicks[..|keyPicks| - 1])[Name(|keyPicks| - 1) := keyPicks[|keyPicks| - 1]]
  }

  /** The key holds exactly the names of variables 0 .. |keyPicks| - 1, each
      with its own pick. */
  lemma {:induction false} KeyMapSpec(keyPicks: seq<bool>, n: nat)
    ensures Name(n) in KeyMap(keyPicks) <==> n < |keyPicks|
    ensures n < |keyPicks| ==> KeyMap(keyPicks)[Name(n)] == keyPicks[n]
  {
    if keyPicks != [] {
      var m := |keyPicks| - 1;
      KeyMapSpec(keyPicks[..m], n);
      if Name(n) == Name(m) {
        NameInjective(n, m);
      }
    }
  }

  /** Every key of KeyMap is a variable name. */
  lemma {:induction false} KeyMapNames(keyPicks: seq<bool>, x: string)
    requires x in KeyMap(keyPicks)
    ensures exists n | 0 <= n < |keyPicks| :: x == Name(n)
  {
    var m := |keyPicks| - 1;
    if x != Name(m) {
      KeyMapNames(keyPicks[..m], x);
    }
  }

  /** The dict comprehension building the answer key, one name at a time. */
  method AnswerKeyOf(variables: seq<string>, keyPicks: seq<bool>) returns (key: AnswerKey)
    requires variables == Names(|keyPicks|)
    ensures key == KeyMap(keyPicks)
  {
    key := map[];
    for i := 0 to |keyPicks|
      invariant key == KeyMap(keyPicks[..i])
    {
      assert keyPicks[..i + 1][..i] == keyPicks[..i];
      key := key[variables[i] := keyPicks[i]];
    }
    assert keyPicks[..|keyPicks|] == keyPicks;
  }

  /** The clause loop: each clause drawn from its variables, then the forced
      literal's inversion set to agree with the key. */
  method BuildProblem(variables: seq<string>, key: AnswerKey, picks: seq<ClausePicks>)
    returns (problem: Problem)
    requires forall e | 0 <= e < |picks| :: picks[e].forced < |picks[e].vars| == |picks[e].inverted|
    requires forall e, i | 0 <= e < |picks| && 0 <= i < |picks[e].vars| ::
      picks[e].vars[i] < |variables| && variables[picks[e].vars[i]] == Name(picks[e].vars[i]) &&
      Name(picks[e].vars[i]) in key
    ensures problem == PickedProblem(picks, key)
  {
    problem := [];
    for e := 0 to |picks|
      invariant problem == PickedProblem(picks[..e], key)
    {
      var cp := picks[e];
      var expression := seq(|cp.vars|, i requires 0 <= i < |cp.vars| =>
        BooleanVariable(variables[cp.vars[i]], cp.inverted[i]));
      var v := expression[cp.forced];
      expression := expression[cp.forced := v.(inverted := !key[v.name])];
      assert expression == PickedClause(cp, key);
      assert picks[..e + 1][..e] == picks[..e];
      problem := problem + [expression];
    }
    assert picks[..|picks|] == picks;
  }

  /** `generate_random_sat` with its random picks given: the answer key gives
      variable i the value keyPicks[i]; every clause is built from its picks
      with one literal forced to agree with the key, so the key satisfies the
      whole problem. Drawing a clause fails with IndexError when there are no
      variables or the clause length is not positive. */
  method GenerateRandomSat(numExpressions: int, numVariables: int, expressionLen: int,
                           keyPicks: seq<bool>, picks: seq<ClausePicks>)
    returns (r: Result<(Problem, AnswerKey)>)
    requires |keyPicks| == Times(numVariables) && |picks| == Times(numExpressions)
    requires forall e | 0 <= e < |picks| :: ValidClausePicks(numVariables, expressionLen, picks[e])
    ensures r.Err? <==> |picks| > 0 && (expressionLen <= 0 || numVariables <= 0)
    ensures r.Err? ==> r.error == IndexError
    ensures r.Ok? ==> r.value == (PickedProblem(picks, KeyMap(keyPicks)), KeyMap(keyPicks))
    ensures r.Ok? ==> AllSatisfied(r.value.0, r.value.1)
  {
    var variables := VariableNames(|keyPicks|);
    var key := AnswerKeyOf(variables, keyPicks);
    if |picks| > 0 && (expressionLen <= 0 || numVariables <= 0) {
      // random.choices from an empty list, or random.choice of an empty clause
      return Err(IndexError);
    }
    forall e, i | 0 <= e < |picks| && 0 <= i < |picks[e].vars|
      ensures picks[e].vars[i] < |variables| && Name(picks[e].vars[i]) in key
    {
      KeyMapSpec(keyPicks, picks[e].vars[i]);
    }
    var problem := BuildProblem(variables, key, picks);
    PickedProblemSatisfied(picks, key);
    return Ok((problem, key));
  }

  // ============================================================= file format

  /** The literals of one expression line, one per token. */
  function ParseExpression(line: string): (r: Result<Expression>)
    ensures r.Ok? && |r.value| == |Split(line)|
  {
    Ok(ParseTokens(Split(line)))
  }

  /** One literal per token, in order. */
  function ParseTokens(toks: seq<string>): (e: Expression)
    ensures |e| == |toks| && forall i | 0 <= i < |toks| :: e[i] == ParseToken(toks[i])
  {
    seq(|toks|, i requires 0 <= i < |toks| => ParseToken(toks[i]))
  }

  /** `bool(s)` of a string: True for every nonempty string. */
  function PyBool(s: string): (b: bool)
    ensures b <==> |s| > 0
  {
    |s| > 0
  }

  /** One answer line as written in the source: the name, then `bool` of the
      second token, which is True for "False" as much as for "True"; fewer
      than two tokens is an IndexError. */
  function ParseAnswerAsWritten(line: string): (r: Result<(string, bool)>)
    ensures r.Err? <==> |Split(line)| < 2
    ensures r.Err? ==> r.error == IndexError
  {
    var toks := Split(line);
    if |toks| < 2 then Err(IndexError) else Ok((toks[0], PyBool(toks[1])))
  }

  /** The text write_to_file gives a truth value, as `str(bool)` does. */
  function BoolText(b: bool): string {
    if b then "True" else "False"
  }

  /** The corrected reading of a truth value: "True" (or "true", as the
      format comment spells it) is true, anything else false. */
  function ParseBool(s: string): (b: bool)
    ensures b <==> s == "True" || s == "true"
  {
    s == "True" || s == "true"
  }

  /** One answer line read with the corrected truth value. */
  function ParseAnswer(line: string): (r: Result<(string, bool)>)
    ensures r.Err? <==> |Split(line)| < 2
    ensures r.Err? ==> r.error == IndexError
    ensures r.Ok? ==> r.value == (Split(line)[0], ParseBool(Split(line)[1]))
  {
    var toks := Split(line);
    if |toks| < 2 then Err(IndexError) else Ok((toks[0], ParseBool(toks[1])))
  }

  /** The answer key after assigning each pair in order (a later pair for the
      same name wins). */
  function KeyFrom(pairs: seq<(string, bool)>): AnswerKey {
    if pairs == [] then map[] else KeyFrom(pairs[..|pairs| - 1])[pairs[|pairs| - 1].0 := pairs[|pairs| - 1].1]
  }

  /** The answer key holds exactly the names read, each with its last value. */
  lemma {:induction false} KeyFromSpec(pairs: seq<(string, bool)>)
    ensures forall x :: x in KeyFrom(pairs) <==> exists i | 0 <= i < |pairs| :: pairs[i].0 == x
    ensures forall i | 0 <= i < |pairs| && (forall j | i < j < |pairs| :: pairs[j].0 != pairs[i].0) ::
      KeyFrom(pairs)[pairs[i].0] == pairs[i].1
  {
    if pairs != [] {
      var init := pairs[..|pairs| - 1];
      KeyFromSpec(init);
      forall x ensures x in KeyFrom(pairs) <==> exists i | 0 <= i < |pairs| :: pairs[i].0 == x {
        if x in KeyFrom(init) {
          var i :| 0 <= i < |init| && init[i].0 == x;
          assert pairs[i].0 == x;
        }
        if exists i | 0 <= i < |pairs| :: pairs[i].0 == x {
          var i :| 0 <= i < |pairs| && pairs[i].0 == x;
          if i < |init| {
            assert init[i].0 == x;
          }
        }
      }
    }
  }

  /** The problem file after cleaning: the clause count, the variable count,
      one line per clause, then one line per answer. */
  function ParseSat(lines: seq<string>): Result<(Problem, AnswerKey)> {
    var counts :- ParseHeader(lines);
    var problem :- ParseEach(lines, 2, Times(counts.0), ParseExpression);
    var pairs :- ParseEach(lines, 2 + Times(counts.0), Times(counts.1), ParseAnswer);
    Ok((problem, KeyFrom(pairs)))
  }

  /** `read_from_file` over the lines of the file, with the corrected reading
      of truth values: the header, the clause loop and the answer loop, each
      line read at a running index. */
  method ReadFromFile(raw: seq<string>) returns (r: Result<(Problem, AnswerKey)>)
    ensures r == ParseSat(CleanLines(raw))
  {
    var lines := ReadDataLines(raw);
    var header := ParseHeader(lines);
    if header.Err? {
      return Err(header.error);
    }
    var nExpressions, nVariables := header.value.0, header.value.1;
    var problem := ReadEach(lines, 2, Times(nExpressions), ParseExpression);
    if problem.Err? {
      return Err(problem.error);
    }
    var pairs := ReadEach(lines, 2 + Times(nExpressions), Times(nVariables), ParseAnswer);
    if pairs.Err? {
      return Err(pairs.error);
    }
    var answerKey := AnswerKeyFrom(pairs.value);
    return Ok((problem.value, answerKey));
  }

  /** The answer loop's dict assignments `answer_key[name] = value`. */
  method AnswerKeyFrom(pairs: seq<(string, bool)>) returns (answerKey: AnswerKey)
    ensures answerKey == KeyFrom(pairs)
  {
    answerKey := map[];
    for i := 0 to |pairs|
      invariant answerKey == KeyFrom(pairs[..i])
    {
      assert pairs[..i + 1][..i] == pairs[..i];
      answerKey := answerKey[pairs[i].0 := pairs[i].1];
    }
    assert pairs[..|pairs|] == pairs;
  }

  /** A successful read has as many clauses as the header says, each with
      one literal per token of its line. */
  lemma ParseSatShape(lines: seq<string>)
    requires ParseSat(lines).Ok?
    ensures ParseHeader(lines).Ok?
    ensures var p := ParseSat(lines).value.0;
      |p| == Times(ParseHeader(lines).value.0) && 2 + |p| <= |lines| &&
      forall e | 0 <= e < |p| :: |p[e]| == |Split(lines[2 + e])| &&
        forall i | 0 <= i < |p[e]| :: p[e][i] == ParseToken(Split(lines[2 + e])[i])
  {
    var counts := ParseHeader(lines).value;
    ParseEachOk(lines, 2, Times(counts.0), ParseExpression);
  }

  /** write_to_file's line for a clause: the literal texts joined by spaces. */
  function ExpressionText(e: Expression): string {
    JoinSpace(Texts(e))
  }

  /** The texts of the literals of a clause. */
  function Texts(e: Expression): (ts: seq<string>)
    ensures |ts| == |e| && forall i | 0 <= i < |e| :: ts[i] == Str(e[i])
  {
    seq(|e|, i requires 0 <= i < |e| => Str(e[i]))
  }

  /** write_to_file's line for an answer: `f"{var} {answer}"`. */
  function AnswerText(name: string, value: bool): string {
    name + " " + BoolText(value)
  }

  /** A name fit for the file: a nonempty, whitespace-free token that does
      not start with '!'. */
  predicate PlainName(name: string) {
    name != [] && NoSpace(name) && name[0] != '!'
  }

  /** A written clause line reads back as the same clause. */
  lemma ExpressionRoundTrip(e: Expression)
    requires forall i | 0 <= i < |e| :: PlainName(e[i].name)
    ensures ParseExpression(ExpressionText(e)) == Ok(e)
  {
    var ts := Texts(e);
    forall i | 0 <= i < |ts| ensures ts[i] != [] && NoSpace(ts[i]) {
      StrShape(e[i]);
    }
    SplitJoin(ts);
    forall i | 0 <= i < |e| ensures ParseToken(ts[i]) == e[i] {
      TokenRoundTrip(e[i]);
    }
    var r := ParseExpression(ExpressionText(e));
    assert Split(ExpressionText(e)) == ts;
    assert |r.value| == |e| && forall i | 0 <= i < |e| :: r.value[i] == e[i];
    assert r.value == e;
  }

  /** The corrected reading gives back the written truth value. */
  lemma AnswerRoundTrip(name: string, value: bool)
    requires PlainName(name)
    ensures ParseAnswer(AnswerText(name, value)) == Ok((name, value))
  {
    var ts := [name, BoolText(value)];
    assert JoinSpace(ts[1..]) == BoolText(value);
    assert JoinSpace(ts) == AnswerText(name, value);
    SplitJoin(ts);
  }

  /** As written, a variable whose answer is False reads back as True. */
  lemma AnswerAsWrittenFlips()
    ensures ParseAnswerAsWritten(AnswerText("a", false)) == Ok(("a", true))
  {
    var ts := ["a", "False"];
    assert JoinSpace(ts[1..]) == "False";
    assert JoinSpace(ts) == AnswerText("a", false);
    SplitJoin(ts);
  }

  /** The texts write_to_file writes: the two counts, one line per clause,
      then one "name value" line per answer. `answers` is the answer key's
      items in insertion order. */
  function SatTexts(problem: Problem, answers: seq<(string, bool)>): (texts: seq<string>)
    ensures |texts| == 2 + |problem| + |answers|
    ensures texts[0] == IntToString(|problem|) && texts[1] == IntToString(|answers|)
    ensures forall e | 0 <= e < |problem| :: texts[2 + e] == ExpressionText(problem[e])
    ensures forall a | 0 <= a < |answers| :: texts[2 + |problem| + a] == AnswerText(answers[a].0, answers[a].1)
  {
    [IntToString(|problem|), IntToString(|answers|)] +
    seq(|problem|, e requires 0 <= e < |problem| => ExpressionText(problem[e])) +
    seq(|answers|, a requires 0 <= a < |answers| => AnswerText(answers[a].0, answers[a].1))
  }

  /** write_to_file's lines, each ended by a newline. */
  function WriteToFile(problem: Problem, answers: seq<(string, bool)>): (lines: seq<string>)
    ensures |lines| == 2 + |problem| + |answers|
  {
    Lines(SatTexts(problem, answers))
  }

  /** A name the file format carries through: a plain name without a
      comment mark. */
  predicate Writable(name: string) {
    PlainName(name) && '#' !in name
  }

  /** A clause whose line reads back: not empty, and every name writable. */
  predicate WritableClause(e: Expression) {
    e != [] && forall i | 0 <= i < |e| :: Writable(e[i].name)
  }

  /** A writable clause's line is a data line. */
  lemma ExpressionDataLine(e: Expression)
    requires WritableClause(e)
    ensures var s := ExpressionText(e); s != [] && '#' !in s && Trimmed(s)
  {
    var ts := Texts(e);
    forall i | 0 <= i < |ts| ensures ts[i] != [] && NoSpace(ts[i]) && '#' !in ts[i] {
      StrShape(e[i]);
    }
    JoinShape(ts);
  }

  /** An answer line is a data line. */
  lemma AnswerDataLine(name: string, value: bool)
    requires Writable(name)
    ensures var s := AnswerText(name, value); s != [] && '#' !in s && Trimmed(s)
  {
    var ts := [name, BoolText(value)];
    assert JoinSpace(ts[1..]) == BoolText(value);
    assert JoinSpace(ts) == AnswerText(name, value);
    JoinShape(ts);
  }

  /** Reading back a written file, with the corrected reading of truth
      values, gives the same clauses and the same answer key, provided no
      clause is empty (an empty clause writes a blank line, which the reader
      drops) and no name holds whitespace, '#' or a leading '!'. */
  lemma RoundTrip(problem: Problem, answers: seq<(string, bool)>)
    requires forall e | 0 <= e < |problem| :: WritableClause(problem[e])
    requires forall a | 0 <= a < |answers| :: Writable(answers[a].0)
    ensures ParseSat(CleanLines(WriteToFile(problem, answers))) == Ok((problem, KeyFrom(answers)))
  {
    WrittenSatTexts(problem, answers);
    ReadSatTexts(problem, answers);
  }

  /** Cleaning the written lines leaves the written texts. */
  lemma WrittenSatTexts(problem: Problem, answers: seq<(string, bool)>)
    requires forall e | 0 <= e < |problem| :: WritableClause(problem[e])
    requires forall a | 0 <= a < |answers| :: Writable(answers[a].0)
    ensures CleanLines(WriteToFile(problem, answers)) == SatTexts(problem, answers)
  {
    var texts := SatTexts(problem, answers);
    forall k | 0 <= k < |texts| ensures texts[k] != [] && '#' !in texts[k] && Trimmed(texts[k]) {
      if k < 2 {
        IntDataLine(if k == 0 then |problem| else |answers|);
      } else if k < 2 + |problem| {
        ExpressionDataLine(problem[k - 2]);
      } else {
        AnswerDataLine(answers[k - 2 - |problem|].0, answers[k - 2 - |problem|].1);
      }
    }
    CleanWritten(texts);
  }

  /** The written texts parse back to the clauses and the answer key. */
  lemma ReadSatTexts(problem: Problem, answers: seq<(string, bool)>)
    requires forall e | 0 <= e < |problem| :: WritableClause(problem[e])
    requires forall a | 0 <= a < |answers| :: Writable(answers[a].0)
    ensures ParseSat(SatTexts(problem, answers)) == Ok((problem, KeyFrom(answers)))
  {
    var texts := SatTexts(problem, answers);
    HeaderReadBack(texts, |problem|, |answers|);
    ReadLaidOut(texts, problem, answers);
  }

  /** Lines with a readable header, followed by the clauses and answers laid
      out as the writer lays them out, read back. */
  lemma ReadLaidOut(texts: seq<string>, problem: Problem, answers: seq<(string, bool)>)
    requires forall e | 0 <= e < |problem| :: WritableClause(problem[e])
    requires forall a | 0 <= a < |answers| :: Writable(answers[a].0)
    requires ParseHeader(texts) == Ok((|problem|, |answers|))
    requires ClausesAt(texts, 2, problem) && AnswersAt(texts, 2 + |problem|, answers)
    ensures ParseSat(texts) == Ok((problem, KeyFrom(answers)))
  {
    ClausesReadBack(texts, 2, problem);
    AnswersReadBack(texts, 2 + |problem|, answers);
    ParseSatOf(texts, problem, answers);
  }

  /** From line `from` on, the lines hold the texts of the clauses. */
  predicate ClausesAt(texts: seq<string>, from: nat, problem: Problem) {
    from + |problem| <= |texts| &&
    forall e | 0 <= e < |problem| :: texts[from + e] == ExpressionText(problem[e])
  }

  /** From line `from` on, the lines hold the texts of the answers. */
  predicate AnswersAt(texts: seq<string>, from: nat, answers: seq<(string, bool)>) {
    from + |answers| <= |texts| &&
    forall a | 0 <= a < |answers| :: texts[from + a] == AnswerText(answers[a].0, answers[a].1)
  }

  /** Lines holding the texts of writable clauses from line `from` on read
      back as those clauses. */
  lemma ClausesReadBack(texts: seq<string>, from: nat, problem: Problem)
    requires ClausesAt(texts, from, problem)
    requires forall e | 0 <= e < |problem| :: WritableClause(problem[e])
    ensures ParseEach(texts, from, |problem|, ParseExpression) == Ok(problem)
  {
    forall e | 0 <= e < |problem| ensures ParseExpression(texts[from + e]) == Ok(problem[e]) {
      ExpressionRoundTrip(problem[e]);
    }
    ParseEachEncoded(texts, from, problem, ParseExpression);
  }

  /** Lines holding the texts of answers with writable names from line
      `from` on read back as those answers. */
  lemma AnswersReadBack(texts: seq<string>, from: nat, answers: seq<(string, bool)>)
    requires AnswersAt(texts, from, answers)
    requires forall a | 0 <= a < |answers| :: Writable(answers[a].0)
    ensures ParseEach(texts, from, |answers|, ParseAnswer) == Ok(answers)
  {
    forall a | 0 <= a < |answers| ensures ParseAnswer(texts[from + a]) == Ok(answers[a]) {
      AnswerRoundTrip(answers[a].0, answers[a].1);
    }
    ParseEachEncoded(texts, from, answers, ParseAnswer);
  }

  /** Lines whose header and sections read as given parse to those clauses
      and the key of those answers. */
  lemma ParseSatOf(lines: seq<string>, problem: Problem, answers: seq<(string, bool)>)
    requires ParseHeader(lines) == Ok((|problem|, |answers|))
    requires ParseEach(lines, 2, |problem|, ParseExpression) == Ok(problem)
    requires ParseEach(lines, 2 + |problem|, |answers|, ParseAnswer) == Ok(answers)
    ensures ParseSat(lines) == Ok((problem, KeyFrom(answers)))
  {
    assert Times(|problem|) == |problem| && Times(|answers|) == |answers|;
  }
}
