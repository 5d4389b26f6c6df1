/** src/algos/three_sat2.py: the incremental solver after pure-literal
    elimination. A variable that occurs in only one polarity can be set to
    make all its literals true, so every clause holding such a literal is
    dropped and the variable goes into a starting key; the answer-key loop
    then runs on the remaining clauses from that key. */
module ThreeSat2 {
  import opened Wrappers
  import opened Sats
  import opened ThreeSat

  /** The record `[normal, inverted]` of a name: whether it occurs as a plain
      literal, and whether it occurs negated. */
  type Seen = (bool, bool)

  type Polarity = map<string, Seen>

  // =============================================================== polarity

  /** The literals of the problem, clause after clause. */
  function Flatten(ps: Problem): seq<BooleanVariable> {
    if ps == [] then [] else Flatten(ps[..|ps| - 1]) + ps[|ps| - 1]
  }

  /** A literal is a literal of the flattened problem iff some clause holds it. */
  lemma {:induction false} FlattenMember(ps: Problem, v: BooleanVariable, j: nat)
    requires j < |ps| && v in ps[j]
    ensures v in Flatten(ps)
  {
    if j < |ps| - 1 {
      FlattenMember(ps[..|ps| - 1], v, j);
    }
  }

  /** The polarity map the literals build one at a time, as the first loop does. */
  function PolarityOf(lits: seq<BooleanVariable>): Polarity {
    if lits == [] then map[]
    else
      var m := PolarityOf(lits[..|lits| - 1]);
      var v := lits[|lits| - 1];
      var seen := if v.name in m then m[v.name] else (false, false);
      m[v.name := if v.inverted then (seen.0, true) else (true, seen.1)]
  }

  /** A name has a record iff it occurs, and its record says in which
      polarities it occurs. */
  lemma {:induction false} PolarityOfSpec(lits: seq<BooleanVariable>, x: string)
    ensures x in PolarityOf(lits) <==>
      BooleanVariable(x, false) in lits || BooleanVariable(x, true) in lits
    ensures x in PolarityOf(lits) ==>
      PolarityOf(lits)[x] == (BooleanVariable(x, false) in lits, BooleanVariable(x, true) in lits)
  {
    if lits != [] {
      var init := lits[..|lits| - 1];
      PolarityOfSpec(init, x);
      assert lits == init + [lits[|lits| - 1]];
    }
  }

  /** The literal's own polarity is recorded for its name. */
  predicate Recorded(vars: Polarity, v: BooleanVariable) {
    v.name in vars && (if v.inverted then vars[v.name].1 else vars[v.name].0)
  }

  /** The first loop, `vars.get(var.name, [False, False])` then one flag set per literal. */
  method Polarities(ps: Problem) returns (vars: Polarity)
    ensures vars == PolarityOf(Flatten(ps))
    ensures forall x :: x in vars <==>
      BooleanVariable(x, false) in Flatten(ps) || BooleanVariable(x, true) in Flatten(ps)
    ensures forall x | x in vars ::
      vars[x] == (BooleanVariable(x, false) in Flatten(ps), BooleanVariable(x, true) in Flatten(ps))
    ensures forall j, i | 0 <= j < |ps| && 0 <= i < |ps[j]| :: Recorded(vars, ps[j][i])
  {
    vars := map[];
    for j := 0 to |ps|
      invariant vars == PolarityOf(Flatten(ps[..j]))
    {
      ghost var before := Flatten(ps[..j]);
      assert before + ps[j][..0] == before;
      for i := 0 to |ps[j]|
        invariant vars == PolarityOf(before + ps[j][..i])
      {
        var v := ps[j][i];
        PolaritySnoc(before, ps[j], i);
        var seen := if v.name in vars then vars[v.name] else (false, false);
        if v.inverted {
          seen := (seen.0, true);
        } else {
          seen := (true, seen.1);
        }
        vars := vars[v.name := seen];
      }
      FlattenSnoc(ps, j);
    }
    assert ps[..|ps|] == ps;
    PolarityMeaning(ps);
  }

  /** One more literal of clause c counted after `before`. */
  lemma PolaritySnoc(before: seq<BooleanVariable>, c: seq<BooleanVariable>, i: nat)
    requires i < |c|
    ensures var m, v := PolarityOf(before + c[..i]), c[i];
      var seen := if v.name in m then m[v.name] else (false, false);
      PolarityOf(before + c[..i + 1]) == m[v.name := if v.inverted then (seen.0, true) else (true, seen.1)]
  {
    var done := before + c[..i];
    assert before + c[..i + 1] == done + [c[i]];
    assert (done + [c[i]])[..|done|] == done;
  }

  /** The literals of the first j + 1 clauses: those of the first j, then
      clause j's. */
  lemma FlattenSnoc(ps: Problem, j: nat)
    requires j < |ps|
    ensures Flatten(ps[..j]) + ps[j][..|ps[j]|] == Flatten(ps[..j + 1])
  {
    assert ps[..j + 1][..j] == ps[..j];
    assert ps[j][..|ps[j]|] == ps[j];
  }

  /** The meaning of the polarity map of a problem. */
  lemma PolarityMeaning(ps: Problem)
    ensures var vars := PolarityOf(Flatten(ps));
      (forall x :: x in vars <==>
         BooleanVariable(x, false) in Flatten(ps) || BooleanVariable(x, true) in Flatten(ps)) &&
      (forall x | x in vars ::
         vars[x] == (BooleanVariable(x, false) in Flatten(ps), BooleanVariable(x, true) in Flatten(ps))) &&
      (forall j, i | 0 <= j < |ps| && 0 <= i < |ps[j]| :: Recorded(vars, ps[j][i]))
  {
    var vars := PolarityOf(Flatten(ps));
    forall x {
      PolarityOfSpec(Flatten(ps), x);
    }
    forall j, i | 0 <= j < |ps| && 0 <= i < |ps[j]| ensures Recorded(vars, ps[j][i]) {
      FlattenMember(ps, ps[j][i], j);
      PolarityOfSpec(Flatten(ps), ps[j][i].name);
    }
  }

  // ================================================================ pruning

  /** `vars[name].count(True) < 2`: the name occurs in one polarity only. */
  predicate Pure(vars: Polarity, x: string) {
    x in vars && !(vars[x].0 && vars[x].1)
  }

  /** The first literal from index i on whose name is pure. */
  function FirstPureFrom(vars: Polarity, e: Expression, i: nat): (r: Option<nat>)
    requires i <= |e|
    ensures r.Some? ==> i <= r.value < |e| && Pure(vars, e[r.value].name)
    ensures r.Some? ==> forall k | i <= k < r.value :: !Pure(vars, e[k].name)
    ensures r.None? ==> forall k | i <= k < |e| :: !Pure(vars, e[k].name)
    decreases |e| - i
  {
    if i == |e| then None
    else if Pure(vars, e[i].name) then Some(i)
    else FirstPureFrom(vars, e, i + 1)
  }

  function FirstPure(vars: Polarity, e: Expression): Option<nat> {
    FirstPureFrom(vars, e, 0)
  }

  /** The independence check: stops at the first literal whose name is pure. */
  method FindIndependent(vars: Polarity, e: Expression) returns (idx: Option<nat>)
    requires forall i | 0 <= i < |e| :: e[i].name in vars
    ensures idx == FirstPure(vars, e)
  {
    idx := None;
    for i := 0 to |e|
      invariant idx == None
      invariant FirstPureFrom(vars, e, 0) == FirstPureFrom(vars, e, i)
    {
      var seen := vars[e[i].name];
      if !(seen.0 && seen.1) {
        idx := Some(i);
        break;
      }
    }
  }

  /** The clauses with no pure literal, in their original order. */
  function Kept(vars: Polarity, ps: Problem): Problem {
    if ps == [] then []
    else
      var e := ps[|ps| - 1];
      Kept(vars, ps[..|ps| - 1]) + (if FirstPure(vars, e).None? then [e] else [])
  }

  /** For each dropped clause, its first pure name set to its plain-polarity flag. */
  function PrunedKey(vars: Polarity, ps: Problem): AnswerKey {
    if ps == [] then map[]
    else
      var e := ps[|ps| - 1];
      var key := PrunedKey(vars, ps[..|ps| - 1]);
      match FirstPure(vars, e)
      case None => key
      case Some(i) => key[e[i].name := vars[e[i].name].0]
  }

  /** The kept clauses are clauses of the problem without a pure literal, and
      every clause of the problem without one is kept. */
  lemma {:induction false} KeptSpec(vars: Polarity, ps: Problem)
    ensures forall e | e in Kept(vars, ps) :: e in ps && FirstPure(vars, e).None?
    ensures forall j | 0 <= j < |ps| && FirstPure(vars, ps[j]).None? :: ps[j] in Kept(vars, ps)
  {
    if ps != [] {
      var init := ps[..|ps| - 1];
      KeptSpec(vars, init);
      forall j | 0 <= j < |ps| && FirstPure(vars, ps[j]).None? ensures ps[j] in Kept(vars, ps) {
        if j < |ps| - 1 {
          assert ps[j] == init[j];
        }
      }
    }
  }

  /** Every name of the pruned key is pure and holds its plain-polarity flag,
      and every dropped clause has its first pure name in the key. */
  lemma {:induction false} PrunedKeySpec(vars: Polarity, ps: Problem)
    ensures forall x | x in PrunedKey(vars, ps) :: Pure(vars, x) && PrunedKey(vars, ps)[x] == vars[x].0
    ensures forall j | 0 <= j < |ps| && FirstPure(vars, ps[j]).Some? ::
      ps[j][FirstPure(vars, ps[j]).value].name in PrunedKey(vars, ps)
  {
    if ps != [] {
      var init := ps[..|ps| - 1];
      PrunedKeySpec(vars, init);
      forall j | 0 <= j < |ps| && FirstPure(vars, ps[j]).Some?
        ensures ps[j][FirstPure(vars, ps[j]).value].name in PrunedKey(vars, ps)
      {
        if j < |ps| - 1 {
          assert ps[j] == init[j];
        }
      }
    }
  }

  /** A recorded literal of a pure name is made true by the name's plain-polarity flag. */
  lemma PureLiteralTrue(vars: Polarity, v: BooleanVariable)
    requires Recorded(vars, v) && Pure(vars, v.name)
    ensures Eval(v, vars[v.name].0)
  {
  }

  /** `prune_independent_expressions`: the clauses with no pure literal, kept
      in order, and a key for pure names. The key makes every literal of its
      names true, so it satisfies every dropped clause; it shares no name
      with the kept clauses. */
  method PruneIndependentExpressions(ps: Problem) returns (kept: Problem, prunedKey: AnswerKey)
    ensures var vars := PolarityOf(Flatten(ps));
      kept == Kept(vars, ps) && prunedKey == PrunedKey(vars, ps)
    ensures forall e | e in kept :: e in ps
    ensures forall j | 0 <= j < |ps| :: ps[j] in kept || Satisfied(ps[j], prunedKey)
    ensures forall j, i | 0 <= j < |ps| && 0 <= i < |ps[j]| && ps[j][i].name in prunedKey ::
      Eval(ps[j][i], prunedKey[ps[j][i].name])
    ensures prunedKey.Keys !! Vars(kept)
  {
    var vars := Polarities(ps);
    kept := [];
    prunedKey := map[];
    for j := 0 to |ps|
      invariant kept == Kept(vars, ps[..j]) && prunedKey == PrunedKey(vars, ps[..j])
    {
      assert ps[..j + 1][..j] == ps[..j];
      var expression := ps[j];
      var independent := FindIndependent(vars, expression);
      if independent.Some? {
        var v := expression[independent.value];
        if vars[v.name].0 {
          prunedKey := prunedKey[v.name := true];
        } else {
          prunedKey := prunedKey[v.name := false];
        }
      } else {
        kept := kept + [expression];
      }
    }
    assert ps[..|ps|] == ps;
    PruneFacts(vars, ps);
  }

  /** The facts the pruning promises, from the polarity map of the problem. */
  lemma PruneFacts(vars: Polarity, ps: Problem)
    requires forall j, i | 0 <= j < |ps| && 0 <= i < |ps[j]| :: Recorded(vars, ps[j][i])
    ensures forall e | e in Kept(vars, ps) :: e in ps
    ensures forall j | 0 <= j < |ps| :: ps[j] in Kept(vars, ps) || Satisfied(ps[j], PrunedKey(vars, ps))
    ensures forall j, i | 0 <= j < |ps| && 0 <= i < |ps[j]| && ps[j][i].name in PrunedKey(vars, ps) ::
      Eval(ps[j][i], PrunedKey(vars, ps)[ps[j][i].name])
    ensures PrunedKey(vars, ps).Keys !! Vars(Kept(vars, ps))
  {
    var kept, key := Kept(vars, ps), PrunedKey(vars, ps);
    KeptSpec(vars, ps);
    PrunedKeySpec(vars, ps);
    forall j, i | 0 <= j < |ps| && 0 <= i < |ps[j]| && ps[j][i].name in key
      ensures Eval(ps[j][i], key[ps[j][i].name])
    {
      PureLiteralTrue(vars, ps[j][i]);
    }
    forall j | 0 <= j < |ps| && ps[j] !in kept ensures Satisfied(ps[j], key) {
      var i := FirstPure(vars, ps[j]).value;
      assert ps[j][i].name in key;
    }
    forall x | x in Vars(kept) ensures x !in key {
      var j := VarsWitness(kept, x);
      var i :| 0 <= i < |kept[j]| && kept[j][i].name == x;
      assert FirstPure(vars, kept[j]).None?;
    }
  }

  // ================================================================ solving

  /** `solve`: prune, then run the answer-key loop from `[pruned_key]` over
      the kept clauses, and return the first key left, or None. A returned key
      satisfies the whole original problem, and None is returned exactly when
      no key satisfies it. */
  method Solve(ps: Problem) returns (r: Option<AnswerKey>)
    ensures r.Some? ==> AllSatisfied(ps, r.value)
    ensures r.None? <==> !Satisfiable(ps)
  {
    var kept, key := PruneIndependentExpressions(ps);
    var answerKeys := Search(key, kept);
    if |answerKeys| > 0 {
      r := Some(answerKeys[0]);
      assert answerKeys[0] in answerKeys;
      SolvedOriginal(ps, kept, key, answerKeys[0]);
    } else {
      r := None;
      SatisfiableKeeps(ps, kept, key, answerKeys);
    }
  }

  /** A key satisfying the kept clauses and extending the pruned key satisfies
      the original problem. */
  lemma SolvedOriginal(ps: Problem, kept: Problem, key: AnswerKey, k: AnswerKey)
    requires forall j | 0 <= j < |ps| :: ps[j] in kept || Satisfied(ps[j], key)
    requires Extends(k, key) && AllSatisfied(kept, k)
    ensures AllSatisfied(ps, k)
  {
    forall j | 0 <= j < |ps| ensures Satisfied(ps[j], k) {
      if ps[j] in kept {
        var m :| 0 <= m < |kept| && kept[m] == ps[j];
      } else {
        SatisfiedMonotone(ps[j], key, k);
      }
    }
  }

  /** A solution of the problem, cut down to the kept clauses' names, merged
      with the pruned key, is among the search's keys. */
  lemma SatisfiableKeeps(ps: Problem, kept: Problem, key: AnswerKey, keys: seq<AnswerKey>)
    requires forall e | e in kept :: e in ps
    requires key.Keys !! Vars(kept)
    requires forall a: AnswerKey | a.Keys == Vars(kept) && AllSatisfied(kept, a) :: key + a in keys
    ensures Satisfiable(ps) ==> keys != []
  {
    if Satisfiable(ps) {
      var k0 :| AllSatisfied(ps, k0);
      KeptSatisfied(ps, kept, k0);
      FillSatisfies(kept, k0);
      assert key + Fill(k0, Vars(kept)) in keys;
    }
  }

  /** A key satisfying the problem satisfies every clause kept from it. */
  lemma KeptSatisfied(ps: Problem, kept: Problem, k: AnswerKey)
    requires forall e | e in kept :: e in ps
    requires AllSatisfied(ps, k)
    ensures AllSatisfied(kept, k)
  {
    forall m | 0 <= m < |kept| ensures Satisfied(kept[m], k) {
      assert kept[m] in ps;
      var j :| 0 <= j < |ps| && ps[j] == kept[m];
    }
  }
}
