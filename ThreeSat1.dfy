/** src/algos/three_sat1.py: the incremental solver returning one answer key. */
module ThreeSat1 {
  import opened Wrappers
  import opened Sats
  import opened ThreeSat

  /** `solve`: the answer-key loop of ThreeSat (the file carries an identical
      copy), then the first key left, or None when the list is empty. The
      result is None exactly when no key satisfies the problem; otherwise it
      answers exactly the problem's names and satisfies every clause. */
  method Solve(ps: Problem) returns (r: Option<AnswerKey>)
    ensures r.None? <==> !Satisfiable(ps)
    ensures r.Some? ==> r.value.Keys == Vars(ps) && AllSatisfied(ps, r.value)
  {
    var answerKeys := ThreeSat.ThreeSat(ps);
    SearchEmptyIff(ps, answerKeys);
    if |answerKeys| > 0 {
      r := Some(answerKeys[0]);
    } else {
      r := None;
    }
  }
}
