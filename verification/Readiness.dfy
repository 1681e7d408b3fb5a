/** `wait_until_ready` of scripts/check_postgres_matrix.py: two stable probes in a row. */
module Readiness {
  import opened Text

  /** One turn of the loop: the server identity when the probe succeeded, and
      whether the container was found exited after it. */
  datatype Turn = Turn(identity: Option<string>, exited: bool)

  datatype Outcome = Ready(turn: nat) | Exited(turn: nat) | TimedOut

  /** The probes of turn `k` and of the turn before both succeeded, on one server. */
  predicate Stable(turns: seq<Turn>, k: nat)
  {
    0 < k < |turns| && turns[k].identity.Some? && turns[k].identity == turns[k - 1].identity
  }

  /** Turn `k` ends the wait. */
  predicate Ends(turns: seq<Turn>, k: nat)
  {
    k < |turns| && (Stable(turns, k) || turns[k].exited)
  }

  /** What a wait over `turns` (the probes before the deadline) must answer:
      ready at the first turn that follows an equal success, unless the
      container exited at an earlier turn. */
  ghost predicate Answers(turns: seq<Turn>, outcome: Outcome)
  {
    match outcome
    case Ready(k) => Stable(turns, k) && forall j: nat :: j < k ==> !Ends(turns, j)
    case Exited(k) => k < |turns| && turns[k].exited && !Stable(turns, k) && forall j: nat :: j < k ==> !Ends(turns, j)
    case TimedOut => forall j: nat :: !Ends(turns, j)
  }

  /** The loop; a failed probe or another identity restarts the count. */
  method WaitUntilReady(turns: seq<Turn>) returns (outcome: Outcome)
    ensures Answers(turns, outcome)
  {
    var stableIdentity: Option<string> := None;
    var stableChecks := 0;
    for k := 0 to |turns|
      invariant stableChecks == if k > 0 && turns[k - 1].identity.Some? then 1 else 0
      invariant stableIdentity == if k > 0 then turns[k - 1].identity else None
      invariant forall j: nat :: j < k ==> !Ends(turns, j)
    {
      var identity := turns[k].identity;
      if identity.Some? {
        if identity == stableIdentity {
          stableChecks := stableChecks + 1;
        } else {
          stableIdentity := identity;
          stableChecks := 1;
        }
        if stableChecks >= 2 {
          return Ready(k);
        }
      } else {
        stableIdentity := None;
        stableChecks := 0;
      }
      if turns[k].exited {
        return Exited(k);
      }
    }
    return TimedOut;
  }

  /** The answer is determined by the turns, so readiness means exactly: the
      first ending turn is a stable one. */
  lemma AnswerIsUnique(turns: seq<Turn>, a: Outcome, b: Outcome)
    requires Answers(turns, a) && Answers(turns, b)
    ensures a == b
  {
    if a.Ready? { assert Ends(turns, a.turn); }
    if a.Exited? { assert Ends(turns, a.turn); }
    if b.Ready? { assert Ends(turns, b.turn); }
    if b.Exited? { assert Ends(turns, b.turn); }
  }
}
