/**
 * `RenameAndMoveAsRequired`: the bounded retry ladder. Rename is tried up to
 * four times with waits of 750, 3000 and 5000 ms between tries; the move
 * phase runs only after a successful rename and follows the same ladder.
 * Waiting is recorded, not performed.
 */
module Retry {

  /** `DELAY_IN_USE`: FIRST, SECOND and THIRD, in milliseconds. */
  const Delays: seq<int> := [750, 3000, 5000]
  const MaxTries: nat := 4

  /** One attempt's answer (true: no retry needed) and the state after it. */
  datatype Attempt<S> = Attempt(ok: bool, next: S)

  /**
   * The answers of the tries a phase made, in order, the state each try
   * started from, whether the last try succeeded, and the state the last try
   * left.
   */
  datatype PhaseRun<S> = PhaseRun(succeeded: bool, state: S, answers: seq<bool>, froms: seq<S>)

  /**
   * Tries `attempt` from try number `k` on. A try that answers true ends the
   * phase; otherwise the phase waits `Delays[k]` and tries again, giving up
   * after the fourth try.
   */
  function RunPhase<S>(s: S, attempt: (S, nat) -> Attempt<S>, k: nat): (r: PhaseRun<S>)
    requires k < MaxTries
    ensures 1 <= |r.answers| <= MaxTries - k
    ensures forall i :: 0 <= i < |r.answers| - 1 ==> !r.answers[i]
    ensures !r.answers[|r.answers| - 1] ==> |r.answers| == MaxTries - k
    ensures r.succeeded <==> r.answers[|r.answers| - 1]
    ensures Traced(r.froms, r.answers, attempt, k) && r.froms[0] == s
    ensures r.state == attempt(r.froms[|r.froms| - 1], k + |r.froms| - 1).next
    decreases MaxTries - k
  {
    var a := attempt(s, k);
    if a.ok then PhaseRun(true, a.next, [true], [s])
    else if k == MaxTries - 1 then PhaseRun(false, a.next, [a.ok], [s])
    else
      var rest := RunPhase(a.next, attempt, k + 1);
      TracedCons(s, rest.froms, rest.answers, attempt, k);
      PhaseRun(rest.succeeded, rest.state, [false] + rest.answers, [s] + rest.froms)
  }

  /**
   * The tries of a phase from try `k` on: try `i` started from `froms[i]`
   * and answered `answers[i]`, and every try started where the one before
   * it left off.
   */
  ghost predicate Traced<S>(froms: seq<S>, answers: seq<bool>, attempt: (S, nat) -> Attempt<S>, k: nat) {
    && |froms| == |answers|
    && (forall i :: 0 <= i < |answers| ==> answers[i] == attempt(froms[i], k + i).ok)
    && (forall i :: 0 <= i < |answers| - 1 ==> froms[i + 1] == attempt(froms[i], k + i).next)
  }

  /** A failed try in front of a trace that starts where it left off is a trace. */
  lemma TracedCons<S>(s: S, froms: seq<S>, answers: seq<bool>, attempt: (S, nat) -> Attempt<S>, k: nat)
    requires Traced(froms, answers, attempt, k + 1) && froms != []
    requires !attempt(s, k).ok && froms[0] == attempt(s, k).next
    ensures Traced([s] + froms, [false] + answers, attempt, k)
  {
    var fs := [s] + froms;
    var ans := [false] + answers;
    forall i | 1 <= i < |ans|
      ensures ans[i] == attempt(fs[i], k + i).ok
    {
      assert ans[i] == answers[i - 1] && fs[i] == froms[i - 1];
    }
    forall i | 1 <= i < |ans| - 1
      ensures fs[i + 1] == attempt(fs[i], k + i).next
    {
      assert fs[i + 1] == froms[i] && fs[i] == froms[i - 1];
    }
  }

  /** The waits a phase with these answers sleeps through: one before every try but the first. */
  function Waits(answers: seq<bool>): seq<int>
    requires |answers| <= MaxTries
  {
    if answers == [] then [] else Delays[..|answers| - 1]
  }

  /** What one run of the ladder did. */
  datatype Run<S> = Run(state: S, renames: seq<bool>, moves: seq<bool>, permissionsSet: bool)

  /**
   * Rename ladder, then (only if it succeeded) the move ladder and the
   * permissions step. With `countLastMove` false the fourth move try's answer
   * is thrown away, as the source does.
   */
  function Ladder<S>(s: S, rename: (S, nat) -> Attempt<S>, move: (S, nat) -> Attempt<S>, countLastMove: bool): (r: Run<S>)
    ensures 1 <= |r.renames| <= MaxTries && |r.moves| <= MaxTries
    ensures forall i :: 0 <= i < |r.renames| - 1 ==> !r.renames[i]
    ensures forall i :: 0 <= i < |r.moves| - 1 ==> !r.moves[i]
    ensures r.moves != [] <==> r.renames[|r.renames| - 1]
    ensures r.permissionsSet <==>
      r.moves != [] && r.moves[|r.moves| - 1] && (countLastMove || |r.moves| < MaxTries)
  {
    var rn := RunPhase(s, rename, 0);
    if !rn.succeeded then
      Run(rn.state, rn.answers, [], false)
    else
      var mv := RunPhase(rn.state, move, 0);
      Run(mv.state, rn.answers, mv.answers, mv.succeeded && (countLastMove || |mv.answers| < MaxTries))
  }

  /**
   * `RenameAndMoveAsRequired` as written: the fourth move try's answer is not
   * stored in `succeeded`, so the permissions step runs only when one of the
   * first three move tries succeeded.
   */
  function RenameAndMoveAsWritten<S>(s: S, rename: (S, nat) -> Attempt<S>, move: (S, nat) -> Attempt<S>): (r: Run<S>)
    ensures 1 <= |r.renames| <= MaxTries && |r.moves| <= MaxTries
    ensures r.moves != [] ==> r.renames[|r.renames| - 1]
    ensures r.permissionsSet <==> r.moves != [] && r.moves[|r.moves| - 1] && |r.moves| < MaxTries
  {
    Ladder(s, rename, move, false)
  }

  /**
   * `RenameAndMoveAsRequired` with the fourth move try's answer kept: the
   * permissions step runs exactly when some move try succeeded.
   */
  function RenameAndMove<S>(s: S, rename: (S, nat) -> Attempt<S>, move: (S, nat) -> Attempt<S>): (r: Run<S>)
    ensures 1 <= |r.renames| <= MaxTries && |r.moves| <= MaxTries
    ensures r.moves != [] ==> r.renames[|r.renames| - 1]
    ensures r.permissionsSet <==> true in r.moves
  {
    var r := Ladder(s, rename, move, true);
    assert true in r.moves ==> r.moves[|r.moves| - 1] by {
      if true in r.moves {
        var i :| 0 <= i < |r.moves| && r.moves[i];
      }
    }
    r
  }

  /**
   * When a failed try leaves the state as it found it, a phase whose last
   * try failed ends in the state it started from.
   */
  lemma {:induction false} FailedPhaseKeepsState<S>(s: S, attempt: (S, nat) -> Attempt<S>, k: nat)
    requires k < MaxTries
    requires forall t: S, j: nat :: !attempt(t, j).ok ==> attempt(t, j).next == t
    ensures
      var r := RunPhase(s, attempt, k);
      !r.answers[|r.answers| - 1] ==> r.state == s
    decreases MaxTries - k
  {
    var a := attempt(s, k);
    if !a.ok && k != MaxTries - 1 {
      FailedPhaseKeepsState(a.next, attempt, k + 1);
    }
  }

  /**
   * The two ladders make the same tries and leave the same state; they part
   * only when the move succeeds on the fourth try, where the permissions
   * step is skipped as written.
   */
  lemma LadderVersionsAgree<S>(s: S, rename: (S, nat) -> Attempt<S>, move: (S, nat) -> Attempt<S>)
    ensures
      var w := RenameAndMoveAsWritten(s, rename, move);
      var c := RenameAndMove(s, rename, move);
      && w.renames == c.renames && w.moves == c.moves && w.state == c.state
      && (w.permissionsSet ==> c.permissionsSet)
      && (c.permissionsSet && !w.permissionsSet ==> w.moves == [false, false, false, true])
  {
    var w := RenameAndMoveAsWritten(s, rename, move);
    if w.moves != [] && |w.moves| == MaxTries {
      assert w.moves == [w.moves[0], w.moves[1], w.moves[2], w.moves[3]];
    }
  }

  /**
   * A rename that never succeeds is tried four times, waiting 750, 3000 and
   * 5000 ms in between, and the move is never attempted.
   */
  lemma RenameGivesUp<S>(s: S, rename: (S, nat) -> Attempt<S>, move: (S, nat) -> Attempt<S>)
    requires forall t: S, k: nat :: !rename(t, k).ok
    ensures
      var r := RenameAndMove(s, rename, move);
      && r.renames == [false, false, false, false]
      && Waits(r.renames) == [750, 3000, 5000]
      && r.moves == [] && !r.permissionsSet
  {
    var rn := RunPhase(s, rename, 0);
    assert Traced(rn.froms, rn.answers, rename, 0);
    forall i | 0 <= i < |rn.answers| ensures !rn.answers[i] {
      assert rn.answers[i] == rename(rn.froms[i], i).ok;
    }
  }

  /**
   * The discrepancy: a move that fails three times and succeeds on the fourth
   * try skips the permissions step as written, and runs it once corrected.
   */
  lemma FourthMoveIgnored()
    ensures !RenameAndMoveAsWritten(0, (t: int, k: nat) => Attempt(true, t), (t: int, k: nat) => Attempt(k == 3, t)).permissionsSet
    ensures RenameAndMove(0, (t: int, k: nat) => Attempt(true, t), (t: int, k: nat) => Attempt(k == 3, t)).permissionsSet
  {
    var move := (t: int, k: nat) => Attempt(k == 3, t);
    var r1 := RunPhase(0, move, 1);
    assert r1.answers == [false, false, true];
  }
}
