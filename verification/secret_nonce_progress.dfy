/** Every call on a secret nonce ends: a call is nine statements, and a schedule that keeps coming back
    to every thread runs them all. */
module SecretNonceProgress {
  import opened SecretNonceThreads

  const STATEMENTS := 9

  /** The statements a call has left, the longest way. */
  function Remaining(pc: Pc): nat {
    match pc
    case Waiting => STATEMENTS
    case Entered => 8
    case HasRead(_) => 7
    case HasCleared(_) => 6
    case Released(_) => 5
    case Building => 4
    case Calling => 3
    case InCall => 2
    case Finishing(_) => 1
    case Done(_) => 0
  }

  function Left(threads: seq<Thread>): nat {
    if threads == [] then 0 else Left(threads[..|threads| - 1]) + Remaining(threads[|threads| - 1].pc)
  }

  lemma {:induction false} LeftAfter(threads: seq<Thread>, t: nat, thread: Thread)
    requires t < |threads|
    ensures Left(threads[t := thread]) + Remaining(threads[t].pc) == Left(threads) + Remaining(thread.pc)
  {
    var rest, after := threads[..|threads| - 1], threads[t := thread];
    if t == |threads| - 1 {
      assert after[..|after| - 1] == rest;
    } else {
      assert after[..|after| - 1] == rest[t := thread];
      LeftAfter(rest, t, thread);
    }
  }

  /** A thread that is not blocked moves, and has less left; one that is blocked changes nothing. */
  lemma EveryMoveCounts(s: State, t: nat, locking: bool)
    ensures if Blocked(s, t, locking) then Next(s, t, locking) == s
            else Left(Next(s, t, locking).threads) < Left(s.threads)
  {
    if !Blocked(s, t, locking) {
      var thread := Next(s, t, locking).threads[t];
      assert Next(s, t, locking).threads == s.threads[t := thread];
      assert Remaining(thread.pc) < Remaining(s.threads[t].pc);
      hide Next, Remaining;
      LeftAfter(s.threads, t, thread);
    }
  }

  /** How many entries of a schedule find their thread free to move. */
  function Moves(s: State, schedule: seq<nat>, locking: bool): nat {
    if schedule == [] then 0
    else
      var rest, t := schedule[..|schedule| - 1], schedule[|schedule| - 1];
      Moves(s, rest, locking) + (if Blocked(Run(s, rest, locking), t, locking) then 0 else 1)
  }

  lemma {:induction false} MovesUseUp(s: State, schedule: seq<nat>, locking: bool)
    ensures Moves(s, schedule, locking) + Left(Run(s, schedule, locking).threads) <= Left(s.threads)
  {
    hide Next, Blocked, Left;
    if schedule != [] {
      var rest := schedule[..|schedule| - 1];
      MovesUseUp(s, rest, locking);
      EveryMoveCounts(Run(s, rest, locking), schedule[|schedule| - 1], locking);
    }
  }

  lemma {:induction false} LeftAtStart(calls: seq<Call>, secret: int)
    ensures Left(Start(calls, secret).threads) == STATEMENTS * |calls|
  {
    if calls != [] {
      var rest := calls[..|calls| - 1];
      LeftAtStart(rest, secret);
      var threads := Start(calls, secret).threads;
      assert threads[..|threads| - 1] == Start(rest, secret).threads;
    }
  }

  /** However long the schedule, with the lock or without it, no more than nine moves a call. */
  lemma MovesAreBounded(calls: seq<Call>, secret: int, schedule: seq<nat>, locking: bool)
    ensures Moves(Start(calls, secret), schedule, locking) <= STATEMENTS * |calls|
  {
    MovesUseUp(Start(calls, secret), schedule, locking);
    LeftAtStart(calls, secret);
  }

  // ------------------------------------------------------------ fair schedules

  predicate AllDone(s: State) {
    forall t :: 0 <= t < |s.threads| ==> s.threads[t].pc.Done?
  }

  lemma {:induction false} NothingLeft(threads: seq<Thread>, t: nat)
    requires Left(threads) == 0 && t < |threads|
    ensures threads[t].pc.Done?
  {
    if t < |threads| - 1 { NothingLeft(threads[..|threads| - 1], t); }
  }

  lemma DoneStaysDone(s: State, t: nat)
    requires AllDone(s)
    ensures AllDone(Next(s, t, true))
  {}

  lemma {:induction false} DoneForGood(s: State, before: seq<nat>, after: seq<nat>)
    requires AllDone(Run(s, before, true))
    ensures AllDone(Run(s, before + after, true))
  {
    hide AllDone, Next;
    if after == [] {
      assert before + after == before;
    } else {
      var rest := after[..|after| - 1];
      assert (before + after)[..|before + after| - 1] == before + rest;
      DoneForGood(s, before, rest);
      DoneStaysDone(Run(s, before + rest, true), after[|after| - 1]);
    }
  }

  /** Along a continuation either something moves or everything stays as it was. */
  lemma {:induction false} MovesOrStays(s: State, before: seq<nat>, after: seq<nat>)
    ensures var was, now := Moves(s, before, true), Moves(s, before + after, true);
            was <= now && (was == now ==> Run(s, before + after, true) == Run(s, before, true))
  {
    hide Next, Blocked;
    if after == [] {
      assert before + after == before;
    } else {
      var rest := after[..|after| - 1];
      assert (before + after)[..|before + after| - 1] == before + rest;
      MovesOrStays(s, before, rest);
      EveryMoveCounts(Run(s, before + rest, true), after[|after| - 1], true);
    }
  }

  /** A round comes back to every thread at least once, in any order. */
  predicate IsRound(round: seq<nat>, n: nat) {
    forall t :: 0 <= t < n ==> t in round
  }

  lemma FreeThread(calls: seq<Call>, secret: int, schedule: seq<nat>) returns (t: nat)
    requires secret != 0 && !AllDone(Run(Start(calls, secret), schedule, true))
    ensures t < |calls| && !Blocked(Run(Start(calls, secret), schedule, true), t, true)
  {
    hide Run, Start;
    var s := Run(Start(calls, secret), schedule, true);
    var u :| 0 <= u < |s.threads| && !s.threads[u].pc.Done?;
    SomeThreadMoves(calls, secret, schedule);
    EveryRunKeepsInvariant(calls, secret, schedule);
    t :| !Blocked(s, t, true);
  }

  lemma RoundMoves(calls: seq<Call>, secret: int, before: seq<nat>, round: seq<nat>)
    requires secret != 0 && IsRound(round, |calls|)
    requires !AllDone(Run(Start(calls, secret), before, true))
    ensures Moves(Start(calls, secret), before + round, true) > Moves(Start(calls, secret), before, true)
  {
    var t := FreeThread(calls, secret, before);
    hide *;
    var i := Turn(calls, round, t);
    MoveAtTurn(Start(calls, secret), before, round, i);
  }

  lemma Turn(calls: seq<Call>, round: seq<nat>, t: nat) returns (i: nat)
    requires IsRound(round, |calls|) && t < |calls|
    ensures i < |round| && round[i] == t
  {
    assert t in round;
    i :| 0 <= i < |round| && round[i] == t;
  }

  lemma OneMove(s: State, before: seq<nat>, t: nat)
    requires !Blocked(Run(s, before, true), t, true)
    ensures Moves(s, before + [t], true) == Moves(s, before, true) + 1
  {
    hide Next, Blocked, Run;
    assert (before + [t])[..|before|] == before;
  }

  lemma Resplit(before: seq<nat>, round: seq<nat>, i: nat)
    requires i < |round|
    ensures before + round == before + round[..i] + [round[i]] + round[i + 1..]
  {}

  lemma MoveAtTurn(s: State, before: seq<nat>, round: seq<nat>, i: nat)
    requires i < |round| && !Blocked(Run(s, before, true), round[i], true)
    ensures Moves(s, before + round, true) > Moves(s, before, true)
  {
    hide *;
    var head := before + round[..i];
    MovesOrStays(s, before, round[..i]);
    if Moves(s, head, true) == Moves(s, before, true) { OneMove(s, head, round[i]); }
    MovesOrStays(s, head, [round[i]]);
    MovesOrStays(s, head + [round[i]], round[i + 1..]);
    Resplit(before, round, i);
  }

  function Flat(rounds: seq<seq<nat>>): seq<nat> {
    if rounds == [] then [] else Flat(rounds[..|rounds| - 1]) + rounds[|rounds| - 1]
  }

  lemma {:induction false} RoundsAdvance(calls: seq<Call>, secret: int, rounds: seq<seq<nat>>)
    requires secret != 0 && forall i :: 0 <= i < |rounds| ==> IsRound(rounds[i], |calls|)
    ensures AllDone(Run(Start(calls, secret), Flat(rounds), true))
            || Moves(Start(calls, secret), Flat(rounds), true) >= |rounds|
  {
    hide AllDone, Run, Start, Moves, IsRound;
    if rounds != [] {
      var before, round := Flat(rounds[..|rounds| - 1]), rounds[|rounds| - 1];
      RoundsAdvance(calls, secret, rounds[..|rounds| - 1]);
      if AllDone(Run(Start(calls, secret), before, true)) {
        DoneForGood(Start(calls, secret), before, round);
      } else {
        RoundMoves(calls, secret, before, round);
      }
    }
  }

  /** Termination: nine rounds a call, whatever the order within each, and every call has returned. */
  lemma FairSchedulesFinish(calls: seq<Call>, secret: int, rounds: seq<seq<nat>>)
    requires secret != 0 && forall i :: 0 <= i < |rounds| ==> IsRound(rounds[i], |calls|)
    requires |rounds| >= STATEMENTS * |calls|
    ensures AllDone(Run(Start(calls, secret), Flat(rounds), true))
  {
    hide Run, Start, Moves, IsRound;
    var s := Run(Start(calls, secret), Flat(rounds), true);
    RoundsAdvance(calls, secret, rounds);
    MovesUseUp(Start(calls, secret), Flat(rounds), true);
    LeftAtStart(calls, secret);
    if !AllDone(s) {
      forall t | 0 <= t < |s.threads|
        ensures s.threads[t].pc.Done?
      {
        NothingLeft(s.threads, t);
      }
    }
  }

  /** Nothing can move exactly when every call has returned. */
  lemma StoppedIsFinished(calls: seq<Call>, secret: int, schedule: seq<nat>)
    requires secret != 0
    ensures var s := Run(Start(calls, secret), schedule, true);
            AllDone(s) <==> forall t: nat :: Blocked(s, t, true)
  {
    if !AllDone(Run(Start(calls, secret), schedule, true)) {
      var t := FreeThread(calls, secret, schedule);
    }
  }
}
