/** Threads racing one secret nonce, statement by statement.

    A schedule names the thread that moves next, so a claim for every schedule is a claim for every
    interleaving of any number of calls.  Without the lock the same machine signs twice. */
module SecretNonceThreads {
  import opened Results

  /** What a thread calls.  keyOk: `keypair` accepts the private key; matches: the C call signs. */
  datatype Call = PartialSign(keyOk: bool, matches: bool) | Wipe

  datatype Outcome = Signed | Mismatch | KeyRefused | Spent | Wiped | NothingToWipe

  /** Where a thread is.  `got` is its local: the nonce, or None. */
  datatype Pc =
    | Waiting                    // before `with self._lock`
    | Entered                    // about to read the field
    | HasRead(got: bool)         // about to clear the field
    | HasCleared(got: bool)      // about to release the lock
    | Released(got: bool)        // about to ask whether the local is None
    | Building                   // about to build the keypair
    | Calling                    // about to hand the nonce to the C call
    | InCall                     // the C call has loaded the nonce and is about to overwrite it
    | Finishing(outcome: Outcome) // about to wipe, in `finally`
    | Done(outcome: Outcome)

  datatype Thread = Thread(call: Call, pc: Pc)

  /** handed: what the C call found in the memory, once per call of it; takes: the threads in the
      order in which they cleared the field. */
  datatype State = State(threads: seq<Thread>, field: bool, lock: Option<nat>,
                         secret: int, memory: int, handed: seq<int>, takes: seq<nat>)

  function Start(calls: seq<Call>, secret: int): State {
    State(seq(|calls|, i requires 0 <= i < |calls| => Thread(calls[i], Waiting)),
          true, None, secret, secret, [], [])
  }

  function Move(s: State, t: nat, pc: Pc): State
    requires t < |s.threads|
  {
    s.(threads := s.threads[t := s.threads[t].(pc := pc)])
  }

  predicate Blocked(s: State, t: nat, locking: bool) {
    t >= |s.threads| || s.threads[t].pc.Done? || (s.threads[t].pc.Waiting? && locking && s.lock.Some?)
  }

  /** Thread t's next statement; nothing moves where it is blocked or finished. */
  function Next(s: State, t: nat, locking: bool): State {
    if Blocked(s, t, locking) then s
    else
      var call := s.threads[t].call;
      match s.threads[t].pc
      case Waiting => Move(s, t, Entered).(lock := Some(t))
      case Entered => Move(s, t, HasRead(s.field))
      case HasRead(got) => Move(s, t, HasCleared(got)).(field := false, takes := s.takes + [t])
      case HasCleared(got) => Move(s, t, Released(got)).(lock := None)
      case Released(got) =>
        if !got then Move(s, t, Done(if call.Wipe? then NothingToWipe else Spent))
        else Move(s, t, if call.Wipe? then Finishing(Wiped) else Building)
      case Building => Move(s, t, if call.PartialSign? && call.keyOk then Calling else Finishing(KeyRefused))
      case Calling => Move(s, t, InCall).(handed := s.handed + [s.memory])
      case InCall =>
        Move(s, t, Finishing(if call.PartialSign? && call.matches then Signed else Mismatch)).(memory := 0)
      case Finishing(outcome) => Move(s, t, Done(outcome)).(memory := 0)
      case Done(_) => s
  }

  function Run(s: State, schedule: seq<nat>, locking: bool): State {
    if schedule == [] then s
    else Next(Run(s, schedule[..|schedule| - 1], locking), schedule[|schedule| - 1], locking)
  }

  // ------------------------------------------------------------ the invariant

  predicate InCritical(pc: Pc) {
    pc.Entered? || pc.HasRead? || pc.HasCleared?
  }

  predicate PastClear(pc: Pc) {
    !pc.Waiting? && !pc.Entered? && !pc.HasRead?
  }

  /** The thread's local is, or was, the nonce. */
  predicate Got(pc: Pc) {
    match pc
    case Waiting => false
    case Entered => false
    case HasRead(got) => got
    case HasCleared(got) => got
    case Released(got) => got
    case Done(outcome) => outcome != Spent && outcome != NothingToWipe
    case _ => true
  }

  predicate Reached(outcome: Outcome) {
    outcome == Signed || outcome == Mismatch
  }

  /** The memory and the C calls so far, by where the thread that took the nonce is. */
  predicate Account(pc: Pc, secret: int, memory: int, handed: seq<int>) {
    match pc
    case InCall => memory == secret && handed == [secret]
    case Finishing(outcome) =>
      if Reached(outcome) then memory == 0 && handed == [secret] else memory == secret && handed == []
    case Done(outcome) => memory == 0 && handed == if Reached(outcome) then [secret] else []
    case _ => memory == secret && handed == []
  }

  /** What a call answers when nothing runs beside it. */
  function Alone(call: Call, present: bool): Outcome {
    match call
    case Wipe => if present then Wiped else NothingToWipe
    case PartialSign(keyOk, matches) =>
      if !present then Spent else if !keyOk then KeyRefused else if matches then Signed else Mismatch
  }

  predicate OnItsWay(thread: Thread, outcome: Outcome) {
    outcome == Alone(thread.call, Got(thread.pc))
  }

  predicate ThreadOk(s: State, t: nat)
    requires t < |s.threads|
  {
    var thread := s.threads[t];
    && (InCritical(thread.pc) <==> s.lock == Some(t))
    && (thread.pc.HasRead? ==> thread.pc.got == s.field)
    && (thread.pc.HasCleared? ==> !s.field)
    && (t in s.takes <==> PastClear(thread.pc))
    && (PastClear(thread.pc) ==> (Got(thread.pc) <==> s.takes[0] == t))
    && (thread.pc.Building? ==> thread.call.PartialSign?)
    && (thread.pc.Calling? || thread.pc.InCall? ==> thread.call.PartialSign? && thread.call.keyOk)
    && (thread.pc.Finishing? || thread.pc.Done? ==> OnItsWay(thread, thread.pc.outcome))
  }

  ghost predicate OrderOk(s: State) {
    && s.secret != 0
    && (s.lock.Some? ==> s.lock.value < |s.threads|)
    && (s.field <==> s.takes == [])
    && (forall i :: 0 <= i < |s.takes| ==> s.takes[i] < |s.threads|)
    && (forall i, j :: 0 <= i < j < |s.takes| ==> s.takes[i] != s.takes[j])
  }

  ghost predicate MemoryOk(s: State) {
    if s.takes == [] then s.memory == s.secret && s.handed == []
    else s.takes[0] < |s.threads| && Account(s.threads[s.takes[0]].pc, s.secret, s.memory, s.handed)
  }

  ghost predicate Invariant(s: State) {
    && OrderOk(s)
    && MemoryOk(s)
    && (forall t :: 0 <= t < |s.threads| ==> ThreadOk(s, t))
  }

  lemma MoverStaysOk(s: State, t: nat)
    requires Invariant(s) && !Blocked(s, t, true)
    ensures ThreadOk(Next(s, t, true), t)
  {
    assert ThreadOk(s, t);
    if s.threads[t].pc.HasRead? && s.takes != [] {
      assert s.takes[0] != t;
    }
  }

  lemma OthersStayOk(s: State, t: nat, u: nat)
    requires Invariant(s) && !Blocked(s, t, true) && u < |s.threads| && u != t
    ensures ThreadOk(Next(s, t, true), u)
  {
    var s' := Next(s, t, true);
    assert ThreadOk(s, t) && ThreadOk(s, u);
    assert s'.threads[u] == s.threads[u];
    assert u in s'.takes <==> u in s.takes;
  }

  lemma OrderStaysOk(s: State, t: nat)
    requires Invariant(s) && !Blocked(s, t, true)
    ensures OrderOk(Next(s, t, true))
  {
    assert ThreadOk(s, t);
  }

  lemma MemoryStaysOk(s: State, t: nat)
    requires Invariant(s) && !Blocked(s, t, true)
    ensures MemoryOk(Next(s, t, true))
  {
    assert ThreadOk(s, t);
    if s.takes != [] {
      assert ThreadOk(s, s.takes[0]);
      assert Next(s, t, true).takes[0] == s.takes[0];
    }
  }

  lemma StepKeepsInvariant(s: State, t: nat)
    requires Invariant(s)
    ensures Invariant(Next(s, t, true))
  {
    if !Blocked(s, t, true) {
      OrderStaysOk(s, t);
      MemoryStaysOk(s, t);
      MoverStaysOk(s, t);
      forall u | 0 <= u < |s.threads| && u != t
        ensures ThreadOk(Next(s, t, true), u)
      {
        OthersStayOk(s, t, u);
      }
    }
  }

  lemma StartIsOk(calls: seq<Call>, secret: int)
    requires secret != 0
    ensures Invariant(Start(calls, secret)) && SameCalls(Start(calls, secret), calls, secret)
  {}

  /** The calls made and the nonce itself, which no step changes. */
  ghost predicate SameCalls(s: State, calls: seq<Call>, secret: int) {
    |s.threads| == |calls| && s.secret == secret && forall t :: 0 <= t < |calls| ==> s.threads[t].call == calls[t]
  }

  lemma StepKeepsCalls(s: State, t: nat, locking: bool, calls: seq<Call>, secret: int)
    requires SameCalls(s, calls, secret)
    ensures SameCalls(Next(s, t, locking), calls, secret)
  {}

  lemma {:induction false} EveryRunKeepsInvariant(calls: seq<Call>, secret: int, schedule: seq<nat>)
    requires secret != 0
    ensures Invariant(Run(Start(calls, secret), schedule, true))
    ensures SameCalls(Run(Start(calls, secret), schedule, true), calls, secret)
  {
    hide Invariant, SameCalls, Next, Start;
    if schedule == [] {
      StartIsOk(calls, secret);
    } else {
      var rest := schedule[..|schedule| - 1];
      EveryRunKeepsInvariant(calls, secret, rest);
      StepKeepsInvariant(Run(Start(calls, secret), rest, true), schedule[|schedule| - 1]);
      StepKeepsCalls(Run(Start(calls, secret), rest, true), schedule[|schedule| - 1], true, calls, secret);
    }
  }

  // ------------------------------------------------------------ what every interleaving guarantees

  /** A thread can still reach the nonce: its local is the nonce and it has not finished with it. */
  predicate Reaches(s: State, t: nat)
    requires t < |s.threads|
  {
    Got(s.threads[t].pc) && !s.threads[t].pc.Done?
  }

  /** At most one C signing call is ever made, it finds the live nonce, and no two threads can reach
      that nonce. */
  lemma AtMostOnce(calls: seq<Call>, secret: int, schedule: seq<nat>)
    requires secret != 0
    ensures var s := Run(Start(calls, secret), schedule, true);
            && (s.handed == [] || s.handed == [secret])
            && |s.threads| == |calls|
            && (forall t, u :: 0 <= t < |calls| && 0 <= u < |calls| && Reaches(s, t) && Reaches(s, u) ==> t == u)
  {
    EveryRunKeepsInvariant(calls, secret, schedule);
    var s := Run(Start(calls, secret), schedule, true);
    forall t, u | 0 <= t < |calls| && 0 <= u < |calls| && Reaches(s, t) && Reaches(s, u)
      ensures t == u
    {
      assert ThreadOk(s, t) && ThreadOk(s, u);
    }
  }

  /** Ownership: memory that is not zero is held by the field or by exactly one thread; so once the
      field is None and no thread is between its take and its wipe, it is zero. */
  lemma SecretIsOwned(calls: seq<Call>, secret: int, schedule: seq<nat>)
    requires secret != 0
    ensures var s := Run(Start(calls, secret), schedule, true);
            |s.threads| == |calls|
            && (s.memory != 0 ==> s.field || exists t :: 0 <= t < |calls| && Reaches(s, t))
            && (s.field ==> s.memory == secret)
            && (forall t :: s.field && 0 <= t < |calls| && Reaches(s, t) ==>
                  s.threads[t].pc.HasRead? && s.lock == Some(t))
  {
    EveryRunKeepsInvariant(calls, secret, schedule);
    var s := Run(Start(calls, secret), schedule, true);
    if s.memory != 0 && !s.field {
      assert ThreadOk(s, s.takes[0]);
      assert Reaches(s, s.takes[0]);
    }
    forall t | s.field && 0 <= t < |calls| && Reaches(s, t)
      ensures s.threads[t].pc.HasRead? && s.lock == Some(t)
    {
      assert ThreadOk(s, t);
    }
  }

  /** N calls of `partial_sign` and no wipe: one takes the nonce, the other N - 1 raise ValueError. */
  lemma ExactlyOneTakes(calls: seq<Call>, secret: int, schedule: seq<nat>)
    requires secret != 0 && calls != []
    requires forall t :: 0 <= t < |calls| ==> calls[t].PartialSign?
    requires var s := Run(Start(calls, secret), schedule, true);
             |s.threads| == |calls| && forall t :: 0 <= t < |calls| ==> s.threads[t].pc.Done?
    ensures var s := Run(Start(calls, secret), schedule, true);
            exists w :: 0 <= w < |calls| && s.threads[w].pc.outcome == Alone(calls[w], true)
              && forall t :: 0 <= t < |calls| && t != w ==> s.threads[t].pc.outcome == Spent
  {
    EveryRunKeepsInvariant(calls, secret, schedule);
    var s := Run(Start(calls, secret), schedule, true);
    assert ThreadOk(s, 0);
    var w := s.takes[0];
    assert ThreadOk(s, w);
    forall t | 0 <= t < |calls| && t != w
      ensures s.threads[t].pc.outcome == Spent
    {
      assert ThreadOk(s, t);
    }
  }

  // ------------------------------------------------------------ the sequential order

  /** What a call leaves in the field: nothing, whichever it is. */
  function Leaves(call: Call, present: bool): bool {
    false
  }

  function PresentAfter(order: seq<Call>): bool {
    if order == [] then true else Leaves(order[|order| - 1], PresentAfter(order[..|order| - 1]))
  }

  /** The outcomes of these calls made one after the other, each alone. */
  function OneByOne(order: seq<Call>): seq<Outcome> {
    if order == [] then []
    else
      var rest := order[..|order| - 1];
      OneByOne(rest) + [Alone(order[|order| - 1], PresentAfter(rest))]
  }

  lemma {:induction false} OneByOneAt(order: seq<Call>, i: nat)
    requires i < |order|
    ensures |OneByOne(order)| == |order| && OneByOne(order)[i] == Alone(order[i], i == 0)
  {
    if |order| > 1 { OneByOneAt(order[..|order| - 1], if i == |order| - 1 then 0 else i); }
  }

  function InOrder(calls: seq<Call>, order: seq<nat>): seq<Call>
    requires forall i :: 0 <= i < |order| ==> order[i] < |calls|
  {
    seq(|order|, i requires 0 <= i < |order| => calls[order[i]])
  }

  /** The history is the one of the calls made one after the other, in the order in which they
      cleared the field; every finished call is in that order, once. */
  lemma HistoryIsSequential(calls: seq<Call>, secret: int, schedule: seq<nat>)
    requires secret != 0
    ensures var s := Run(Start(calls, secret), schedule, true);
            && |s.threads| == |calls|
            && (forall i :: 0 <= i < |s.takes| ==> s.takes[i] < |calls|)
            && (forall i, j :: 0 <= i < j < |s.takes| ==> s.takes[i] != s.takes[j])
            && (forall t :: 0 <= t < |calls| && s.threads[t].pc.Done? ==> t in s.takes)
            && (forall i :: 0 <= i < |s.takes| && s.threads[s.takes[i]].pc.Done? ==>
                  i < |OneByOne(InOrder(calls, s.takes))|
                  && s.threads[s.takes[i]].pc.outcome == OneByOne(InOrder(calls, s.takes))[i])
  {
    EveryRunKeepsInvariant(calls, secret, schedule);
    var s := Run(Start(calls, secret), schedule, true);
    forall t | 0 <= t < |calls| && s.threads[t].pc.Done?
      ensures t in s.takes
    {
      assert ThreadOk(s, t);
    }
    forall i | 0 <= i < |s.takes| && s.threads[s.takes[i]].pc.Done?
      ensures i < |OneByOne(InOrder(calls, s.takes))|
      ensures s.threads[s.takes[i]].pc.outcome == OneByOne(InOrder(calls, s.takes))[i]
    {
      assert ThreadOk(s, s.takes[i]);
      OneByOneAt(InOrder(calls, s.takes), i);
    }
  }

  /** The order only grows. */
  lemma {:induction false} OrderGrows(calls: seq<Call>, secret: int, before: seq<nat>, after: seq<nat>)
    requires secret != 0
    ensures Run(Start(calls, secret), before, true).takes <= Run(Start(calls, secret), before + after, true).takes
  {
    if after == [] {
      assert before + after == before;
    } else {
      var rest := after[..|after| - 1];
      assert (before + after)[..|before + after| - 1] == before + rest;
      OrderGrows(calls, secret, before, rest);
    }
  }

  /** The order extends real time: a call that had finished before another entered comes first. */
  lemma FinishedComesFirst(calls: seq<Call>, secret: int, before: seq<nat>, after: seq<nat>, u: nat, t: nat)
    requires secret != 0 && u < |calls| && t < |calls|
    requires var s := Run(Start(calls, secret), before, true);
             |s.threads| == |calls| && s.threads[u].pc.Done? && s.threads[t].pc.Waiting?
    ensures var takes := Run(Start(calls, secret), before + after, true).takes;
            forall i, j :: 0 <= i < |takes| && 0 <= j < |takes| && takes[i] == u && takes[j] == t ==> i < j
  {
    EveryRunKeepsInvariant(calls, secret, before);
    EveryRunKeepsInvariant(calls, secret, before + after);
    OrderGrows(calls, secret, before, after);
    var s := Run(Start(calls, secret), before, true);
    var takes := Run(Start(calls, secret), before + after, true).takes;
    assert ThreadOk(s, u) && ThreadOk(s, t);
    forall i, j | 0 <= i < |takes| && 0 <= j < |takes| && takes[i] == u && takes[j] == t
      ensures i < j
    {
      var k :| 0 <= k < |s.takes| && s.takes[k] == u;
      assert takes[k] == u && k == i;
      assert forall m :: 0 <= m < |s.takes| ==> takes[m] == s.takes[m] != t;
    }
  }

  // ------------------------------------------------------------ progress, and why the lock

  /** No deadlock: while a call has not finished, some thread can move. */
  lemma SomeThreadMoves(calls: seq<Call>, secret: int, schedule: seq<nat>)
    requires secret != 0
    requires var s := Run(Start(calls, secret), schedule, true);
             exists t :: 0 <= t < |s.threads| && !s.threads[t].pc.Done?
    ensures exists t: nat :: !Blocked(Run(Start(calls, secret), schedule, true), t, true)
  {
    EveryRunKeepsInvariant(calls, secret, schedule);
    var s := Run(Start(calls, secret), schedule, true);
    var t: nat :| t < |s.threads| && !s.threads[t].pc.Done?;
    if Blocked(s, t, true) {
      assert s.threads[t].pc.Waiting?;
      HolderMoves(s);
    }
  }

  lemma HolderMoves(s: State)
    requires Invariant(s) && s.lock.Some? && s.lock.value < |s.threads|
    ensures !Blocked(s, s.lock.value, true)
  {
    assert ThreadOk(s, s.lock.value);
  }

  function Steps(s: State, t: nat, k: nat): State {
    if k == 0 then s else Next(Steps(s, t, k - 1), t, false)
  }

  lemma {:induction false} Extend(s: State, schedule: seq<nat>, t: nat, k: nat) returns (longer: seq<nat>)
    ensures Run(s, longer, false) == Steps(Run(s, schedule, false), t, k)
  {
    if k == 0 {
      longer := schedule;
    } else {
      var rest := Extend(s, schedule, t, k - 1);
      longer := rest + [t];
      assert longer[..|longer| - 1] == rest;
    }
  }

  /** Reading and clearing as two statements under no lock: both threads reach the C call holding
      the live nonce. */
  lemma WithoutTheLockItSignsTwice(secret: int)
    ensures exists schedule: seq<nat> ::
      Run(Start([PartialSign(true, true), PartialSign(true, true)], secret), schedule, false).handed == [secret, secret]
  {
    var call := PartialSign(true, true);
    var s0 := Start([call, call], secret);
    var a := Extend(s0, [], 0, 2);
    var b := Extend(s0, a, 1, 2);
    BothRead(call, secret);
    var c := Extend(s0, b, 0, 5);
    FirstInCall(call, secret);
    var d := Extend(s0, c, 1, 5);
    SecondInCall(call, secret);
    assert Run(s0, d, false).handed == [secret, secret];
  }

  function TwoThreads(call: Call, first: Pc, second: Pc): seq<Thread> {
    [Thread(call, first), Thread(call, second)]
  }

  lemma Step(s: State, t: nat, k: nat)
    ensures Steps(s, t, k + 1) == Next(Steps(s, t, k), t, false) && Steps(s, t, 0) == s
  {}

  lemma BothRead(call: Call, secret: int)
    ensures Steps(Steps(Start([call, call], secret), 0, 2), 1, 2)
            == State(TwoThreads(call, HasRead(true), HasRead(true)), true, Some(1), secret, secret, [], [])
  {
    var s0 := Start([call, call], secret);
    assert s0.threads == TwoThreads(call, Waiting, Waiting);
    var s1 := State(TwoThreads(call, Entered, Waiting), true, Some(0), secret, secret, [], []);
    var s2 := State(TwoThreads(call, HasRead(true), Waiting), true, Some(0), secret, secret, [], []);
    Step(s0, 0, 0); assert Next(s0, 0, false) == s1;
    Step(s0, 0, 1); assert Next(s1, 0, false) == s2;
    var s3 := State(TwoThreads(call, HasRead(true), Entered), true, Some(1), secret, secret, [], []);
    Step(s2, 1, 0); assert Next(s2, 1, false) == s3;
    Step(s2, 1, 1); assert Next(s3, 1, false).threads == TwoThreads(call, HasRead(true), HasRead(true));
  }

  lemma {:induction false} StepsAdd(s: State, t: nat, k: nat, l: nat)
    ensures Steps(Steps(s, t, k), t, l) == Steps(s, t, k + l)
  {
    hide Next;
    if l != 0 { StepsAdd(s, t, k, l - 1); }
  }

  lemma FirstInCall(call: Call, secret: int)
    requires call == PartialSign(true, true)
    ensures Steps(State(TwoThreads(call, HasRead(true), HasRead(true)), true, Some(1), secret, secret, [], []), 0, 5)
            == State(TwoThreads(call, InCall, HasRead(true)), false, None, secret, secret, [secret], [0])
  {
    var s0 := State(TwoThreads(call, HasRead(true), HasRead(true)), true, Some(1), secret, secret, [], []);
    var s1 := State(TwoThreads(call, HasCleared(true), HasRead(true)), false, Some(1), secret, secret, [], [0]);
    var s2 := State(TwoThreads(call, Released(true), HasRead(true)), false, None, secret, secret, [], [0]);
    Step(s0, 0, 0); assert Next(s0, 0, false) == s1;
    Step(s0, 0, 1); assert Next(s1, 0, false) == s2;
    hide Next, Steps;
    FirstCalls(call, secret);
    StepsAdd(s0, 0, 2, 3);
  }

  lemma FirstCalls(call: Call, secret: int)
    requires call == PartialSign(true, true)
    ensures Steps(State(TwoThreads(call, Released(true), HasRead(true)), false, None, secret, secret, [], [0]), 0, 3)
            == State(TwoThreads(call, InCall, HasRead(true)), false, None, secret, secret, [secret], [0])
  {
    var s2 := State(TwoThreads(call, Released(true), HasRead(true)), false, None, secret, secret, [], [0]);
    var s3 := State(TwoThreads(call, Building, HasRead(true)), false, None, secret, secret, [], [0]);
    var s4 := State(TwoThreads(call, Calling, HasRead(true)), false, None, secret, secret, [], [0]);
    Step(s2, 0, 0); assert Next(s2, 0, false) == s3;
    Step(s2, 0, 1); assert Next(s3, 0, false) == s4;
    Step(s2, 0, 2); assert Next(s4, 0, false).threads == TwoThreads(call, InCall, HasRead(true));
  }

  lemma SecondInCall(call: Call, secret: int)
    requires call == PartialSign(true, true)
    ensures var s := State(TwoThreads(call, InCall, HasRead(true)), false, None, secret, secret, [secret], [0]);
            Steps(s, 1, 5).handed == [secret, secret]
  {
    var s0 := State(TwoThreads(call, InCall, HasRead(true)), false, None, secret, secret, [secret], [0]);
    var s1 := State(TwoThreads(call, InCall, HasCleared(true)), false, None, secret, secret, [secret], [0, 1]);
    var s2 := State(TwoThreads(call, InCall, Released(true)), false, None, secret, secret, [secret], [0, 1]);
    Step(s0, 1, 0); assert Next(s0, 1, false) == s1;
    Step(s0, 1, 1); assert Next(s1, 1, false) == s2;
    hide Next, Steps;
    SecondCalls(call, secret);
    StepsAdd(s0, 1, 2, 3);
  }

  lemma SecondCalls(call: Call, secret: int)
    requires call == PartialSign(true, true)
    ensures var s := State(TwoThreads(call, InCall, Released(true)), false, None, secret, secret, [secret], [0, 1]);
            Steps(s, 1, 3).handed == [secret, secret]
  {
    var s2 := State(TwoThreads(call, InCall, Released(true)), false, None, secret, secret, [secret], [0, 1]);
    var s3 := State(TwoThreads(call, InCall, Building), false, None, secret, secret, [secret], [0, 1]);
    var s4 := State(TwoThreads(call, InCall, Calling), false, None, secret, secret, [secret], [0, 1]);
    Step(s2, 1, 0); assert Next(s2, 1, false) == s3;
    Step(s2, 1, 1); assert Next(s3, 1, false) == s4;
    Step(s2, 1, 2);
  }
}
