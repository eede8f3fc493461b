/** Any number of CI runners reserving spend at once, failures and kills included (`scripts/eval_budget.py`). */
module SpendRunners {
  import opened SpendLedger

  datatype Outcome = Reserved(id: string, total: Amount) | Refused | InvalidAmount

  /** Where a runner is. From `Entered` to `Aborting` it has created the lock file and not yet
      removed it; a killed runner leaves it behind. */
  datatype Phase =
    | Spinning
    | Entered
    | HasRead(seen: Ledger)
    | Writing(next: Ledger, result: Outcome)
    | TempOpen(next: Ledger, result: Outcome)
    | TempWritten(next: Ledger, result: Outcome)
    | Replaced(result: Outcome)
    | Aborting
    | Done(outcome: Outcome)
    | Killed(holding: bool)

  datatype Runner = Runner(amount: Amount, month: string, phase: Phase)

  datatype TempFile = NoFile | Partial | Complete(content: Ledger)

  datatype System = System(runners: seq<Runner>, lock: bool, temp: TempFile, ledger: Ledger)

  /** The gate before the lock: a negative amount, or one over the per-run cap, goes no further. What
      is not a number is neither. */
  function Arrive(amount: Amount, month: string): Runner {
    Runner(amount, month,
           if amount.Finite? && amount.value < 0.0 then Done(InvalidAmount)
           else if Exceeds(amount, CI_EVAL_PER_RUN_CAP_USD) then Done(Refused)
           else Spinning)
  }

  datatype Move = TryLock | TimeOut | Read | Check | OpenTemp | WriteTemp | Replace | Release | Fail | Kill

  predicate Holding(phase: Phase) {
    match phase
    case Spinning => false
    case Done(_) => false
    case Killed(holding) => holding
    case _ => true
  }

  predicate Enabled(s: System, i: nat, move: Move)
    requires i < |s.runners|
  {
    var phase := s.runners[i].phase;
    match move
    case TryLock => phase.Spinning?
    case TimeOut => phase.Spinning? && s.lock
    case Read => phase.Entered?
    case Check => phase.HasRead?
    case OpenTemp => phase.Writing?
    case WriteTemp => phase.TempOpen?
    case Replace => phase.TempWritten?
    case Release => phase.Replaced? || phase.Aborting?
    case Fail => phase.Entered? || phase.HasRead? || phase.Writing? || phase.TempOpen? || phase.TempWritten?
    case Kill => !phase.Killed? && !phase.Done?
  }

  function At(s: System, i: nat, phase: Phase): System
    requires i < |s.runners|
  {
    s.(runners := s.runners[i := s.runners[i].(phase := phase)])
  }

  /** The gate under the lock: over the monthly cap refuses, otherwise the new ledger is made. */
  function Checked(r: Runner, seen: Ledger): Phase {
    if !Fits(seen, r.month, r.amount) then Aborting
    else Writing(Recorded(seen, r.month, r.amount),
                 Reserved(NextId(r.month, MonthOf(seen, r.month)), Prospective(seen, r.month, r.amount)))
  }

  function Step(s: System, i: nat, move: Move): System
    requires i < |s.runners| && Enabled(s, i, move)
  {
    var r := s.runners[i];
    match move
    case TryLock => if s.lock then s else At(s, i, Entered).(lock := true)
    case TimeOut => At(s, i, Done(Refused))
    case Read => At(s, i, HasRead(s.ledger))
    case Check => At(s, i, Checked(r, r.phase.seen))
    case OpenTemp => At(s, i, TempOpen(r.phase.next, r.phase.result)).(temp := Partial)
    case WriteTemp => At(s, i, TempWritten(r.phase.next, r.phase.result)).(temp := Complete(r.phase.next))
    case Replace =>
      At(s, i, Replaced(r.phase.result)).(
        ledger := if s.temp.Complete? then s.temp.content else s.ledger, temp := NoFile)
    case Release => At(s, i, Done(if r.phase.Replaced? then r.phase.result else Refused)).(lock := false)
    case Fail => At(s, i, Aborting)
    case Kill => At(s, i, Killed(Holding(r.phase)))
  }

  // ---------------------------------------------------------------------
  // The invariant
  // ---------------------------------------------------------------------

  /** What a runner believes about the shared files is so. */
  predicate RunnerKept(s: System, r: Runner) {
    match r.phase
    case HasRead(seen) => seen == s.ledger
    case Writing(next, result) => Proposed(s.ledger, r, next, result)
    case TempOpen(next, result) => Proposed(s.ledger, r, next, result)
    case TempWritten(next, result) => Proposed(s.ledger, r, next, result) && s.temp == Complete(next)
    case Replaced(result) => Reported(s.ledger, r, result)
    case Done(outcome) => Reported(s.ledger, r, outcome)
    case _ => true
  }

  predicate Proposed(ledger: Ledger, r: Runner, next: Ledger, result: Outcome) {
    && Fits(ledger, r.month, r.amount) && next == Recorded(ledger, r.month, r.amount)
    && result == Reserved(NextId(r.month, MonthOf(ledger, r.month)), Prospective(ledger, r.month, r.amount))
  }

  /** A reservation reported to a runner is in the ledger, for its amount. */
  predicate Reported(ledger: Ledger, r: Runner, result: Outcome) {
    result.Reserved? ==> Holds(ledger, r.month, Reservation(result.id, r.amount))
  }

  /** At most one runner has the lock file, and the lock file is there exactly when one does. */
  predicate Exclusive(s: System) {
    && (forall i, j | 0 <= i < j < |s.runners| :: !(Holding(s.runners[i].phase) && Holding(s.runners[j].phase)))
    && (s.lock <==> exists i | 0 <= i < |s.runners| :: Holding(s.runners[i].phase))
  }

  predicate Kept(s: System) {
    && LedgerKept(s.ledger) && Exclusive(s)
    && forall i | 0 <= i < |s.runners| :: RunnerKept(s, s.runners[i])
  }

  predicate Initial(s: System) {
    && LedgerKept(s.ledger) && !s.lock
    && forall i | 0 <= i < |s.runners| :: s.runners[i] == Arrive(s.runners[i].amount, s.runners[i].month)
  }

  lemma {:induction false} InitialKept(s: System)
    requires Initial(s)
    ensures Kept(s)
  {
    hide LedgerKept;
    forall i | 0 <= i < |s.runners| ensures RunnerKept(s, s.runners[i]) && !Holding(s.runners[i].phase) {
      assert s.runners[i] == Arrive(s.runners[i].amount, s.runners[i].month);
    }
  }

  /** The moves that touch the shared files are made with the lock file in hand; only the
      replacement touches the ledger. */
  lemma {:induction false} OthersSeeNoChange(s: System, i: nat, move: Move)
    requires i < |s.runners| && Enabled(s, i, move)
    ensures !Holding(s.runners[i].phase) ==> Step(s, i, move).ledger == s.ledger && Step(s, i, move).temp == s.temp
    ensures move != Replace ==> Step(s, i, move).ledger == s.ledger
  {
    hide Checked;
  }

  lemma {:induction false} StepExclusive(s: System, i: nat, move: Move)
    requires i < |s.runners| && Enabled(s, i, move) && Exclusive(s)
    ensures Exclusive(Step(s, i, move))
  {
    hide Checked;
    var t := Step(s, i, move);
    assert forall j | 0 <= j < |s.runners| && j != i :: t.runners[j] == s.runners[j];
    assert Holding(s.runners[i].phase) ==> s.lock;
    HoldingAfter(s, i, move);
    if t.lock {
      if Holding(t.runners[i].phase) {
      } else {
        assert s.lock && !Holding(s.runners[i].phase);
        var j :| 0 <= j < |s.runners| && Holding(s.runners[j].phase);
        assert Holding(t.runners[j].phase);
      }
    }
  }

  /** A runner comes to hold the lock only by creating it, and stops only by removing it. */
  lemma {:induction false} HoldingAfter(s: System, i: nat, move: Move)
    requires i < |s.runners| && Enabled(s, i, move)
    ensures var t := Step(s, i, move);
            && |t.runners| == |s.runners|
            && (Holding(t.runners[i].phase)
              <==> (Holding(s.runners[i].phase) && move != Release) || (move == TryLock && !s.lock))
            && t.lock == (if move == TryLock then true else if move == Release then false else s.lock)
  {
    CheckedHolds(s.runners[i], s.ledger);
    if s.runners[i].phase.HasRead? { CheckedHolds(s.runners[i], s.runners[i].phase.seen); }
    hide Checked;
  }

  lemma {:induction false} CheckedHolds(r: Runner, seen: Ledger)
    ensures Holding(Checked(r, seen))
  {
  }

  lemma {:induction false} StepLedgerKept(s: System, i: nat, move: Move)
    requires i < |s.runners| && Enabled(s, i, move) && Kept(s)
    ensures LedgerKept(Step(s, i, move).ledger)
  {
    hide LedgerKept, Recorded, Fits;
    OthersSeeNoChange(s, i, move);
    var r := s.runners[i];
    assert RunnerKept(s, r);
    if move == Replace { RecordedKept(s.ledger, r.month, r.amount); }
  }

  /** The runner that moved still believes what is so. */
  lemma {:induction false} MoverKept(s: System, i: nat, move: Move)
    requires i < |s.runners| && Enabled(s, i, move) && RunnerKept(s, s.runners[i])
    ensures RunnerKept(Step(s, i, move), Step(s, i, move).runners[i])
  {
    hide Recorded, Fits, NextId, Prospective, Holds, MonthOf;
    var r := s.runners[i];
    RecordedAdds(s.ledger, r.month, r.amount);
  }

  /** So do all the others: while one holds the lock nobody else changes a file, and recorded
      reservations stay. */
  lemma {:induction false} OtherKept(s: System, i: nat, move: Move, j: nat)
    requires i < |s.runners| && j < |s.runners| && i != j && Enabled(s, i, move) && Kept(s)
    ensures RunnerKept(Step(s, i, move), Step(s, i, move).runners[j])
  {
    hide Recorded, Fits, NextId, Prospective, MonthOf, LedgerKept, Holds, Checked;
    var t, r, other := Step(s, i, move), s.runners[i], s.runners[j];
    assert t.runners[j] == other && RunnerKept(s, other) && RunnerKept(s, r);
    OthersSeeNoChange(s, i, move);
    if Holding(other.phase) {
      assert !Holding(r.phase) by { OnlyOne(s, i, j); }
    } else if move == Replace && other.phase.Done? && other.phase.outcome.Reserved? {
      RecordedHolds(s.ledger, r.month, r.amount, other.month, Reservation(other.phase.outcome.id, other.amount));
    }
  }

  lemma {:induction false} OnlyOne(s: System, i: nat, j: nat)
    requires Exclusive(s) && i < |s.runners| && j < |s.runners| && i != j && Holding(s.runners[j].phase)
    ensures !Holding(s.runners[i].phase)
  {
    if i < j {} else {}
  }

  lemma {:induction false} StepKept(s: System, i: nat, move: Move)
    requires i < |s.runners| && Enabled(s, i, move) && Kept(s)
    ensures Kept(Step(s, i, move)) && |Step(s, i, move).runners| == |s.runners|
  {
    HoldingAfter(s, i, move);
    StepLedgerKept(s, i, move);
    StepExclusive(s, i, move);
    hide LedgerKept, Exclusive, RunnerKept, Step;
    forall j | 0 <= j < |s.runners| ensures RunnerKept(Step(s, i, move), Step(s, i, move).runners[j]) {
      if j == i { MoverKept(s, i, move); } else { OtherKept(s, i, move, j); }
    }
  }

  // ---------------------------------------------------------------------
  // Whole runs
  // ---------------------------------------------------------------------

  datatype Action = Action(runner: nat, move: Move)

  /** A run: any interleaving of enabled moves from an initial system. */
  ghost predicate Run(states: seq<System>, actions: seq<Action>) {
    && |states| == |actions| + 1 && Initial(states[0])
    && forall k | 0 <= k < |actions| :: Took(states, actions, k)
  }

  ghost predicate Took(states: seq<System>, actions: seq<Action>, k: nat)
    requires k < |actions| && k + 1 < |states|
  {
    && actions[k].runner < |states[k].runners| && Enabled(states[k], actions[k].runner, actions[k].move)
    && states[k + 1] == Step(states[k], actions[k].runner, actions[k].move)
  }

  /** Throughout any run the ledger is kept, one runner at most holds the lock, and every
      reservation reported is recorded. */
  lemma {:induction false} RunKept(states: seq<System>, actions: seq<Action>, k: nat)
    requires Run(states, actions) && k <= |actions|
    ensures Kept(states[k])
  {
    hide Kept, Initial;
    if k == 0 {
      InitialKept(states[0]);
    } else {
      RunKept(states, actions, k - 1);
      assert Took(states, actions, k - 1);
      StepKept(states[k - 1], actions[k - 1].runner, actions[k - 1].move);
    }
  }

  /** Mutual exclusion, the caps and the sums, said of every reachable state: a month's total is what
      it should be exactly when no amount that is not a number was reserved in it. */
  lemma {:induction false} SpendIsSafe(states: seq<System>, actions: seq<Action>, k: nat)
    requires Run(states, actions) && k <= |actions|
    ensures forall i, j | 0 <= i < j < |states[k].runners| ::
      !(Holding(states[k].runners[i].phase) && Holding(states[k].runners[j].phase))
    ensures forall month | month in states[k].ledger ::
      Sound(states[k].ledger[month]) <==> AllFinite(states[k].ledger[month].reservations)
    ensures forall i | 0 <= i < |states[k].runners| ::
      states[k].runners[i].phase.Done?
      ==> Reported(states[k].ledger, states[k].runners[i], states[k].runners[i].phase.outcome)
  {
    RunKept(states, actions, k);
    hide Reported, Sound, AllFinite, Holding, MonthKept;
    forall month | month in states[k].ledger
      ensures Sound(states[k].ledger[month]) <==> AllFinite(states[k].ledger[month].reservations)
    {
      SoundExactly(month, states[k].ledger[month]);
    }
  }

  // ---------------------------------------------------------------------
  // A run past the cap
  // ---------------------------------------------------------------------

  /** One more move at the end of a run. */
  lemma {:induction false} Extend(states: seq<System>, actions: seq<Action>, i: nat, move: Move)
    requires Run(states, actions) && i < |states[|actions|].runners| && Enabled(states[|actions|], i, move)
    ensures Run(states + [Step(states[|actions|], i, move)], actions + [Action(i, move)])
  {
    hide Initial, Step, Enabled;
    var more, moves := states + [Step(states[|actions|], i, move)], actions + [Action(i, move)];
    forall k | 0 <= k < |moves| ensures Took(more, moves, k) {
      if k < |actions| { assert Took(states, actions, k) && more[k] == states[k] && more[k + 1] == states[k + 1]; }
    }
  }

  /** A runner that has the lock to itself, and whose amount fits, reserves it. */
  lemma {:induction false} ReservesAlone(states: seq<System>, actions: seq<Action>, i: nat)
    returns (more: seq<System>, moves: seq<Action>)
    requires Run(states, actions) && i < |states[|actions|].runners|
    requires var s := states[|actions|]; var r := s.runners[i];
             !s.lock && r.phase == Spinning && Fits(s.ledger, r.month, r.amount)
    ensures Run(more, moves) && |more| == |moves| + 1 && more[0] == states[0]
    ensures var s, t := states[|actions|], more[|moves|];
            && t.ledger == Recorded(s.ledger, s.runners[i].month, s.runners[i].amount) && !t.lock
            && |t.runners| == |s.runners| && (forall j | 0 <= j < |s.runners| && j != i :: t.runners[j] == s.runners[j])
            && t.runners[i].phase == Done(Granted(s.ledger, s.runners[i]))
  {
    more, moves := states, actions;
    assert |states| == |actions| + 1;
    hide Run, Recorded, Fits, NextId, Prospective, MonthOf;
    var path := [TryLock, Read, Check, OpenTemp, WriteTemp, Replace, Release];
    var s := states[|actions|];
    for k := 0 to |path|
      invariant Run(more, moves) && |more| == |moves| + 1 && more[0] == states[0]
      invariant OnTheWay(s, i, k, more[|moves|])
    {
      var now := more[|moves|];
      assert Enabled(now, i, path[k]);
      Extend(more, moves, i, path[k]);
      more, moves := more + [Step(now, i, path[k])], moves + [Action(i, path[k])];
    }
  }

  /** What a runner is told whose amount fits. */
  function Granted(ledger: Ledger, r: Runner): Outcome {
    Reserved(NextId(r.month, MonthOf(ledger, r.month)), Prospective(ledger, r.month, r.amount))
  }

  /** Where a runner alone stands after its first `k` moves. */
  predicate OnTheWay(s: System, i: nat, k: nat, now: System)
    requires i < |s.runners|
  {
    var r := s.runners[i];
    var next := Recorded(s.ledger, r.month, r.amount);
    && |now.runners| == |s.runners| && (forall j | 0 <= j < |s.runners| && j != i :: now.runners[j] == s.runners[j])
    && now.runners[i].month == r.month && now.runners[i].amount == r.amount
    && now.lock == (0 < k < 7) && now.ledger == (if k < 6 then s.ledger else next)
    && var phase := now.runners[i].phase;
       match k
       case 0 => phase == Spinning
       case 1 => phase == Entered
       case 2 => phase == HasRead(s.ledger)
       case 3 => phase == Writing(next, Granted(s.ledger, r))
       case 4 => phase == TempOpen(next, Granted(s.ledger, r))
       case 5 => phase == TempWritten(next, Granted(s.ledger, r)) && now.temp == Complete(next)
       case 6 => phase == Replaced(Granted(s.ledger, r))
       case _ => phase == Done(Granted(s.ledger, r))
  }

  /** Runners waiting, from `from` on, each with a full run's cost. */
  predicate Waiting(runners: seq<Runner>, from: nat, month: string) {
    forall i | from <= i < |runners| :: runners[i] == Runner(Finite(CI_EVAL_PER_RUN_CAP_USD), month, Spinning)
  }

  lemma {:induction false} OnlyStart(start: System, month: string)
    requires start.ledger == map[] && !start.lock && |start.runners| > 0
    requires start.runners[0] == Runner(NaN, month, Spinning) && Waiting(start.runners, 1, month)
    ensures Run([start], [])
  {
  }

  lemma {:induction false} FirstIsNaN(month: string)
    ensures Fits(map[], month, NaN)
    ensures var entry := MonthOf(Recorded(map[], month, NaN), month);
            month in Recorded(map[], month, NaN) && entry.reserved == NaN && Sum(entry.reservations) == 0.0
  {
    var all := [Reservation(NextId(month, NO_SPEND), NaN)];
    assert all[..0] == [] && [] + all == all;
  }

  lemma {:induction false} OneMoreGranted(ledger: Ledger, month: string, amount: real)
    requires month in ledger
    ensures month in Recorded(ledger, month, Finite(amount))
    ensures Sum(Recorded(ledger, month, Finite(amount))[month].reservations) == Sum(ledger[month].reservations) + amount
  {
    hide NextId, Prospective;
    var all := Recorded(ledger, month, Finite(amount))[month].reservations;
    assert all[..|all| - 1] == ledger[month].reservations;
  }

  /** An input on which the cap fails: a first runner reserves what is not a number, and after it any
      number of runners are granted the per-run cap each, in one month. */
  lemma {:induction false} NotANumberLiftsTheCap(start: System, month: string, n: nat)
      returns (states: seq<System>, actions: seq<Action>)
    requires start.ledger == map[] && !start.lock && |start.runners| > n
    requires start.runners[0] == Runner(NaN, month, Spinning) && Waiting(start.runners, 1, month)
    ensures Run(states, actions) && |states| == |actions| + 1 && states[0] == start
    ensures var s := states[|actions|];
            && month in s.ledger && s.ledger[month].reserved == NaN
              && Sum(s.ledger[month].reservations) == CI_EVAL_PER_RUN_CAP_USD * n as real
            && !s.lock && |s.runners| == |start.runners| && Waiting(s.runners, n + 1, month)
  {
    hide Run;
    if n == 0 {
      OnlyStart(start, month);
      FirstIsNaN(month);
      states, actions := ReservesAlone([start], [], 0);
    } else {
      states, actions := NotANumberLiftsTheCap(start, month, n - 1);
      var s := states[|actions|];
      NothingIsRefused(s.ledger, month, Finite(CI_EVAL_PER_RUN_CAP_USD));
      OneMoreGranted(s.ledger, month, CI_EVAL_PER_RUN_CAP_USD);
      states, actions := ReservesAlone(states, actions, n);
    }
  }

  // ---------------------------------------------------------------------
  // A lock left behind
  // ---------------------------------------------------------------------

  lemma {:induction false} StaleLockHolds(s: System, dead: nat, i: nat, move: Move)
    requires Kept(s) && dead < |s.runners| && s.runners[dead].phase == Killed(true)
    requires i < |s.runners| && Enabled(s, i, move)
    ensures var t := Step(s, i, move);
            && t.ledger == s.ledger && t.lock && s.lock && |t.runners| == |s.runners|
              && t.runners[dead] == s.runners[dead]
  {
    assert i != dead;
    OnlyOne(s, i, dead);
    HoldingAfter(s, i, move);
    OthersSeeNoChange(s, i, move);
    hide Checked;
  }

  /** A runner killed with the lock in hand freezes the ledger for good: however the run goes on, the
      lock stays and the ledger is what it was. */
  lemma {:induction false} StaleLockFreezes(states: seq<System>, actions: seq<Action>, j: nat, k: nat, dead: nat)
    requires Run(states, actions) && j <= k <= |actions|
    requires dead < |states[j].runners| && states[j].runners[dead].phase == Killed(true)
    ensures states[k].lock && states[k].ledger == states[j].ledger
    ensures dead < |states[k].runners| && states[k].runners[dead] == states[j].runners[dead]
    decreases k
  {
    RunKept(states, actions, k);
    if j == k {
      assert Holding(states[j].runners[dead].phase);
    } else {
      StaleLockFreezes(states, actions, j, k - 1, dead);
      RunKept(states, actions, k - 1);
      assert Took(states, actions, k - 1);
      hide Kept, Step, Enabled, Initial;
      StaleLockHolds(states[k - 1], dead, actions[k - 1].runner, actions[k - 1].move);
    }
  }
}
