/** Which spend is let through: the two caps, to the cent (`reserve_ci_eval_spend`,
    `scripts/eval_budget.py`). Safety alone would hold of a ledger that refuses everything;
    this is the other half, what is granted, what is recorded for it, and what a runner that
    fails or is killed leaves behind. */
module SpendGrants {
  import opened Prelude
  import opened SpendLedger
  import opened SpendRunners

  /** Rounding goes to the nearest whole number, and from halfway to the even one. */
  lemma {:induction false} RoundsToNearest(x: real, n: int)
    ensures RoundHalfEven(x) == n
      <==> (-0.5 < n as real - x < 0.5 || ((n as real - x == 0.5 || n as real - x == -0.5) && n % 2 == 0))
  {
    var low := x.Floor;
    if -0.5 <= n as real - x <= 0.5 { assert n == low || n == low + 1; }
  }

  /** What a runner brings passes the first gate exactly when it is no negative amount and is not over the
      per-run cap; what is not a number passes. */
  lemma {:induction false} ArrivesExactly(amount: Amount, month: string)
    ensures Arrive(amount, month).amount == amount && Arrive(amount, month).month == month
    ensures var phase := Arrive(amount, month).phase;
            match amount
            case NaN => phase == Spinning
            case Finite(v) =>
              phase == if v < 0.0 then Done(InvalidAmount) else if v <= 200.0 then Spinning else Done(Refused)
  {
  }

  /** It passes the monthly cap exactly when the month's total with it is no more than half a cent over a
      thousand dollars; or one of the two is not a number. */
  lemma {:induction false} FitsExactly(ledger: Ledger, month: string, amount: Amount)
    ensures var total := MonthOf(ledger, month).reserved;
            Fits(ledger, month, amount)
            <==> (total.Finite? && amount.Finite? ==> total.value + amount.value <= 1000.005)
  {
    var total := MonthOf(ledger, month).reserved;
    if total.Finite? && amount.Finite? {
      var x := (total.value + amount.value) * 100.0;
      RoundsToNearest(x, RoundHalfEven(x));
      RoundMonotone(x);
    }
  }

  lemma {:induction false} RoundMonotone(x: real)
    ensures RoundHalfEven(x) <= 100000 <==> x <= 100000.5
  {
  }

  /** Where everything is in whole cents, it passes exactly when what was reserved in the month, and it, come to
      no more than a thousand dollars. */
  lemma {:induction false} FitsByReservations(ledger: Ledger, month: string, amount: real)
    requires Sound(MonthOf(ledger, month)) && AllWholeCents(MonthOf(ledger, month).reservations) && WholeCents(amount)
    ensures Fits(ledger, month, Finite(amount)) <==> Sum(MonthOf(ledger, month).reservations) + amount <= 1000.0
  {
    var total := MonthOf(ledger, month).reserved.value;
    ExactAddition(total, amount);
  }

  /** Under the lock a runner that fits goes on to write the ledger with its reservation in it; any other gives
      up, is told no, and leaves the ledger as it was. */
  lemma {:induction false} CheckedExactly(s: System, i: nat)
    requires i < |s.runners| && s.runners[i].phase.HasRead?
    ensures var r, t := s.runners[i], Step(s, i, Check);
            && t.ledger == s.ledger && t.lock == s.lock && |t.runners| == |s.runners|
            && (t.runners[i].phase
                == if Fits(r.phase.seen, r.month, r.amount)
                   then Writing(Recorded(r.phase.seen, r.month, r.amount), Granted(r.phase.seen, r))
                   else Aborting)
            && (t.runners[i].phase == Aborting ==>
                  Step(t, i, Release).runners[i].phase == Done(Refused) && Step(t, i, Release).ledger == s.ledger)
  {
  }

  /** A recorded reservation is behind all that were there, under the next number; the rest of the ledger is as
      it was. */
  lemma {:induction false} RecordedExactly(ledger: Ledger, month: string, amount: Amount)
    ensures var now, before := Recorded(ledger, month, amount), MonthOf(ledger, month);
            && now.Keys == ledger.Keys + {month}
              && (forall other | other in ledger && other != month :: now[other] == ledger[other])
            && |now[month].reservations| == |before.reservations| + 1
            && now[month].reservations[..|before.reservations|] == before.reservations
            && now[month].reservations[|before.reservations|]
              == Reservation(month + "-" + Padded(|before.reservations| + 1, 4), amount)
            && (now[month].reserved.Finite? <==> before.reserved.Finite? && amount.Finite?)
            && (now[month].reserved.Finite? ==>
                  -0.005 <= now[month].reserved.value - (before.reserved.value + amount.value) <= 0.005)
  {
    var before := MonthOf(ledger, month);
    if before.reserved.Finite? && amount.Finite? { RoundedIsWhole(before.reserved.value + amount.value); }
  }

  /** A runner that has entered and not yet replaced the file may fail at any moment: it is then told no, the lock
      goes, and the ledger is as it was. */
  lemma {:induction false} FailureReleases(s: System, i: nat)
    requires i < |s.runners| && Holding(s.runners[i].phase) && !s.runners[i].phase.Killed?
    requires !s.runners[i].phase.Replaced? && !s.runners[i].phase.Aborting?
    ensures Enabled(s, i, Fail) && Enabled(Step(s, i, Fail), i, Release)
    ensures var t := Step(Step(s, i, Fail), i, Release);
            t.runners[i].phase == Done(Refused) && !t.lock && t.ledger == s.ledger && t.temp == s.temp
  {
  }

  /** A runner still waiting gives up only while somebody has the lock file; killed, a runner leaves the file
      behind exactly when it had created it, and one that is done cannot be. */
  lemma {:induction false} WaitingAndKilled(s: System, i: nat)
    requires i < |s.runners|
    ensures Enabled(s, i, TimeOut) <==> s.runners[i].phase == Spinning && s.lock
    ensures Enabled(s, i, Kill) <==> !s.runners[i].phase.Killed? && !s.runners[i].phase.Done?
    ensures Enabled(s, i, Kill) ==>
      var t := Step(s, i, Kill);
      t.lock == s.lock && t.ledger == s.ledger && t.runners[i].phase == Killed(Holding(s.runners[i].phase))
  {
  }
}
