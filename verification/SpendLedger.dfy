/** The CI evaluation ledger, and one reservation against its two caps (`scripts/eval_budget.py`). */
module SpendLedger {
  import opened Prelude

  const CI_EVAL_PER_RUN_CAP_USD := 200.00
  const CI_EVAL_MONTHLY_CAP_USD := 1000.00

  // ---------------------------------------------------------------------
  // Cents
  // ---------------------------------------------------------------------

  /** The nearest whole number; halfway goes to the even one. */
  function RoundHalfEven(x: real): int {
    var low := x.Floor;
    var rest := x - low as real;
    if rest < 0.5 then low
    else if rest > 0.5 then low + 1
    else if low % 2 == 0 then low else low + 1
  }

  /** `round(x, 2)`. */
  function Round2(x: real): real {
    RoundHalfEven(x * 100.0) as real / 100.0
  }

  predicate WholeCents(x: real) {
    (x * 100.0).Floor as real == x * 100.0
  }

  lemma {:induction false} RoundNear(x: real)
    ensures -0.5 <= RoundHalfEven(x) as real - x <= 0.5
  {
  }

  lemma {:induction false} RoundedIsWhole(x: real)
    ensures WholeCents(Round2(x))
    ensures -0.005 <= Round2(x) - x <= 0.005
  {
    var n := RoundHalfEven(x * 100.0);
    RoundNear(x * 100.0);
    assert Round2(x) * 100.0 == n as real;
    assert (n as real).Floor == n;
  }

  /** Rounding leaves a sum alone exactly when it is a whole number of cents. */
  lemma {:induction false} RoundKeeps(x: real)
    ensures Round2(x) == x <==> WholeCents(x)
  {
    RoundedIsWhole(x);
    if WholeCents(x) {
      var n := (x * 100.0).Floor;
      assert x * 100.0 == n as real;
      assert RoundHalfEven(x * 100.0) == n;
    }
  }

  lemma {:induction false} WholeSum(a: real, b: real)
    requires WholeCents(a)
    ensures WholeCents(a + b) <==> WholeCents(b)
  {
    var m := (a * 100.0).Floor;
    assert (a + b) * 100.0 == m as real + b * 100.0;
    assert (m as real + b * 100.0).Floor == m + (b * 100.0).Floor;
  }

  /** An addition to a total in cents is recorded exactly when it is itself in whole cents. */
  lemma {:induction false} ExactAddition(total: real, amount: real)
    requires WholeCents(total)
    ensures Round2(total + amount) == total + amount <==> WholeCents(amount)
  {
    RoundKeeps(total + amount);
    WholeSum(total, amount);
  }

  /** Less than half a cent never moves the total, however often it is reserved. */
  lemma {:induction false} SubCentIsLost(total: real, amount: real)
    requires WholeCents(total) && 0.0 <= amount < 0.005
    ensures Round2(total + amount) == total
  {
    var m := (total * 100.0).Floor;
    var x := (total + amount) * 100.0;
    assert x == m as real + amount * 100.0;
    assert x.Floor == m;
  }

  // ---------------------------------------------------------------------
  // The ledger
  // ---------------------------------------------------------------------

  /** A float, as far as the gates tell floats apart: an infinite amount is refused by the first of
      them, so none is ever recorded. */
  datatype Amount = Finite(value: real) | NaN

  function Plus(a: Amount, b: Amount): Amount {
    if a.Finite? && b.Finite? then Finite(a.value + b.value) else NaN
  }

  function Rounded(a: Amount): Amount {
    if a.Finite? then Finite(Round2(a.value)) else NaN
  }

  /** `a > cap`, which nothing that is not a number satisfies. */
  predicate Exceeds(a: Amount, cap: real) {
    a.Finite? && a.value > cap
  }

  datatype Reservation = Reservation(id: string, amount: Amount)

  datatype Month = Month(reserved: Amount, reservations: seq<Reservation>)

  type Ledger = map<string, Month>

  const NO_SPEND: Month := Month(Finite(0.0), [])

  /** `months.setdefault(key, ...)`. */
  function MonthOf(ledger: Ledger, month: string): Month {
    if month in ledger then ledger[month] else NO_SPEND
  }

  /** The id of the next reservation of a month. */
  function NextId(month: string, entry: Month): string {
    month + "-" + Padded(|entry.reservations| + 1, 4)
  }

  function Prospective(ledger: Ledger, month: string, amount: Amount): Amount {
    Rounded(Plus(MonthOf(ledger, month).reserved, amount))
  }

  predicate Fits(ledger: Ledger, month: string, amount: Amount) {
    !Exceeds(Prospective(ledger, month, amount), CI_EVAL_MONTHLY_CAP_USD)
  }

  /** The ledger with one more reservation in the month. */
  function Recorded(ledger: Ledger, month: string, amount: Amount): Ledger {
    var entry := MonthOf(ledger, month);
    ledger[month := Month(Prospective(ledger, month, amount),
                          entry.reservations + [Reservation(NextId(month, entry), amount)])]
  }

  /** What the reservations that are numbers add up to. */
  function Sum(reservations: seq<Reservation>): real {
    if reservations == [] then 0.0
    else
      var last := reservations[|reservations| - 1].amount;
      Sum(reservations[..|reservations| - 1]) + (if last.Finite? then last.value else 0.0)
  }

  predicate AllFinite(reservations: seq<Reservation>) {
    forall i | 0 <= i < |reservations| :: reservations[i].amount.Finite?
  }

  predicate AllWholeCents(reservations: seq<Reservation>)
    requires AllFinite(reservations)
  {
    forall i | 0 <= i < |reservations| :: WholeCents(reservations[i].amount.value)
  }

  /** The month's total is what it should be: in cents, within the cap, the sum of its reservations
      whenever those are in whole cents and never further from it than half a cent for each. */
  predicate Sound(entry: Month) {
    && entry.reserved.Finite? && AllFinite(entry.reservations)
    && WholeCents(entry.reserved.value) && entry.reserved.value <= CI_EVAL_MONTHLY_CAP_USD
    && (AllWholeCents(entry.reservations) ==> entry.reserved.value == Sum(entry.reservations))
    && Drift(entry.reserved.value, entry.reservations) <= 0.005 * |entry.reservations| as real
  }

  /** What holds of every month: it is sound, or something that is not a number was reserved in it and
      its total is not a number either; and its ids are numbered from one. */
  predicate MonthKept(month: string, entry: Month) {
    && (if AllFinite(entry.reservations) then Sound(entry) else entry.reserved == NaN)
    && forall i | 0 <= i < |entry.reservations| :: entry.reservations[i].id == month + "-" + Padded(i + 1, 4)
  }

  /** How far the recorded total is from what was reserved. */
  function Drift(total: real, reservations: seq<Reservation>): real {
    var d := total - Sum(reservations);
    if d < 0.0 then -d else d
  }

  predicate LedgerKept(ledger: Ledger) {
    forall month | month in ledger :: MonthKept(month, ledger[month])
  }

  lemma {:induction false} NoSpendKept(month: string)
    ensures MonthKept(month, NO_SPEND)
  {
    assert (0.0 * 100.0).Floor == 0;
  }

  function Grown(month: string, entry: Month, amount: Amount): Month {
    Month(Rounded(Plus(entry.reserved, amount)), entry.reservations + [Reservation(NextId(month, entry), amount)])
  }

  /** A sound month stays sound with an amount that fits. */
  lemma {:induction false} SoundGrows(month: string, entry: Month, amount: real)
    requires Sound(entry) && Round2(entry.reserved.value + amount) <= CI_EVAL_MONTHLY_CAP_USD
    ensures Sound(Grown(month, entry, Finite(amount)))
  {
    hide WholeCents, Round2, Padded;
    var all := entry.reservations + [Reservation(NextId(month, entry), Finite(amount))];
    assert all[..|all| - 1] == entry.reservations;
    assert Sum(all) == Sum(entry.reservations) + amount;
    RoundedIsWhole(entry.reserved.value + amount);
    ExactAddition(entry.reserved.value, amount);
    if AllWholeCents(all) {
      assert WholeCents(all[|all| - 1].amount.value);
      assert forall i | 0 <= i < |entry.reservations| :: entry.reservations[i] == all[i];
    }
  }

  lemma {:induction false} MonthGrows(month: string, entry: Month, amount: Amount)
    requires MonthKept(month, entry) && !Exceeds(Rounded(Plus(entry.reserved, amount)), CI_EVAL_MONTHLY_CAP_USD)
    ensures MonthKept(month, Grown(month, entry, amount))
  {
    hide Sound, Round2, Padded;
    var all := entry.reservations + [Reservation(NextId(month, entry), amount)];
    assert forall i | 0 <= i < |entry.reservations| :: entry.reservations[i] == all[i];
    assert all[|all| - 1].amount == amount;
    if AllFinite(entry.reservations) {
      assert entry.reserved.Finite? by { TotalIsFinite(entry); }
      if amount.Finite? { SoundGrows(month, entry, amount.value); }
    }
  }

  lemma {:induction false} TotalIsFinite(entry: Month)
    requires Sound(entry)
    ensures entry.reserved.Finite? && entry.reserved.value <= CI_EVAL_MONTHLY_CAP_USD
  {
  }

  /** A reservation within the cap keeps the ledger. */
  lemma {:induction false} RecordedKept(ledger: Ledger, month: string, amount: Amount)
    requires LedgerKept(ledger) && Fits(ledger, month, amount)
    ensures LedgerKept(Recorded(ledger, month, amount))
  {
    hide MonthKept;
    NoSpendKept(month);
    MonthGrows(month, MonthOf(ledger, month), amount);
  }

  /** The total is a number within the cap, and all that it should be, exactly when no amount that is
      not a number was reserved in the month. */
  lemma {:induction false} SoundExactly(month: string, entry: Month)
    requires MonthKept(month, entry)
    ensures Sound(entry) <==> AllFinite(entry.reservations)
    ensures entry.reserved.Finite? && entry.reserved.value <= CI_EVAL_MONTHLY_CAP_USD <==> AllFinite(entry.reservations)
  {
    if Sound(entry) { TotalIsFinite(entry); }
  }

  /** Once the total is not a number, nothing is ever refused in that month. */
  lemma {:induction false} NothingIsRefused(ledger: Ledger, month: string, amount: Amount)
    requires MonthOf(ledger, month).reserved == NaN
    ensures Fits(ledger, month, amount) && MonthOf(Recorded(ledger, month, amount), month).reserved == NaN
  {
  }

  /** Ids within a month are all different. */
  lemma {:induction false} IdsDistinct(month: string, entry: Month, i: nat, j: nat)
    requires MonthKept(month, entry) && i < j < |entry.reservations|
    ensures entry.reservations[i].id != entry.reservations[j].id
  {
    hide Padded;
    var prefix := month + "-";
    var a, b := entry.reservations[i].id, entry.reservations[j].id;
    assert a == prefix + Padded(i + 1, 4) && b == prefix + Padded(j + 1, 4);
    assert a[|prefix|..] == Padded(i + 1, 4) && b[|prefix|..] == Padded(j + 1, 4);
    if a == b { PaddedInjective(i + 1, j + 1, 4); }
  }

  /** A reservation, once in the ledger, with its id and its amount. */
  predicate Holds(ledger: Ledger, month: string, r: Reservation) {
    month in ledger && r in ledger[month].reservations
  }

  /** Recording another reservation loses none, and adds the new one. */
  lemma {:induction false} RecordedHolds(ledger: Ledger, month: string, amount: Amount, other: string, r: Reservation)
    requires Holds(ledger, other, r)
    ensures Holds(Recorded(ledger, month, amount), other, r)
  {
  }

  lemma {:induction false} RecordedAdds(ledger: Ledger, month: string, amount: Amount)
    ensures Holds(Recorded(ledger, month, amount), month, Reservation(NextId(month, MonthOf(ledger, month)), amount))
  {
    var entry := MonthOf(ledger, month);
    var all := entry.reservations + [Reservation(NextId(month, entry), amount)];
    assert all[|all| - 1] in all;
  }
}
