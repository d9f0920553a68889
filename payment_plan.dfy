/**
 * The repayment schedule: one entry per month, each computed from the
 * previous entry's already rounded values. Money is in whole cents and the
 * nominal annual rate in basis points (hundredths of a percentage point).
 */
module PaymentPlan {
  import opened Arith
  import opened Money
  import opened Calendar

  /** The 30/360 day-count convention used for interest. */
  const DaysInMonth := 30
  const DaysInYear := 360
  /** Basis points per unit of rate: a percentage point is 100 of them, and the rate is a percentage. */
  const RateScale := 10000

  /** One month of the schedule. */
  datatype RepaymentEntry = RepaymentEntry(
    payment: int,    // the borrower's payment
    date: Date,      // midnight UTC of the period's day
    initial: int,    // outstanding principal at the start of the period
    interest: int,
    principal: int,  // the part of the payment that repays principal
    remaining: int)  // outstanding principal at the end of the period

  /** The inputs of one schedule; the annuity is the level payment, computed by the caller. */
  datatype Terms = Terms(loanAmount: int, nominalRate: int, startDate: Timestamp, duration: int, annuity: int)

  /** A month's interest on a balance under 30/360, rounded to the cent. */
  function Interest(balance: int, nominalRate: int): (r: int)
    // No interest accrues on a zero balance or at a zero rate.
    ensures balance == 0 || nominalRate == 0 ==> r == 0
  {
    RoundHalfAway(nominalRate * DaysInMonth * balance, RateScale * DaysInYear)
  }

  /** Interest is the exact 30/360 interest rounded to the nearest cent, halves away from zero. */
  lemma InterestNearest(balance: int, nominalRate: int)
    ensures var exact := nominalRate * DaysInMonth * balance;
      2 * Abs(exact - Interest(balance, nominalRate) * (RateScale * DaysInYear)) <= RateScale * DaysInYear
  {
    RoundHalfAwayNearest(nominalRate * DaysInMonth * balance, RateScale * DaysInYear);
  }

  /**
   * At an annual rate from 0 to 1200 percent (120000 basis points) a
   * month's interest on a non-negative balance is between zero and the
   * balance itself, so the guard on interest exceeding the balance does
   * not fire.
   */
  lemma InterestBounded(balance: int, nominalRate: int)
    requires balance >= 0 && 0 <= nominalRate <= 120000
    ensures 0 <= Interest(balance, nominalRate) <= balance
  {
    var den := RateScale * DaysInYear;
    assert den == 3600000;
    var num := nominalRate * DaysInMonth * balance;
    assert num == (nominalRate * 30) * balance;
    MulMonotone(0, nominalRate * 30, balance);
    MulMonotone(nominalRate * 30, 3600000, balance);
    assert num <= 3600000 * balance;
    var r := Interest(balance, nominalRate);
    RoundHalfAwayNearest(num, den);
    if r > balance {
      MulSub(r, balance, den);
      MulAtLeastOne(r - balance, den);
      assert false;
    }
  }

  /** The number of entries: the first is always produced, then one per further month. */
  function Length(t: Terms): (n: nat) {
    if t.duration >= 1 then t.duration else 1
  }

  /** The first month: the whole loan is outstanding and the annuity is paid. */
  function FirstEntry(t: Terms): (e: RepaymentEntry)
    // The payment splits into principal and interest, and the month leaves
    // the loan less the payment plus the interest outstanding.
    ensures e.principal + e.interest == e.payment
    ensures e.remaining == t.loanAmount - t.annuity + e.interest
  {
    var interest := Interest(t.loanAmount, t.nominalRate);
    var principal := t.annuity - interest;
    RepaymentEntry(t.annuity, Midnight(t.startDate), t.loanAmount, interest, principal, t.loanAmount - principal)
  }

  /**
   * The month after prev: one calendar month later, starting from prev's
   * remaining balance, repeating prev's payment unless it is the last
   * month, which pays off balance and interest; when the interest exceeds
   * the balance, the principal part is the payment less the balance.
   */
  function NextEntry(prev: RepaymentEntry, nominalRate: int, last: bool): (e: RepaymentEntry)
    requires ValidDate(prev.date)
    ensures ValidDate(e.date)
    // The month opens on what prev left and, when the guard does not fire,
    // its payment splits into principal and interest.
    ensures e.initial == prev.remaining
    ensures e.interest <= e.initial ==> e.principal + e.interest == e.payment
    // The last month pays off the balance: it ends at zero unless the
    // interest exceeds the balance, and then it ends at balance - interest.
    ensures last && e.interest <= e.initial ==> e.remaining == 0
    ensures last && e.interest > e.initial ==> e.remaining == e.initial - e.interest
  {
    var initial := prev.remaining;
    var interest := Interest(initial, nominalRate);
    var payment := if last then initial + interest else prev.payment;
    var principal := if interest > initial then payment - initial else payment - interest;
    RepaymentEntry(payment, AddMonth(prev.date), initial, interest, principal, initial - principal)
  }

  /** The first n entries: the schedule as a fold of NextEntry over the months. */
  function PlanPrefix(t: Terms, n: nat): (s: seq<RepaymentEntry>)
    requires ValidDate(Midnight(t.startDate)) && n >= 1
    ensures |s| == n
    ensures forall i :: 0 <= i < n ==> ValidDate(s[i].date)
  {
    if n == 1 then [FirstEntry(t)]
    else
      var s := PlanPrefix(t, n - 1);
      s + [NextEntry(s[n - 2], t.nominalRate, n == t.duration)]
  }

  /** The whole schedule. */
  function Plan(t: Terms): (s: seq<RepaymentEntry>)
    requires ValidDate(Midnight(t.startDate))
    ensures |s| == Length(t)
  {
    PlanPrefix(t, Length(t))
  }

  /**
   * Builds the schedule month by month, reading each new entry's inputs
   * back from the entry before it.
   */
  method GeneratePaymentPlan(loanAmount: int, nominalRate: int, startDate: Timestamp, duration: int, annuity: int)
    returns (plan: seq<RepaymentEntry>)
    requires ValidDate(Midnight(startDate))
    ensures plan == Plan(Terms(loanAmount, nominalRate, startDate, duration, annuity))
  {
    ghost var t := Terms(loanAmount, nominalRate, startDate, duration, annuity);
    var date := Midnight(startDate);

    var interest := Interest(loanAmount, nominalRate);
    var principal := annuity - interest;
    plan := [RepaymentEntry(annuity, date, loanAmount, interest, principal, loanAmount - principal)];

    var i := 1;
    while i < duration
      invariant 1 <= i <= Length(t)
      invariant plan == PlanPrefix(t, i)
      invariant date == plan[i - 1].date
    {
      date := AddMonth(date);
      var initial := plan[i - 1].remaining;
      interest := Interest(initial, nominalRate);
      var payment;
      if i == duration - 1 {
        payment := initial + interest;
      } else {
        payment := plan[i - 1].payment;
      }
      if interest > initial {
        principal := payment - initial;
      } else {
        principal := payment - interest;
      }
      var entry := RepaymentEntry(payment, date, initial, interest, principal, initial - principal);
      assert entry == NextEntry(plan[i - 1], nominalRate, i + 1 == duration);
      PlanPrefixStep(t, i);
      plan := plan + [entry];
      i := i + 1;
    }
  }

  lemma PlanPrefixStep(t: Terms, n: nat)
    requires ValidDate(Midnight(t.startDate)) && n >= 1
    ensures PlanPrefix(t, n + 1) == PlanPrefix(t, n) + [NextEntry(PlanPrefix(t, n)[n - 1], t.nominalRate, n + 1 == t.duration)]
  {
  }

  /** Extending the fold never changes an entry already produced. */
  lemma {:induction false} PrefixStable(t: Terms, j: nat, n: nat)
    requires ValidDate(Midnight(t.startDate)) && j < n
    ensures PlanPrefix(t, n)[j] == PlanPrefix(t, j + 1)[j]
    decreases n
  {
    if j + 1 < n {
      PrefixStable(t, j, n - 1);
      PlanPrefixStep(t, n - 1);
    }
  }

  /** Each entry is the first one, or NextEntry of the entry before it. */
  lemma PlanRecurrence(t: Terms, i: nat)
    requires ValidDate(Midnight(t.startDate)) && i < Length(t)
    ensures i == 0 ==> Plan(t)[0] == FirstEntry(t)
    ensures i > 0 ==> Plan(t)[i] == NextEntry(Plan(t)[i - 1], t.nominalRate, i == t.duration - 1)
  {
    PrefixStable(t, i, Length(t));
    if i > 0 {
      PrefixStable(t, i - 1, Length(t));
      PlanPrefixStep(t, i);
    }
  }

  /** The first entry: the start day at midnight, the whole loan outstanding, the annuity paid. */
  lemma PlanFirstEntry(t: Terms)
    requires ValidDate(Midnight(t.startDate))
    ensures Plan(t)[0].date == Midnight(t.startDate)
    ensures Plan(t)[0].initial == t.loanAmount
    ensures Plan(t)[0].payment == t.annuity
    ensures Plan(t)[0].interest == Interest(t.loanAmount, t.nominalRate)
    ensures Plan(t)[0].principal == t.annuity - Plan(t)[0].interest
  {
    PlanRecurrence(t, 0);
  }

  /** Every entry's remaining balance is its initial balance less its principal. */
  lemma PlanBalance(t: Terms)
    requires ValidDate(Midnight(t.startDate))
    ensures forall i :: 0 <= i < |Plan(t)| ==> Plan(t)[i].remaining == Plan(t)[i].initial - Plan(t)[i].principal
  {
    forall i | 0 <= i < |Plan(t)|
      ensures Plan(t)[i].remaining == Plan(t)[i].initial - Plan(t)[i].principal
    {
      PlanRecurrence(t, i);
    }
  }

  /** Each month starts from the balance the month before left outstanding. */
  lemma PlanChain(t: Terms)
    requires ValidDate(Midnight(t.startDate))
    ensures forall i :: 1 <= i < |Plan(t)| ==> Plan(t)[i].initial == Plan(t)[i - 1].remaining
  {
    forall i | 1 <= i < |Plan(t)|
      ensures Plan(t)[i].initial == Plan(t)[i - 1].remaining
    {
      PlanRecurrence(t, i);
    }
  }

  /**
   * Every month's interest is the 30/360 interest on its initial balance;
   * after the first month, the principal part is the payment less the
   * interest, or less the balance when the interest exceeds the balance.
   */
  lemma PlanInterest(t: Terms)
    requires ValidDate(Midnight(t.startDate))
    ensures forall i :: 0 <= i < |Plan(t)| ==> Plan(t)[i].interest == Interest(Plan(t)[i].initial, t.nominalRate)
    ensures forall i :: 1 <= i < |Plan(t)| ==>
      Plan(t)[i].principal == Plan(t)[i].payment -
        (if Plan(t)[i].interest > Plan(t)[i].initial then Plan(t)[i].initial else Plan(t)[i].interest)
  {
    forall i | 0 <= i < |Plan(t)|
      ensures Plan(t)[i].interest == Interest(Plan(t)[i].initial, t.nominalRate)
      ensures i >= 1 ==>
        Plan(t)[i].principal == Plan(t)[i].payment -
          (if Plan(t)[i].interest > Plan(t)[i].initial then Plan(t)[i].initial else Plan(t)[i].interest)
    {
      PlanRecurrence(t, i);
    }
  }

  /** Every month before the last pays the annuity. */
  lemma {:induction false} PlanLevelPayment(t: Terms)
    requires ValidDate(Midnight(t.startDate))
    ensures forall i :: 0 <= i < |Plan(t)| - 1 ==> Plan(t)[i].payment == t.annuity
  {
    forall i | 0 <= i < |Plan(t)| - 1
      ensures Plan(t)[i].payment == t.annuity
    {
      LevelPaymentAt(t, i);
    }
  }

  lemma {:induction false} LevelPaymentAt(t: Terms, i: nat)
    requires ValidDate(Midnight(t.startDate)) && i < Length(t) - 1
    ensures Plan(t)[i].payment == t.annuity
  {
    PlanRecurrence(t, i);
    if i > 0 {
      LevelPaymentAt(t, i - 1);
    }
  }

  /**
   * With two months or more, the last month pays its balance plus its
   * interest. If the interest does not exceed the balance, that clears the
   * loan exactly; otherwise the principal part is the payment less the
   * balance, and the balance left is the balance less the interest.
   */
  lemma PlanClosingPayment(t: Terms)
    requires ValidDate(Midnight(t.startDate)) && t.duration >= 2
    ensures var last := Plan(t)[|Plan(t)| - 1];
      && last.payment == last.initial + last.interest
      && (last.interest <= last.initial ==> last.principal == last.initial && last.remaining == 0)
      && (last.interest > last.initial ==>
            last.principal == last.payment - last.initial && last.remaining == last.initial - last.interest)
      && (last.remaining == 0 <==> last.interest <= last.initial)
  {
    PlanRecurrence(t, t.duration - 1);
  }

  /**
   * At a negative rate, which validation lets through, a month's interest
   * on a non-negative balance is never positive.
   */
  lemma InterestNegativeRate(balance: int, nominalRate: int)
    requires balance >= 0 && nominalRate < 0
    ensures Interest(balance, nominalRate) <= 0
  {
    var den := RateScale * DaysInYear;
    var num := nominalRate * DaysInMonth * balance;
    MulMonotone(nominalRate * DaysInMonth, 0, balance);
    RoundHalfAwayNearest(num, den);
    if num == 0 {
      RoundExact(0, den);
    }
  }

  /**
   * At any rate up to 1200 percent, a last month that starts with a
   * non-negative balance ends with nothing outstanding.
   */
  lemma PlanClosesLoan(t: Terms)
    requires ValidDate(Midnight(t.startDate)) && t.duration >= 2 && t.nominalRate <= 120000
    requires Plan(t)[t.duration - 1].initial >= 0
    ensures Plan(t)[t.duration - 1].remaining == 0
  {
    PlanClosingPayment(t);
    PlanInterest(t);
    if t.nominalRate >= 0 {
      InterestBounded(Plan(t)[t.duration - 1].initial, t.nominalRate);
    } else {
      InterestNegativeRate(Plan(t)[t.duration - 1].initial, t.nominalRate);
    }
  }

  /** A one-month schedule has no closing payment: it pays the annuity. */
  lemma PlanSingleMonth(t: Terms)
    requires ValidDate(Midnight(t.startDate)) && t.duration <= 1
    ensures |Plan(t)| == 1
    ensures Plan(t)[0].payment == t.annuity
    ensures Plan(t)[0].remaining == t.loanAmount - t.annuity + Interest(t.loanAmount, t.nominalRate)
  {
    PlanRecurrence(t, 0);
  }

  /**
   * The first entry falls on the start day and each later one exactly one
   * calendar month after the one before, so entry i is i months on.
   */
  lemma {:induction false} PlanDates(t: Terms)
    requires ValidDate(Midnight(t.startDate))
    ensures Plan(t)[0].date == Midnight(t.startDate)
    ensures forall i :: 1 <= i < |Plan(t)| ==> Plan(t)[i].date == AddMonth(Plan(t)[i - 1].date)
    ensures forall i :: 0 <= i < |Plan(t)| ==> Plan(t)[i].date == AddMonths(Midnight(t.startDate), i)
  {
    PlanRecurrence(t, 0);
    forall i | 1 <= i < |Plan(t)|
      ensures Plan(t)[i].date == AddMonth(Plan(t)[i - 1].date)
    {
      PlanRecurrence(t, i);
    }
    forall i | 0 <= i < |Plan(t)|
      ensures Plan(t)[i].date == AddMonths(Midnight(t.startDate), i)
    {
      DateAt(t, i);
    }
  }

  lemma {:induction false} DateAt(t: Terms, i: nat)
    requires ValidDate(Midnight(t.startDate)) && i < Length(t)
    ensures Plan(t)[i].date == AddMonths(Midnight(t.startDate), i)
  {
    PlanRecurrence(t, i);
    if i > 0 {
      DateAt(t, i - 1);
    }
  }

  /**
   * From a start day that every month has, entry i falls on the same day
   * i months later, December rolling over into January of the next year.
   */
  lemma PlanDatesKeepDay(t: Terms)
    requires ValidDate(Midnight(t.startDate)) && t.startDate.day <= 28
    ensures forall i :: 0 <= i < |Plan(t)| ==> Plan(t)[i].date == MonthsLater(Midnight(t.startDate), i)
  {
    PlanDates(t);
    forall i | 0 <= i < |Plan(t)|
      ensures Plan(t)[i].date == MonthsLater(Midnight(t.startDate), i)
    {
      AddMonthsKeepsDay(Midnight(t.startDate), i);
    }
  }

  /** The worked example: 1000.00 at 5.0 percent over four months from 2018-01-01T00:00:01Z, annuity 252.61. */
  lemma WorkedExample()
    ensures Plan(Terms(100000, 500, Timestamp(2018, 1, 1, 0, 0, 1, 0, 0), 4, 25261)) == [
      RepaymentEntry(25261, Date(2018, 1, 1), 100000, 417, 24844, 75156),
      RepaymentEntry(25261, Date(2018, 2, 1), 75156, 313, 24948, 50208),
      RepaymentEntry(25261, Date(2018, 3, 1), 50208, 209, 25052, 25156),
      RepaymentEntry(25261, Date(2018, 4, 1), 25156, 105, 25156, 0)]
  {
    var t := Terms(100000, 500, Timestamp(2018, 1, 1, 0, 0, 1, 0, 0), 4, 25261);
    assert Interest(100000, 500) == 417;
    assert Interest(75156, 500) == 313;
    assert Interest(50208, 500) == 209;
    assert Interest(25156, 500) == 105;
    assert PlanPrefix(t, 1) == [RepaymentEntry(25261, Date(2018, 1, 1), 100000, 417, 24844, 75156)];
    assert PlanPrefix(t, 2)[1] == RepaymentEntry(25261, Date(2018, 2, 1), 75156, 313, 24948, 50208);
    assert PlanPrefix(t, 3)[2] == RepaymentEntry(25261, Date(2018, 3, 1), 50208, 209, 25052, 25156);
    assert PlanPrefix(t, 4)[3] == RepaymentEntry(25261, Date(2018, 4, 1), 25156, 105, 25156, 0);
  }
}
