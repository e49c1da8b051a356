/**
 The amortization engine: the equated monthly instalment (EMI), the
 month-by-month repayment schedule and the total interest of a loan.

 Money is an exact `real`; every place where the system rounds to cents
 goes through `Rounding.Round2`. Dates are day numbers, so "30 days after
 the start" is `start + 30`.
 */
module Calculator {
  import opened Rounding

  /** `x` raised to the natural power `n`. */
  function Pow(x: real, n: nat): real {
    if n == 0 then 1.0 else x * Pow(x, n - 1)
  }

  /** The geometric sum 1 + q + ... + q^(n-1): what `n` level payments of 1,
      each compounded up to the end of the term, are worth then. */
  function Geo(q: real, n: nat): real {
    if n == 0 then 0.0 else q * Geo(q, n - 1) + 1.0
  }

  /** The monthly rate (a fraction) of an annual rate given in percent. */
  function MonthlyRate(annualRate: real): real {
    annualRate / 12.0 / 100.0
  }

  lemma {:induction false} PowAboveOne(x: real, n: nat)
    requires x > 1.0 && n >= 1
    ensures Pow(x, n) > 1.0
  {
    if n > 1 {
      PowAboveOne(x, n - 1);
      var p := Pow(x, n - 1);
      assert x * p > p;
    }
  }

  /** r * (1 + q + ... + q^(n-1)) == q^n - 1 when q == 1 + r. */
  lemma {:induction false} GeoTimesRate(r: real, n: nat)
    ensures r * Geo(1.0 + r, n) == Pow(1.0 + r, n) - 1.0
  {
    if n > 0 {
      GeoTimesRate(r, n - 1);
      var q := 1.0 + r;
      calc {
        r * Geo(q, n);
        r * (q * Geo(q, n - 1) + 1.0);
        q * (r * Geo(q, n - 1)) + r;
        q * (Pow(q, n - 1) - 1.0) + r;
        Pow(q, n) - 1.0;
      }
    }
  }

  /** `e` is a level payment for `principal` over `n` months at monthly rate
      `rate`: `n` payments of `e`, each compounded to the end of the term, are
      worth exactly the principal compounded over the term. */
  predicate IsLevelPayment(e: real, principal: real, rate: real, n: nat) {
    e * Geo(1.0 + rate, n) == principal * Pow(1.0 + rate, n)
  }

  /** The annuity formula P * r * growth / (growth - 1), where growth is the
      compound factor over the whole term. */
  function Annuity(principal: real, r: real, growth: real): real
    requires growth > 1.0
  {
    principal * r * growth / (growth - 1.0)
  }

  /** Algebra behind the annuity formula: with r * g == growth - 1, the
      payment P * r * growth / (growth - 1) times g is P * growth. */
  lemma AnnuityIdentity(p: real, r: real, growth: real, g: real)
    requires r > 0.0 && growth > 1.0 && r * g == growth - 1.0
    ensures Annuity(p, r, growth) * g == p * growth
  {
    var e := Annuity(p, r, growth);
    var d := growth - 1.0;
    assert e * d == p * r * growth;
    assert r * (e * g) == e * (r * g);
    assert r * (e * g) == r * (p * growth);
  }

  /** For a positive rate the compound factor exceeds 1 and the geometric
      sum is positive. */
  lemma GrowthFacts(r: real, n: nat)
    requires r > 0.0 && n >= 1
    ensures Pow(1.0 + r, n) > 1.0 && Geo(1.0 + r, n) > 0.0
  {
    PowAboveOne(1.0 + r, n);
    GeoTimesRate(r, n);
  }

  /** There is at most one level payment: the geometric sum is positive. */
  lemma LevelPaymentUnique(e: real, e': real, principal: real, rate: real, n: nat)
    requires rate > 0.0 && n >= 1
    requires IsLevelPayment(e, principal, rate, n) && IsLevelPayment(e', principal, rate, n)
    ensures e == e'
  {
    GrowthFacts(rate, n);
    var g := Geo(1.0 + rate, n);
    assert (e - e') * g == 0.0;
  }

  /** The unrounded annuity payment P * r * q^n / (q^n - 1) with q == 1 + r:
      the level payment that repays the loan (unique by `LevelPaymentUnique`),
      positive for a positive principal. */
  function ExactEmi(principal: real, annualRate: real, months: nat): (e: real)
    requires annualRate > 0.0 && months >= 1
    ensures IsLevelPayment(e, principal, MonthlyRate(annualRate), months)
    ensures principal > 0.0 ==> e > 0.0
  {
    var r := MonthlyRate(annualRate);
    GrowthFacts(r, months);
    GeoTimesRate(r, months);
    AnnuityIdentity(principal, r, Pow(1.0 + r, months), Geo(1.0 + r, months));
    var e := Annuity(principal, r, Pow(1.0 + r, months));
    PositiveLevelPayment(e, principal, r, months);
    e
  }

  /** A level payment on a positive principal is positive. */
  lemma PositiveLevelPayment(e: real, principal: real, rate: real, n: nat)
    requires rate > 0.0 && n >= 1 && IsLevelPayment(e, principal, rate, n)
    ensures principal > 0.0 ==> e > 0.0
  {
    GrowthFacts(rate, n);
    if principal > 0.0 {
      assert principal * Pow(1.0 + rate, n) > 0.0;
    }
  }

  /** A level payment on a positive principal more than covers the first
      month's interest, so every regular month repays some principal. */
  lemma LevelPaymentExceedsInterest(e: real, principal: real, rate: real, n: nat)
    requires rate > 0.0 && n >= 1 && principal > 0.0 && IsLevelPayment(e, principal, rate, n)
    ensures e > principal * rate
  {
    GrowthFacts(rate, n);
    GeoTimesRate(rate, n);
    ExceedsInterest(e, principal, rate, Pow(1.0 + rate, n), Geo(1.0 + rate, n));
  }

  lemma ExceedsInterest(e: real, p: real, r: real, growth: real, g: real)
    requires r > 0.0 && growth > 1.0 && g > 0.0 && p > 0.0
    requires r * g == growth - 1.0 && e * g == p * growth
    ensures e > p * r
  {
    assert e * (r * g) == r * (p * growth);
    assert e * (growth - 1.0) == p * r * growth;
    assert p * r * growth > p * r * (growth - 1.0);
    CancelPositive(e, p * r, growth - 1.0);
  }

  lemma CancelPositive(a: real, b: real, c: real)
    requires c > 0.0 && a * c > b * c
    ensures a > b
  {
  }

  /** The EMI is within half a cent of covering more than the first month's
      interest. */
  lemma EmiCoversInterest(principal: real, annualRate: real, months: nat)
    requires annualRate > 0.0 && months >= 1 && principal > 0.0
    ensures Emi(principal, annualRate, months) > principal * MonthlyRate(annualRate) - 0.005
  {
    LevelPaymentExceedsInterest(ExactEmi(principal, annualRate, months), principal, MonthlyRate(annualRate), months);
  }

  /** `calculate_emi`: the annuity payment rounded to cents. */
  function Emi(principal: real, annualRate: real, months: nat): (e: real)
    requires annualRate > 0.0 && months >= 1
    ensures Dist(e, ExactEmi(principal, annualRate, months)) <= 0.005
    ensures IsWhole(e * 100.0)
  {
    Round2(ExactEmi(principal, annualRate, months))
  }

  /** One month of the schedule before its money columns are rounded. */
  datatype Installment = Installment(
    number: int,
    dueDay: int,
    opening: real,
    amount: real,
    principal: real,
    interest: real,
    closing: real
  )

  /** One month of the schedule as the system reports it: money in cents. */
  datatype ScheduleEntry = ScheduleEntry(
    emiNumber: int,
    dueDate: int,
    emiAmount: real,
    principalComponent: real,
    interestComponent: real,
    remainingPrincipal: real
  )

  /** The bookkeeping every month obeys: the payment is principal plus
      interest, and the principal part comes off the balance. */
  predicate Balanced(t: Installment) {
    && t.amount == t.principal + t.interest
    && t.closing == t.opening - t.principal
  }

  /** Interest accrues on the month's opening balance at the monthly rate. */
  predicate Accrues(t: Installment, rate: real) {
    t.interest == t.opening * rate
  }

  /** Each month opens with the balance the previous month closed with. */
  predicate Chained(s: seq<Installment>) {
    forall k :: 0 <= k < |s| - 1 ==> s[k + 1].opening == s[k].closing
  }

  /** Months `i` through `n` of a schedule that pays `emi` a month at monthly
      rate `rate`, starting month `i` with `balance` outstanding. Each month's
      interest accrues on the balance at its start; a regular month pays
      `emi`, of which the rest of the interest goes to principal; the last
      month instead repays the whole outstanding balance plus its interest. */
  function Amortize(emi: real, rate: real, balance: real, i: nat, n: nat, start: int): (s: seq<Installment>)
    requires 1 <= i <= n + 1
    decreases n + 1 - i
    ensures |s| == n + 1 - i
    ensures forall k :: 0 <= k < |s| ==> s[k].number == i + k && s[k].dueDay == start + 30 * (i + k)
    ensures |s| > 0 ==> s[0].opening == balance
  {
    if i > n then []
    else if i == n then
      var interest := balance * rate;
      var principal := balance;
      [Installment(i, start + 30 * i, balance, principal + interest, principal, interest, balance - principal)]
    else
      var interest := balance * rate;
      var principal := emi - interest;
      var head := Installment(i, start + 30 * i, balance, emi, principal, interest, balance - principal);
      var tail := Amortize(emi, rate, balance - principal, i + 1, n, start);
      assert forall k :: 1 <= k < 1 + |tail| ==> ([head] + tail)[k] == tail[k - 1];
      [head] + tail
  }

  /** Every month of an `Amortize` schedule is balanced and accrues interest
      at `rate`. */
  lemma {:induction false} AmortizeMonths(emi: real, rate: real, balance: real, i: nat, n: nat, start: int)
    requires 1 <= i <= n + 1
    decreases n + 1 - i
    ensures forall k :: 0 <= k < n + 1 - i ==>
              && Balanced(Amortize(emi, rate, balance, i, n, start)[k])
              && Accrues(Amortize(emi, rate, balance, i, n, start)[k], rate)
  {
    if i < n {
      var tailBalance := balance - (emi - balance * rate);
      AmortizeMonths(emi, rate, tailBalance, i + 1, n, start);
      var s := Amortize(emi, rate, balance, i, n, start);
      var tail := Amortize(emi, rate, tailBalance, i + 1, n, start);
      assert forall k :: 0 <= k < |tail| ==> Balanced(tail[k]) && Accrues(tail[k], rate);
      forall k | 1 <= k < |s|
        ensures Balanced(s[k]) && Accrues(s[k], rate)
      {
        assert s[k] == tail[k - 1];
      }
    }
  }

  /** Every month of an `Amortize` schedule but the last pays `emi`. */
  lemma {:induction false} AmortizeLevel(emi: real, rate: real, balance: real, i: nat, n: nat, start: int)
    requires 1 <= i <= n + 1
    decreases n + 1 - i
    ensures forall k :: 0 <= k < n - i ==> Amortize(emi, rate, balance, i, n, start)[k].amount == emi
  {
    if i < n {
      var tailBalance := balance - (emi - balance * rate);
      AmortizeLevel(emi, rate, tailBalance, i + 1, n, start);
      var s := Amortize(emi, rate, balance, i, n, start);
      var tail := Amortize(emi, rate, tailBalance, i + 1, n, start);
      assert forall k :: 0 <= k < |tail| - 1 ==> tail[k].amount == emi;
      forall k | 1 <= k < |s| - 1
        ensures s[k].amount == emi
      {
        assert s[k] == tail[k - 1];
      }
    }
  }

  /** In an `Amortize` schedule each month opens with the previous month's
      closing balance. */
  lemma {:induction false} AmortizeChained(emi: real, rate: real, balance: real, i: nat, n: nat, start: int)
    requires 1 <= i <= n + 1
    decreases n + 1 - i
    ensures Chained(Amortize(emi, rate, balance, i, n, start))
  {
    if i < n {
      var tailBalance := balance - (emi - balance * rate);
      AmortizeChained(emi, rate, tailBalance, i + 1, n, start);
      var s := Amortize(emi, rate, balance, i, n, start);
      var tail := Amortize(emi, rate, tailBalance, i + 1, n, start);
      assert forall k :: 1 <= k < |s| ==> s[k] == tail[k - 1];
      assert s[1].opening == s[0].closing;
      forall k | 0 <= k < |s| - 1
        ensures s[k + 1].opening == s[k].closing
      {
        if k > 0 {
          assert s[k + 1] == tail[k] && s[k] == tail[k - 1];
        }
      }
    }
  }

  /** The last month of an `Amortize` schedule repays its whole opening
      balance, leaving nothing outstanding. */
  lemma {:induction false} AmortizeClears(emi: real, rate: real, balance: real, i: nat, n: nat, start: int)
    requires 1 <= i <= n
    decreases n + 1 - i
    ensures var s := Amortize(emi, rate, balance, i, n, start);
            s[|s| - 1].principal == s[|s| - 1].opening && s[|s| - 1].closing == 0.0
  {
    if i < n {
      var tailBalance := balance - (emi - balance * rate);
      AmortizeClears(emi, rate, tailBalance, i + 1, n, start);
      var s := Amortize(emi, rate, balance, i, n, start);
      var tail := Amortize(emi, rate, tailBalance, i + 1, n, start);
      assert s[|s| - 1] == tail[|tail| - 1];
    }
  }

  /** The unrounded schedule of a loan of `principal` over `months` months. */
  function Installments(principal: real, annualRate: real, months: nat, start: int): seq<Installment>
    requires annualRate > 0.0 && months >= 1
  {
    Amortize(Emi(principal, annualRate, months), MonthlyRate(annualRate), principal, 1, months, start)
  }

  /** Rounds the money columns of one month to cents. */
  function RoundEntry(t: Installment): (e: ScheduleEntry)
    ensures e.emiNumber == t.number && e.dueDate == t.dueDay
    ensures Dist(e.emiAmount, t.amount) <= 0.005 && Dist(e.principalComponent, t.principal) <= 0.005
    ensures Dist(e.interestComponent, t.interest) <= 0.005 && Dist(e.remainingPrincipal, t.closing) <= 0.005
  {
    ScheduleEntry(t.number, t.dueDay, Round2(t.amount), Round2(t.principal), Round2(t.interest), Round2(t.closing))
  }

  /** `generate_emi_schedule`: exactly `months` entries numbered 1 to
      `months`, entry i due 30*i days after `start`; each money column within
      half a cent of the unrounded schedule; the loan is fully repaid after
      the last entry. */
  function GenerateSchedule(principal: real, annualRate: real, months: nat, start: int): (s: seq<ScheduleEntry>)
    requires annualRate > 0.0 && months >= 1
    ensures |s| == months
    ensures forall k :: 0 <= k < |s| ==> s[k].emiNumber == k + 1 && s[k].dueDate == start + 30 * (k + 1)
    ensures forall k :: 0 <= k < |s| ==> s[k] == RoundEntry(Installments(principal, annualRate, months, start)[k])
    ensures s[|s| - 1].remainingPrincipal == 0.0
  {
    var raw := Installments(principal, annualRate, months, start);
    AmortizeClears(Emi(principal, annualRate, months), MonthlyRate(annualRate), principal, 1, months, start);
    Round2OfCents(0.0);
    seq(|raw|, k requires 0 <= k < |raw| => RoundEntry(raw[k]))
  }

  /** `calculate_total_interest`: the rounded EMI times the term, less the
      principal, rounded to cents. */
  function TotalInterest(principal: real, annualRate: real, months: nat): (t: real)
    requires annualRate > 0.0 && months >= 1
    ensures Dist(t, Emi(principal, annualRate, months) * months as real - principal) <= 0.005
    ensures IsWhole(t * 100.0)
  {
    Round2(Emi(principal, annualRate, months) * months as real - principal)
  }

  /** Sums of the unrounded columns of a schedule. */
  function SumPrincipal(s: seq<Installment>): real {
    if |s| == 0 then 0.0 else s[0].principal + SumPrincipal(s[1..])
  }

  function SumInterest(s: seq<Installment>): real {
    if |s| == 0 then 0.0 else s[0].interest + SumInterest(s[1..])
  }

  function SumAmount(s: seq<Installment>): real {
    if |s| == 0 then 0.0 else s[0].amount + SumAmount(s[1..])
  }

  /** Sum of the reported (rounded) principal column. */
  function SumPrincipalComponents(s: seq<ScheduleEntry>): real {
    if |s| == 0 then 0.0 else s[0].principalComponent + SumPrincipalComponents(s[1..])
  }

  /** The shape of every schedule `Amortize` builds, as a property of the
      sequence alone: it opens with `balance`, months are chained and
      balanced, interest accrues at `rate`, every month but the last pays
      `emi`, and the last month repays its whole opening balance. */
  predicate Amortizes(s: seq<Installment>, emi: real, rate: real, balance: real) {
    && |s| > 0
    && s[0].opening == balance
    && Chained(s)
    && (forall k :: 0 <= k < |s| ==> Balanced(s[k]) && Accrues(s[k], rate))
    && (forall k :: 0 <= k < |s| - 1 ==> s[k].amount == emi)
    && s[|s| - 1].principal == s[|s| - 1].opening
  }

  lemma AmortizeShape(emi: real, rate: real, balance: real, i: nat, n: nat, start: int)
    requires 1 <= i <= n
    ensures Amortizes(Amortize(emi, rate, balance, i, n, start), emi, rate, balance)
  {
    AmortizeMonths(emi, rate, balance, i, n, start);
    AmortizeLevel(emi, rate, balance, i, n, start);
    AmortizeChained(emi, rate, balance, i, n, start);
    AmortizeClears(emi, rate, balance, i, n, start);
  }

  /** In a chained schedule the principal parts add up to the opening
      balance of the first month less the closing balance of the last. */
  lemma {:induction false} Telescope(s: seq<Installment>)
    requires |s| > 0 && Chained(s)
    requires forall k :: 0 <= k < |s| ==> Balanced(s[k])
    ensures SumPrincipal(s) == s[0].opening - s[|s| - 1].closing
  {
    if |s| > 1 {
      var t := s[1..];
      assert forall k :: 0 <= k < |t| ==> t[k] == s[k + 1];
      Telescope(t);
      assert Balanced(s[0]);
    } else {
      assert s[1..] == [];
    }
  }

  /** Whatever the payment, a schedule's principal parts add up to the
      balance it opens with: the last-month correction makes it repay
      exactly what is owed. */
  lemma RepaysBalance(s: seq<Installment>, emi: real, rate: real, balance: real)
    requires Amortizes(s, emi, rate, balance)
    ensures SumPrincipal(s) == balance
  {
    Telescope(s);
    assert Balanced(s[|s| - 1]);
  }

  /** The balance still owed after `k` months each paying `emi`, starting
      from `balance`: every month adds a month of interest and takes off the
      payment. */
  function Outstanding(balance: real, emi: real, rate: real, k: nat): real {
    if k == 0 then balance
    else
      var o := Outstanding(balance, emi, rate, k - 1);
      o - (emi - o * rate)
  }

  /** Month k+1 of a schedule opens with what `k` level payments leave
      outstanding. */
  lemma {:induction false} OpeningIsOutstanding(s: seq<Installment>, emi: real, rate: real, balance: real, k: nat)
    requires Amortizes(s, emi, rate, balance) && k < |s|
    ensures s[k].opening == Outstanding(balance, emi, rate, k)
  {
    if k > 0 {
      OpeningIsOutstanding(s, emi, rate, balance, k - 1);
      var j := k - 1;
      var prev := s[j];
      assert Balanced(prev) && Accrues(prev, rate) && prev.amount == emi;
      assert s[j + 1].opening == prev.closing;
      assert s[k] == s[j + 1];
    }
  }

  /** The last month's payment is the level payment plus whatever `n` level
      payments would have left outstanding. */
  lemma LastMonth(s: seq<Installment>, emi: real, rate: real, balance: real, n: nat)
    requires Amortizes(s, emi, rate, balance) && |s| == n
    ensures s[n - 1].amount == emi + Outstanding(balance, emi, rate, n)
  {
    var last := s[n - 1];
    OpeningIsOutstanding(s, emi, rate, balance, n - 1);
    assert Balanced(last) && Accrues(last, rate);
  }

  /** One month of level payment: interest accrues, the payment comes off. */
  lemma OutstandingStep(balance: real, emi: real, rate: real, k: nat)
    requires k >= 1
    ensures Outstanding(balance, emi, rate, k) == (1.0 + rate) * Outstanding(balance, emi, rate, k - 1) - emi
  {
  }

  /** The same month in closed form. */
  lemma ClosedFormStep(balance: real, emi: real, q: real, k: nat)
    requires k >= 1
    ensures balance * Pow(q, k) - emi * Geo(q, k) == q * (balance * Pow(q, k - 1) - emi * Geo(q, k - 1)) - emi
  {
    var p := Pow(q, k - 1);
    var g := Geo(q, k - 1);
    assert Pow(q, k) == q * p && Geo(q, k) == q * g + 1.0;
    StepAlgebra(balance, emi, q, p, g);
  }

  lemma StepAlgebra(b: real, emi: real, q: real, p: real, g: real)
    ensures b * (q * p) - emi * (q * g + 1.0) == q * (b * p - emi * g) - emi
  {
  }

  /** What `k` level payments leave outstanding, in closed form: the balance
      grown by `k` months of interest, less each payment grown from its month
      to the end. */
  lemma {:induction false} OutstandingClosedForm(balance: real, emi: real, rate: real, k: nat)
    ensures Outstanding(balance, emi, rate, k)
            == balance * Pow(1.0 + rate, k) - emi * Geo(1.0 + rate, k)
  {
    if k > 0 {
      OutstandingClosedForm(balance, emi, rate, k - 1);
      OutstandingStep(balance, emi, rate, k);
      ClosedFormStep(balance, emi, 1.0 + rate, k);
    } else {
      assert Pow(1.0 + rate, 0) == 1.0 && Geo(1.0 + rate, 0) == 0.0;
    }
  }

  /** Paying `emi` where `exact` is the level payment leaves outstanding the
      difference, compounded: (exact - emi) * (1 + q + ... + q^(n-1)). */
  lemma OutstandingResidual(balance: real, exact: real, emi: real, rate: real, n: nat)
    requires IsLevelPayment(exact, balance, rate, n)
    ensures Outstanding(balance, emi, rate, n) == (exact - emi) * Geo(1.0 + rate, n)
  {
    OutstandingClosedForm(balance, emi, rate, n);
    Residual(Outstanding(balance, emi, rate, n), exact, emi, balance, Pow(1.0 + rate, n), Geo(1.0 + rate, n));
  }

  lemma Residual(o: real, exact: real, emi: real, b: real, p: real, g: real)
    requires o == b * p - emi * g && exact * g == b * p
    ensures o == (exact - emi) * g
  {
  }

  /** The level payment clears the loan, and for a positive rate it is the
      only payment that does: nothing is outstanding after `n` payments of
      `e` exactly when `e` is the level payment. */
  lemma ClearsLoanIffLevel(balance: real, e: real, rate: real, n: nat)
    requires rate > 0.0 && n >= 1
    ensures Outstanding(balance, e, rate, n) == 0.0 <==> IsLevelPayment(e, balance, rate, n)
  {
    OutstandingClosedForm(balance, e, rate, n);
  }

  /** The unrounded annuity payment clears the loan, and the cent-rounded EMI
      leaves the rounding error, compounded, outstanding at the end. */
  lemma ExactEmiClearsLoan(principal: real, annualRate: real, months: nat)
    requires annualRate > 0.0 && months >= 1
    ensures Outstanding(principal, ExactEmi(principal, annualRate, months), MonthlyRate(annualRate), months) == 0.0
    ensures Outstanding(principal, Emi(principal, annualRate, months), MonthlyRate(annualRate), months)
            == (ExactEmi(principal, annualRate, months) - Emi(principal, annualRate, months))
               * Geo(1.0 + MonthlyRate(annualRate), months)
  {
    ClearsLoanIffLevel(principal, ExactEmi(principal, annualRate, months), MonthlyRate(annualRate), months);
    OutstandingResidual(principal, ExactEmi(principal, annualRate, months), Emi(principal, annualRate, months),
                        MonthlyRate(annualRate), months);
  }

  /** The last month's payment of a schedule the `Amortize` way. */
  lemma LastPaymentResidual(emi: real, rate: real, principal: real, n: nat, start: int)
    requires n >= 1
    ensures Amortize(emi, rate, principal, 1, n, start)[n - 1].amount
            == emi + Outstanding(principal, emi, rate, n)
  {
    AmortizeShape(emi, rate, principal, 1, n, start);
    LastMonth(Amortize(emi, rate, principal, 1, n, start), emi, rate, principal, n);
  }

  /** In every schedule, interest is what is paid beyond the principal. */
  lemma {:induction false} InterestIsPaymentLessPrincipal(s: seq<Installment>)
    requires forall k :: 0 <= k < |s| ==> Balanced(s[k])
    ensures SumInterest(s) == SumAmount(s) - SumPrincipal(s)
  {
    if |s| > 0 {
      assert Balanced(s[0]);
      InterestIsPaymentLessPrincipal(s[1..]);
    }
  }

  /** A schedule paying `emi` in every month but the last pays, in all,
      that many level payments plus the last month's payment. */
  lemma {:induction false} LevelPayments(s: seq<Installment>, emi: real, n: nat)
    requires |s| == n > 0
    requires forall k :: 0 <= k < n - 1 ==> s[k].amount == emi
    ensures SumAmount(s) == (n - 1) as real * emi + s[n - 1].amount
  {
    if |s| > 1 {
      var t := s[1..];
      LevelPayments(t, emi, n - 1);
      assert t[|t| - 1] == s[|s| - 1];
      assert s[0].amount == emi;
      assert (|t| - 1) as real * emi + emi == (|s| - 1) as real * emi;
    } else {
      assert s[1..] == [];
    }
  }

  /** The arithmetic that turns the sums of a schedule into the closed form
      of its interest. */
  lemma InterestAlgebra(sumI: real, sumA: real, sumP: real, last: real,
                        balance: real, emi: real, left: real, m: nat)
    requires m >= 1
    requires sumI == sumA - sumP && sumP == balance
    requires sumA == (m - 1) as real * emi + last
    requires last == emi + left
    ensures sumI == emi * m as real - balance + left
  {
    assert (m - 1) as real * emi + emi == emi * m as real;
  }

  /** A schedule's interest is its `n` level payments less the balance it
      repays, plus what the level payments would have left outstanding (the
      amount the last month's correction adds). */
  lemma InterestClosedForm(s: seq<Installment>, emi: real, rate: real, balance: real, n: nat)
    requires Amortizes(s, emi, rate, balance) && |s| == n
    ensures SumInterest(s) == emi * n as real - balance + Outstanding(balance, emi, rate, n)
  {
    InterestIsPaymentLessPrincipal(s);
    RepaysBalance(s, emi, rate, balance);
    LevelPayments(s, emi, n);
    LastMonth(s, emi, rate, balance, n);
    InterestAlgebra(SumInterest(s), SumAmount(s), SumPrincipal(s), s[n - 1].amount,
                    balance, emi, Outstanding(balance, emi, rate, n), n);
  }

  /** Paid with the unrounded annuity payment, the schedule is level: the
      last-month correction changes nothing, every month pays the same. */
  lemma ExactEmiScheduleIsLevel(principal: real, annualRate: real, months: nat, start: int)
    requires annualRate > 0.0 && months >= 1
    ensures forall t :: t in Amortize(ExactEmi(principal, annualRate, months), MonthlyRate(annualRate),
                                      principal, 1, months, start)
                        ==> t.amount == ExactEmi(principal, annualRate, months)
  {
    var e := ExactEmi(principal, annualRate, months);
    var s := Amortize(e, MonthlyRate(annualRate), principal, 1, months, start);
    AmortizeLevel(e, MonthlyRate(annualRate), principal, 1, months, start);
    LastPaymentResidual(e, MonthlyRate(annualRate), principal, months, start);
    ExactEmiClearsLoan(principal, annualRate, months);
    assert s[months - 1].amount == e;
    forall t | t in s
      ensures t.amount == e
    {
      var k :| 0 <= k < |s| && s[k] == t;
    }
  }

  /** `generate_emi_schedule`'s unrounded schedule repays exactly the principal. */
  lemma ScheduleRepaysPrincipal(principal: real, annualRate: real, months: nat, start: int)
    requires annualRate > 0.0 && months >= 1
    ensures SumPrincipal(Installments(principal, annualRate, months, start)) == principal
  {
    var emi := Emi(principal, annualRate, months);
    AmortizeShape(emi, MonthlyRate(annualRate), principal, 1, months, start);
    RepaysBalance(Installments(principal, annualRate, months, start), emi, MonthlyRate(annualRate), principal);
  }

  /** Interest of a schedule paid with any `emi` when `exact` is the level
      payment: the level-payment interest emi * n - balance, plus the gap
      (exact - emi), compounded, that the last month's correction settles. */
  lemma AmortizeInterest(emi: real, exact: real, rate: real, balance: real, n: nat, start: int)
    requires n >= 1 && IsLevelPayment(exact, balance, rate, n)
    ensures SumInterest(Amortize(emi, rate, balance, 1, n, start))
            == emi * n as real - balance + (exact - emi) * Geo(1.0 + rate, n)
  {
    AmortizeShape(emi, rate, balance, 1, n, start);
    InterestWithGap(Amortize(emi, rate, balance, 1, n, start), emi, exact, rate, balance, n);
  }

  /** `AmortizeInterest` for any schedule of the `Amortize` shape. */
  lemma InterestWithGap(s: seq<Installment>, emi: real, exact: real, rate: real, balance: real, n: nat)
    requires Amortizes(s, emi, rate, balance) && |s| == n && IsLevelPayment(exact, balance, rate, n)
    ensures SumInterest(s) == emi * n as real - balance + (exact - emi) * Geo(1.0 + rate, n)
  {
    InterestClosedForm(s, emi, rate, balance, n);
    OutstandingResidual(balance, exact, emi, rate, n);
    Substitute(SumInterest(s), emi * n as real - balance, Outstanding(balance, emi, rate, n),
               (exact - emi) * Geo(1.0 + rate, n));
  }

  /** The interest of the unrounded schedule, for `emi` the EMI and `exact`
      the unrounded annuity payment: the EMI times the term less the principal
      (the `calculate_total_interest` figure before its final rounding), plus
      the cent-rounding error of the EMI carried, compounded, into the last
      month. */
  lemma ScheduleInterest(principal: real, annualRate: real, months: nat, start: int, emi: real, exact: real)
    requires annualRate > 0.0 && months >= 1
    requires emi == Emi(principal, annualRate, months) && exact == ExactEmi(principal, annualRate, months)
    ensures SumInterest(Installments(principal, annualRate, months, start))
            == emi * months as real - principal + (exact - emi) * Geo(1.0 + MonthlyRate(annualRate), months)
  {
    AmortizeInterest(emi, exact, MonthlyRate(annualRate), principal, months, start);
  }

  lemma Substitute(x: real, a: real, o: real, d: real)
    requires x == a + o && o == d
    ensures x == a + d
  {
  }

  /** The reported principal column adds up to the principal, up to half a
      cent of rounding per month. */
  lemma ScheduleRepaysPrincipalWithinRounding(principal: real, annualRate: real, months: nat, start: int)
    requires annualRate > 0.0 && months >= 1
    ensures Dist(SumPrincipalComponents(GenerateSchedule(principal, annualRate, months, start)), principal)
            <= 0.005 * months as real
  {
    var raw := Installments(principal, annualRate, months, start);
    var s := GenerateSchedule(principal, annualRate, months, start);
    RoundedPrincipalSum(s, raw);
    ScheduleRepaysPrincipal(principal, annualRate, months, start);
  }

  /** Summing columns each rounded by at most half a cent moves the sum by at
      most half a cent per row. */
  lemma {:induction false} RoundedPrincipalSum(a: seq<ScheduleEntry>, b: seq<Installment>)
    requires |a| == |b|
    requires forall k :: 0 <= k < |a| ==> a[k] == RoundEntry(b[k])
    ensures Dist(SumPrincipalComponents(a), SumPrincipal(b)) <= 0.005 * |a| as real
  {
    if |a| > 0 {
      RoundedPrincipalSum(a[1..], b[1..]);
      assert Dist(a[0].principalComponent, b[0].principal) <= 0.005;
    }
  }
}
