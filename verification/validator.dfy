/**
 Underwriting of a loan application: the borrower metrics the engine derives
 (age, employment tenure, debt-to-income and loan-to-income ratios, age at
 maturity), the eight threshold checks against the loan type's criteria, and
 the status the application layer files the application under.

 The current date is an explicit parameter. A date carries its calendar
 fields, which age is computed from, and its day number (days since a fixed
 epoch), which durations are computed from.
 */
module Validator {
  import opened Rounding
  import opened Criteria
  import opened Calculator

  datatype Option<T> = None | Some(value: T)

  /** A calendar date and its day number. */
  datatype Date = Date(year: int, month: int, day: int, dayNumber: int)

  /** The borrower fields the underwriting reads. */
  datatype Borrower = Borrower(
    annualIncome: real,
    creditScore: int,
    dateOfBirth: Option<Date>,
    employmentStart: Option<Date>,
    existingEmis: real
  )

  /** What the applicant asks for. */
  datatype Application = Application(amount: real, interestRate: real, term: int, loanType: string)

  /** A ratio that may be the +infinity sentinel. */
  datatype Ratio = Finite(value: real) | Infinity

  /** `x > limit`, with +infinity above every limit. */
  predicate Exceeds(x: Ratio, limit: real) {
    x.Infinity? || x.value > limit
  }

  /** The derived figures the engine returns beside the reasons. */
  datatype Metrics = Metrics(
    age: int,
    employmentYears: real,
    dtiRatio: real,
    loanToIncome: Ratio,
    ageAtMaturity: real
  )

  /** One reason for rejection per failed check, carrying the threshold it
      failed (and, for the DTI check, the applicant's own ratio). */
  datatype Reason =
    | MinAge(years: int)
    | MaxAgeAtMaturity(years: int)
    | MinIncome(amount: int)
    | MinEmployment(years: int)
    | MinCreditScore(score: int)
    | MaxDti(limit: int, actual: real)
    | MinInterestRate(rate: real)
    | MaxLoanToIncome(times: int)

  /** The eight checks. */
  datatype Check = AgeCheck | MaturityCheck | IncomeCheck | EmploymentCheck
                 | CreditCheck | DtiCheck | RateCheck | LoanToIncomeCheck

  /** The order in which the checks run and their reasons are listed. */
  const CheckOrder: seq<Check> := [AgeCheck, MaturityCheck, IncomeCheck, EmploymentCheck,
                                   CreditCheck, DtiCheck, RateCheck, LoanToIncomeCheck]

  /** Status the application is filed under. */
  datatype Status = Pending | Rejected(reasons: seq<Reason>)

  // ---------------------------------------------------------------- age

  /** (y1, m1, d1) is not earlier than (y2, m2, d2) in calendar order. */
  predicate NotEarlier(y1: int, m1: int, d1: int, y2: int, m2: int, d2: int) {
    y1 > y2 || (y1 == y2 && (m1 > m2 || (m1 == m2 && d1 >= d2)))
  }

  /** Day (m1, d1) of a year comes before day (m2, d2) of the same year. */
  predicate Before(m1: int, d1: int, m2: int, d2: int) {
    m1 < m2 || (m1 == m2 && d1 < d2)
  }

  /** By `today`, the borrower born on `birth` has had their `n`th birthday. */
  predicate HadBirthday(birth: Date, today: Date, n: int) {
    NotEarlier(today.year, today.month, today.day, birth.year + n, birth.month, birth.day)
  }

  /** `calculate_age`: 0 without a birth date; otherwise the difference of
      the years, less one while this year's birthday is still to come. The
      result is the number of birthdays had: the `a`th has come, the next
      has not. */
  function Age(birth: Option<Date>, today: Date): (a: int)
    ensures birth.None? ==> a == 0
    ensures birth.Some? ==> HadBirthday(birth.value, today, a) && !HadBirthday(birth.value, today, a + 1)
  {
    match birth
    case None => 0
    case Some(b) =>
      today.year - b.year - (if Before(today.month, today.day, b.month, b.day) then 1 else 0)
  }

  /** Only one count of birthdays fits: the `n`th birthday come and the next
      not yet come pins `n` down to `Age`. */
  lemma AgeUnique(birth: Date, today: Date, n: int)
    requires HadBirthday(birth, today, n) && !HadBirthday(birth, today, n + 1)
    ensures n == Age(Some(birth), today)
  {
  }

  /** The age is the difference of the years or one less, and one less
      exactly when today's (month, day) comes before the birthday's. */
  lemma AgeYearDifference(birth: Date, today: Date)
    ensures var a := Age(Some(birth), today);
            a == today.year - birth.year || a == today.year - birth.year - 1
    ensures Age(Some(birth), today) == today.year - birth.year - 1
            <==> Before(today.month, today.day, birth.month, birth.day)
  {
  }

  // ---------------------------------------------------------------- tenure

  /** Days from `from` to `to`. */
  function DaysBetween(from: Date, to: Date): int {
    to.dayNumber - from.dayNumber
  }

  /** `calculate_employment_years`: 0 without a start date; otherwise the
      days since the start in years of 365.25 days, rounded to tenths, a
      tenure exactly midway between two tenths going to the even one. */
  function EmploymentYears(start: Option<Date>, today: Date): (y: real)
    ensures start.None? ==> y == 0.0
    ensures start.Some? ==> Dist(y, DaysBetween(start.value, today) as real / 365.25) <= 0.05
    ensures start.Some? && Dist(y, DaysBetween(start.value, today) as real / 365.25) == 0.05
            ==> (y * 10.0).Floor % 2 == 0
    ensures IsWhole(y * 10.0)
  {
    match start
    case None => assert 0.0 * 10.0 == 0.0; 0.0
    case Some(s) => Round1(DaysBetween(s, today) as real / 365.25)
  }

  /** A start date on or before today gives a non-negative tenure, and one a
      full year or more back gives a tenure of at least one year. */
  lemma EmploymentYearsBounds(start: Date, today: Date)
    requires start.dayNumber <= today.dayNumber
    ensures EmploymentYears(Some(start), today) >= 0.0
    ensures DaysBetween(start, today) as real >= 365.25 ==> EmploymentYears(Some(start), today) >= 1.0
  {
    EmploymentMeetsMinimum(start, today, 0);
    EmploymentMeetsMinimum(start, today, 1);
  }

  /** The rounding decides the employment check: the tenure reaches `n`
      whole years exactly when the unrounded tenure is at least `n - 0.05`
      years (a tenure of exactly `n - 0.05` rounds up to the even `10n`
      tenths). */
  lemma EmploymentMeetsMinimum(start: Date, today: Date, n: int)
    ensures EmploymentYears(Some(start), today) >= n as real
            <==> DaysBetween(start, today) as real / 365.25 >= n as real - 0.05
  {
    var y := EmploymentYears(Some(start), today);
    var x := DaysBetween(start, today) as real / 365.25;
    var k := (y * 10.0).Floor;
    assert k as real == y * 10.0;
    TenthsThreshold(y, x, k, n);
  }

  /** `k` tenths within 0.05 of `x`, even on a tie, reach `n` exactly when
      `x` is at least `n - 0.05`. */
  lemma TenthsThreshold(y: real, x: real, k: int, n: int)
    requires k as real == y * 10.0
    requires Dist(y, x) <= 0.05 && (Dist(y, x) == 0.05 ==> k % 2 == 0)
    ensures y >= n as real <==> x >= n as real - 0.05
  {
    var t := n as real - 0.05;
    if k >= 10 * n {
      assert y >= n as real && x >= y - 0.05;
    } else if k == 10 * n - 1 {
      assert k % 2 == 1;
      assert y == t - 0.05 && Dist(y, x) < 0.05;
    } else {
      assert y <= t - 0.15 && x <= y + 0.05;
    }
  }

  /** In particular a one-year minimum is met from the 347th day on, about
      eleven and a half months into the job. */
  lemma OneYearFrom347Days(start: Date, today: Date)
    ensures EmploymentYears(Some(start), today) >= 1.0 <==> DaysBetween(start, today) >= 347
  {
    EmploymentMeetsMinimum(start, today, 1);
    var x := DaysBetween(start, today) as real / 365.25;
    assert x >= 0.95 <==> DaysBetween(start, today) as real >= 0.95 * 365.25;
  }

  // ---------------------------------------------------------------- ratios

  /** `calculate_dti_ratio`: monthly debt (existing EMIs plus the new EMI)
      as a percentage of monthly income; exactly 100 when the income is 0. */
  function Dti(b: Borrower, newEmi: real): (d: real)
    ensures b.annualIncome == 0.0 ==> d == 100.0
    ensures b.annualIncome != 0.0 ==> d * (b.annualIncome / 12.0) == (b.existingEmis + newEmi) * 100.0
  {
    var monthlyIncome := b.annualIncome / 12.0;
    var monthlyDebt := b.existingEmis + newEmi;
    if monthlyIncome == 0.0 then 100.0
    else
      var d := monthlyDebt / monthlyIncome * 100.0;
      DivTimes(monthlyDebt, monthlyIncome, 100.0);
      d
  }

  lemma DivTimes(x: real, y: real, c: real)
    requires y != 0.0
    ensures x / y * c * y == x * c
  {
    assert x / y * y == x;
  }

  /** With positive income and no negative debts the DTI ratio is not
      negative, and it is positive once there is any debt at all. */
  lemma DtiSign(b: Borrower, newEmi: real)
    requires b.annualIncome > 0.0 && b.existingEmis >= 0.0 && newEmi >= 0.0
    ensures Dti(b, newEmi) >= 0.0
    ensures b.existingEmis + newEmi > 0.0 ==> Dti(b, newEmi) > 0.0
  {
    ProductSign(Dti(b, newEmi), b.annualIncome / 12.0, (b.existingEmis + newEmi) * 100.0);
  }

  lemma ProductSign(d: real, m: real, x: real)
    requires m > 0.0 && d * m == x
    ensures x >= 0.0 ==> d >= 0.0
    ensures x > 0.0 ==> d > 0.0
  {
  }

  /** Loan-to-income ratio: the amount over the annual income, or +infinity
      when the income is not positive. */
  function LoanToIncome(amount: real, annualIncome: real): (r: Ratio)
    ensures annualIncome <= 0.0 <==> r == Infinity
    ensures r.Finite? ==> r.value * annualIncome == amount
  {
    if annualIncome > 0.0 then Finite(amount / annualIncome) else Infinity
  }

  /** Age at the end of the term: the age plus the term in (fractional) years. */
  function AgeAtMaturity(age: int, term: int): (m: real)
    ensures (m - age as real) * 12.0 == term as real
  {
    age as real + term as real / 12.0
  }

  /** The metrics of an application on `today`: the borrower's age and
      tenure, the DTI ratio with the new loan's cent-rounded EMI added to the
      existing debts, the loan-to-income ratio and the age at maturity. */
  function Measure(b: Borrower, app: Application, today: Date): (m: Metrics)
    requires app.interestRate > 0.0 && app.term >= 1
    ensures m.age == Age(b.dateOfBirth, today)
    ensures m.employmentYears == EmploymentYears(b.employmentStart, today)
    ensures m.dtiRatio == Dti(b, Emi(app.amount, app.interestRate, app.term))
    ensures m.loanToIncome == LoanToIncome(app.amount, b.annualIncome)
    ensures m.ageAtMaturity == AgeAtMaturity(m.age, app.term)
  {
    var age := Age(b.dateOfBirth, today);
    var newEmi := Emi(app.amount, app.interestRate, app.term);
    Metrics(age, EmploymentYears(b.employmentStart, today), Dti(b, newEmi),
            LoanToIncome(app.amount, b.annualIncome), AgeAtMaturity(age, app.term))
  }

  // ---------------------------------------------------------------- checks

  /** Whether check `c` fails: the comparisons the engine makes, each against
      the threshold of the loan type's criteria. */
  predicate Fails(c: Check, crit: Thresholds, b: Borrower, rate: real, m: Metrics) {
    match c
    case AgeCheck => m.age < crit.minAge
    case MaturityCheck => m.ageAtMaturity > crit.maxAgeAtMaturity as real
    case IncomeCheck => b.annualIncome < crit.minIncome as real
    case EmploymentCheck => m.employmentYears < crit.minEmploymentYears as real
    case CreditCheck => b.creditScore < crit.minCreditScore
    case DtiCheck => m.dtiRatio > crit.maxDtiRatio as real
    case RateCheck => rate < crit.minInterestRate
    case LoanToIncomeCheck => Exceeds(m.loanToIncome, crit.maxLoanToIncome as real)
  }

  /** The reason check `c` gives when it fails. */
  function ReasonFor(c: Check, crit: Thresholds, m: Metrics): Reason {
    match c
    case AgeCheck => MinAge(crit.minAge)
    case MaturityCheck => MaxAgeAtMaturity(crit.maxAgeAtMaturity)
    case IncomeCheck => MinIncome(crit.minIncome)
    case EmploymentCheck => MinEmployment(crit.minEmploymentYears)
    case CreditCheck => MinCreditScore(crit.minCreditScore)
    case DtiCheck => MaxDti(crit.maxDtiRatio, m.dtiRatio)
    case RateCheck => MinInterestRate(crit.minInterestRate)
    case LoanToIncomeCheck => MaxLoanToIncome(crit.maxLoanToIncome)
  }

  /** The check a reason comes from. */
  function CheckOf(r: Reason): Check {
    match r
    case MinAge(_) => AgeCheck
    case MaxAgeAtMaturity(_) => MaturityCheck
    case MinIncome(_) => IncomeCheck
    case MinEmployment(_) => EmploymentCheck
    case MinCreditScore(_) => CreditCheck
    case MaxDti(_, _) => DtiCheck
    case MinInterestRate(_) => RateCheck
    case MaxLoanToIncome(_) => LoanToIncomeCheck
  }

  /** Position of a check in `CheckOrder`. */
  function Rank(c: Check): (k: nat)
    ensures k < |CheckOrder| && CheckOrder[k] == c
  {
    match c
    case AgeCheck => 0
    case MaturityCheck => 1
    case IncomeCheck => 2
    case EmploymentCheck => 3
    case CreditCheck => 4
    case DtiCheck => 5
    case RateCheck => 6
    case LoanToIncomeCheck => 7
  }

  /** `issues` with `r` appended when `failed`. */
  function AppendIf(issues: seq<Reason>, failed: bool, r: Reason): seq<Reason> {
    if failed then issues + [r] else issues
  }

  /** The checks strictly follow their order in `CheckOrder`. */
  predicate InRankOrder(checks: seq<Check>) {
    forall i, j :: 0 <= i < j < |checks| ==> Rank(checks[i]) < Rank(checks[j])
  }

  /** The reasons strictly follow the order of their checks in `CheckOrder`. */
  predicate ReasonsInRankOrder(rs: seq<Reason>) {
    forall i, j :: 0 <= i < j < |rs| ==> Rank(CheckOf(rs[i])) < Rank(CheckOf(rs[j]))
  }

  /** Reference semantics of the checks: run every check of `checks` in
      turn, appending the reason of each one that fails. */
  function Reasons(checks: seq<Check>, crit: Thresholds, b: Borrower, rate: real, m: Metrics): seq<Reason> {
    if |checks| == 0 then []
    else
      var c := checks[|checks| - 1];
      AppendIf(Reasons(checks[..|checks| - 1], crit, b, rate, m), Fails(c, crit, b, rate, m), ReasonFor(c, crit, m))
  }

  /** The threshold checks of `validate_loan_application`, in source order:
      each failing comparison appends its reason, none stops the others. */
  function Screen(crit: Thresholds, b: Borrower, rate: real, m: Metrics): (issues: seq<Reason>)
    ensures issues == Reasons(CheckOrder, crit, b, rate, m)
  {
    var i0: seq<Reason> := [];
    var i1 := AppendIf(i0, m.age < crit.minAge, MinAge(crit.minAge));
    var i2 := AppendIf(i1, m.ageAtMaturity > crit.maxAgeAtMaturity as real, MaxAgeAtMaturity(crit.maxAgeAtMaturity));
    var i3 := AppendIf(i2, b.annualIncome < crit.minIncome as real, MinIncome(crit.minIncome));
    var i4 := AppendIf(i3, m.employmentYears < crit.minEmploymentYears as real, MinEmployment(crit.minEmploymentYears));
    var i5 := AppendIf(i4, b.creditScore < crit.minCreditScore, MinCreditScore(crit.minCreditScore));
    var i6 := AppendIf(i5, m.dtiRatio > crit.maxDtiRatio as real, MaxDti(crit.maxDtiRatio, m.dtiRatio));
    var i7 := AppendIf(i6, rate < crit.minInterestRate, MinInterestRate(crit.minInterestRate));
    var i8 := AppendIf(i7, Exceeds(m.loanToIncome, crit.maxLoanToIncome as real), MaxLoanToIncome(crit.maxLoanToIncome));
    var cs := CheckOrder;
    assert cs[..0] == [];
    ReasonsSnoc(cs, 0, crit, b, rate, m);
    ReasonsSnoc(cs, 1, crit, b, rate, m);
    ReasonsSnoc(cs, 2, crit, b, rate, m);
    ReasonsSnoc(cs, 3, crit, b, rate, m);
    ReasonsSnoc(cs, 4, crit, b, rate, m);
    ReasonsSnoc(cs, 5, crit, b, rate, m);
    ReasonsSnoc(cs, 6, crit, b, rate, m);
    ReasonsSnoc(cs, 7, crit, b, rate, m);
    assert cs[..8] == cs;
    i8
  }

  /** One more check run, one more possible reason at the end. */
  lemma ReasonsSnoc(cs: seq<Check>, k: nat, crit: Thresholds, b: Borrower, rate: real, m: Metrics)
    requires k < |cs|
    ensures Reasons(cs[..k + 1], crit, b, rate, m)
            == AppendIf(Reasons(cs[..k], crit, b, rate, m), Fails(cs[k], crit, b, rate, m), ReasonFor(cs[k], crit, m))
  {
    assert cs[..k + 1][..k] == cs[..k];
  }

  /** Every reason a run of `checks` lists comes from a check of `checks`
      that fails, and is that check's reason. */
  lemma {:induction false} ReasonsSound(checks: seq<Check>, crit: Thresholds, b: Borrower, rate: real, m: Metrics)
    ensures forall r :: r in Reasons(checks, crit, b, rate, m) ==>
              && CheckOf(r) in checks
              && Fails(CheckOf(r), crit, b, rate, m)
              && r == ReasonFor(CheckOf(r), crit, m)
  {
    if |checks| > 0 {
      var init := checks[..|checks| - 1];
      ReasonsSound(init, crit, b, rate, m);
      assert forall c :: c in init ==> c in checks;
    }
  }

  /** Every check of `checks` that fails has its reason listed. */
  lemma {:induction false} ReasonsComplete(checks: seq<Check>, crit: Thresholds, b: Borrower, rate: real, m: Metrics)
    ensures forall c :: c in checks && Fails(c, crit, b, rate, m) ==> ReasonFor(c, crit, m) in Reasons(checks, crit, b, rate, m)
  {
    if |checks| > 0 {
      var init := checks[..|checks| - 1];
      ReasonsComplete(init, crit, b, rate, m);
      assert forall c :: c in checks ==> c in init || c == checks[|checks| - 1];
    }
  }

  /** Checks listed in rank order list their reasons in rank order. */
  lemma {:induction false} ReasonsOrdered(checks: seq<Check>, crit: Thresholds, b: Borrower, rate: real, m: Metrics)
    requires InRankOrder(checks)
    ensures ReasonsInRankOrder(Reasons(checks, crit, b, rate, m))
  {
    if |checks| > 0 {
      var init := checks[..|checks| - 1];
      var last := checks[|checks| - 1];
      ReasonsOrdered(init, crit, b, rate, m);
      ReasonsSound(init, crit, b, rate, m);
      var rs := Reasons(init, crit, b, rate, m);
      forall i | 0 <= i < |rs|
        ensures Rank(CheckOf(rs[i])) < Rank(last)
      {
        assert rs[i] in rs;
        var k :| 0 <= k < |init| && init[k] == CheckOf(rs[i]);
        assert checks[k] == init[k];
      }
      if Fails(last, crit, b, rate, m) {
        CheckOfReason(last, crit, m);
        var full := rs + [ReasonFor(last, crit, m)];
        assert Reasons(checks, crit, b, rate, m) == full;
        forall i, j | 0 <= i < j < |full|
          ensures Rank(CheckOf(full[i])) < Rank(CheckOf(full[j]))
        {
          assert full[i] == rs[i];
          if j < |rs| {
            assert full[j] == rs[j];
          }
        }
      } else {
        assert Reasons(checks, crit, b, rate, m) == rs;
      }
    }
  }

  /** A reason names the check it comes from. */
  lemma CheckOfReason(c: Check, crit: Thresholds, m: Metrics)
    ensures CheckOf(ReasonFor(c, crit, m)) == c
  {
  }

  /** The eight checks in `CheckOrder` are in rank order, and every check is
      among them. */
  lemma CheckOrderRanked()
    ensures InRankOrder(CheckOrder)
    ensures forall c :: c in CheckOrder
  {
    forall i | 0 <= i < |CheckOrder|
      ensures Rank(CheckOrder[i]) == i
    {
      assert i == 0 || i == 1 || i == 2 || i == 3 || i == 4 || i == 5 || i == 6 || i == 7;
    }
    forall c ensures c in CheckOrder {
      assert CheckOrder[Rank(c)] == c;
    }
  }

  // ---------------------------------------------------------------- validation

  /** What `validate_loan_application` returns: the reasons and the metrics. */
  datatype Assessment = Assessment(issues: seq<Reason>, metrics: Metrics)

  /** `validate_loan_application`: judge the application against the
      criteria of its loan type (the 'Personal Loan' criteria for a type the
      table does not know). A reason is listed exactly when its check fails,
      every listed reason is its check's own, the reasons follow the fixed
      check order, and the list is empty exactly when all eight checks pass. */
  function Validate(b: Borrower, app: Application, today: Date): (r: Assessment)
    requires app.interestRate > 0.0 && app.term >= 1
    ensures var crit := Lookup(app.loanType);
            forall c :: ReasonFor(c, crit, r.metrics) in r.issues <==> Fails(c, crit, b, app.interestRate, r.metrics)
    ensures var crit := Lookup(app.loanType);
            forall x :: x in r.issues ==> x == ReasonFor(CheckOf(x), crit, r.metrics)
    ensures ReasonsInRankOrder(r.issues)
    ensures |r.issues| == 0 <==> forall c :: !Fails(c, Lookup(app.loanType), b, app.interestRate, r.metrics)
    ensures r.metrics == Measure(b, app, today)
  {
    var crit := Lookup(app.loanType);
    var m := Measure(b, app, today);
    var issues := Screen(crit, b, app.interestRate, m);
    ScreenMeaning(crit, b, app.interestRate, m);
    Assessment(issues, m)
  }

  /** The meaning of `Screen` for the eight checks. */
  lemma ScreenMeaning(crit: Thresholds, b: Borrower, rate: real, m: Metrics)
    ensures var issues := Screen(crit, b, rate, m);
            && (forall c :: ReasonFor(c, crit, m) in issues <==> Fails(c, crit, b, rate, m))
            && (forall x :: x in issues ==> x == ReasonFor(CheckOf(x), crit, m))
            && ReasonsInRankOrder(issues)
            && (|issues| == 0 <==> forall c :: !Fails(c, crit, b, rate, m))
  {
    CheckOrderRanked();
    RankedReasonsMeaning(CheckOrder, crit, b, rate, m);
  }

  /** Running every check, in rank order: the reasons listed are exactly
      those of the failing checks, in rank order. */
  lemma RankedReasonsMeaning(checks: seq<Check>, crit: Thresholds, b: Borrower, rate: real, m: Metrics)
    requires InRankOrder(checks)
    requires forall c :: c in checks
    ensures var issues := Reasons(checks, crit, b, rate, m);
            && (forall c :: ReasonFor(c, crit, m) in issues <==> Fails(c, crit, b, rate, m))
            && (forall x :: x in issues ==> x == ReasonFor(CheckOf(x), crit, m))
            && ReasonsInRankOrder(issues)
            && (|issues| == 0 <==> forall c :: !Fails(c, crit, b, rate, m))
  {
    var issues := Reasons(checks, crit, b, rate, m);
    ReasonsSound(checks, crit, b, rate, m);
    ReasonsComplete(checks, crit, b, rate, m);
    ReasonsOrdered(checks, crit, b, rate, m);
    forall c | ReasonFor(c, crit, m) in issues
      ensures Fails(c, crit, b, rate, m)
    {
      CheckOfReason(c, crit, m);
    }
    if |issues| > 0 {
      assert issues[0] in issues;
    }
  }

  /** The status the application layer files an application under: pending
      manual review when no check failed, rejected with the reasons otherwise. */
  function Decide(issues: seq<Reason>): (s: Status)
    ensures s.Pending? <==> |issues| == 0
    ensures s.Rejected? ==> s.reasons == issues
  {
    if |issues| > 0 then Rejected(issues) else Pending
  }

  /** An application goes to manual review exactly when it passes all eight
      checks of its loan type's criteria. */
  lemma PendingIffAllPass(b: Borrower, app: Application, today: Date)
    requires app.interestRate > 0.0 && app.term >= 1
    ensures var r := Validate(b, app, today);
            Decide(r.issues) == Pending
            <==> forall c :: !Fails(c, Lookup(app.loanType), b, app.interestRate, r.metrics)
  {
  }

  /** A loan type the table does not know is judged exactly as a
      'Personal Loan'. */
  lemma UnknownTypeJudgedAsPersonal(b: Borrower, app: Application, today: Date)
    requires app.interestRate > 0.0 && app.term >= 1 && app.loanType !in Table
    ensures Validate(b, app, today) == Validate(b, app.(loanType := PersonalLoan), today)
  {
  }

  /** Without a positive income the loan-to-income ratio is +infinity, so
      whatever the loan type, the loan-to-income check fails and the
      application is rejected. */
  lemma NoIncomeFailsLoanToIncome(b: Borrower, app: Application, today: Date)
    requires app.interestRate > 0.0 && app.term >= 1 && b.annualIncome <= 0.0
    ensures var r := Validate(b, app, today);
            && r.metrics.loanToIncome == Infinity
            && MaxLoanToIncome(Lookup(app.loanType).maxLoanToIncome) in r.issues
            && Decide(r.issues).Rejected?
  {
    var r := Validate(b, app, today);
    assert Fails(LoanToIncomeCheck, Lookup(app.loanType), b, app.interestRate, r.metrics);
    assert ReasonFor(LoanToIncomeCheck, Lookup(app.loanType), r.metrics) in r.issues;
  }

  /** With no income the DTI ratio is the sentinel 100. */
  lemma NoIncomeDtiSentinel(b: Borrower, app: Application, today: Date)
    requires app.interestRate > 0.0 && app.term >= 1 && b.annualIncome == 0.0
    ensures Validate(b, app, today).metrics.dtiRatio == 100.0
  {
  }

  /** 'Education Loan' allows a DTI ratio of at most 0: any positive ratio
      fails its DTI check. */
  lemma EducationLoanDti(b: Borrower, app: Application, today: Date)
    requires app.interestRate > 0.0 && app.term >= 1 && app.loanType == EducationLoan
    ensures var r := Validate(b, app, today);
            r.metrics.dtiRatio > 0.0 <==> MaxDti(0, r.metrics.dtiRatio) in r.issues
  {
    var r := Validate(b, app, today);
    LookupKnown();
    assert ReasonFor(DtiCheck, Lookup(app.loanType), r.metrics) == MaxDti(0, r.metrics.dtiRatio);
  }

  /** Hence an 'Education Loan' with a positive EMI is always rejected
      when the borrower has no negative income or debts. */
  lemma EducationLoanAlwaysRejected(b: Borrower, app: Application, today: Date)
    requires app.interestRate > 0.0 && app.term >= 1 && app.loanType == EducationLoan
    requires b.annualIncome >= 0.0 && b.existingEmis >= 0.0 && Emi(app.amount, app.interestRate, app.term) > 0.0
    ensures var r := Validate(b, app, today);
            MaxDti(0, r.metrics.dtiRatio) in r.issues && Decide(r.issues).Rejected?
  {
    var r := Validate(b, app, today);
    if b.annualIncome > 0.0 {
      DtiSign(b, Emi(app.amount, app.interestRate, app.term));
    }
    EducationLoanDti(b, app, today);
  }

  /** A failing check is reported, a passing one is not. */
  lemma Reported(b: Borrower, app: Application, today: Date, c: Check)
    requires app.interestRate > 0.0 && app.term >= 1
    ensures var r := Validate(b, app, today);
            ReasonFor(c, Lookup(app.loanType), r.metrics) in r.issues
            <==> Fails(c, Lookup(app.loanType), b, app.interestRate, r.metrics)
  {
  }

  /** A borrower earning 250000 a year with a credit score of 600 asks for a
      'Personal Loan' of 1000000 over 60 months at 10.5%. The minimum-income,
      credit-score and DTI checks all fail and are all reported, so the
      application is rejected. */
  lemma LowIncomePersonalLoan(b: Borrower, app: Application, today: Date)
    requires b.annualIncome == 250000.0 && b.creditScore == 600 && b.existingEmis >= 0.0
    requires app == Application(1000000.0, 10.5, 60, PersonalLoan)
    ensures var r := Validate(b, app, today);
            && MinIncome(300000) in r.issues
            && MinCreditScore(650) in r.issues
            && MaxDti(40, r.metrics.dtiRatio) in r.issues
            && Decide(r.issues).Rejected?
  {
    LookupKnown();
    LowIncomeMetrics(b, app, today);
    Reported(b, app, today, IncomeCheck);
    Reported(b, app, today, CreditCheck);
    Reported(b, app, today, DtiCheck);
  }

  /** The same application is 4 times the income, within the 'Personal Loan'
      limit of 5, so no loan-to-income reason is listed. */
  lemma LowIncomeWithinLoanToIncome(b: Borrower, app: Application, today: Date)
    requires b.annualIncome == 250000.0 && b.existingEmis >= 0.0
    requires app == Application(1000000.0, 10.5, 60, PersonalLoan)
    ensures MaxLoanToIncome(5) !in Validate(b, app, today).issues
  {
    LookupKnown();
    LowIncomeMetrics(b, app, today);
    WithinLoanToIncomeLimit(b, app, today, Lookup(app.loanType), Validate(b, app, today).metrics);
  }

  /** A finite loan-to-income ratio no larger than the type's limit is never
      reported. */
  lemma WithinLoanToIncomeLimit(b: Borrower, app: Application, today: Date, crit: Thresholds, m: Metrics)
    requires app.interestRate > 0.0 && app.term >= 1
    requires crit == Lookup(app.loanType) && m == Validate(b, app, today).metrics
    requires m.loanToIncome.Finite? && m.loanToIncome.value <= crit.maxLoanToIncome as real
    ensures MaxLoanToIncome(crit.maxLoanToIncome) !in Validate(b, app, today).issues
  {
    Reported(b, app, today, LoanToIncomeCheck);
  }

  /** The metrics of that application: DTI above 40%, loan-to-income 4. */
  lemma LowIncomeMetrics(b: Borrower, app: Application, today: Date)
    requires b.annualIncome == 250000.0 && b.existingEmis >= 0.0
    requires app == Application(1000000.0, 10.5, 60, PersonalLoan)
    ensures Validate(b, app, today).metrics.dtiRatio > 40.0
    ensures Validate(b, app, today).metrics.loanToIncome == Finite(4.0)
  {
    var emi := Emi(app.amount, app.interestRate, app.term);
    EmiCoversInterest(app.amount, app.interestRate, app.term);
    DtiAbove(Dti(b, emi), b.existingEmis + emi);
    var lti := LoanToIncome(app.amount, b.annualIncome);
    FourTimes(lti.value, app.amount, b.annualIncome);
  }

  lemma FourTimes(v: real, amount: real, income: real)
    requires v * income == amount && income == 250000.0 && amount == 1000000.0
    ensures v == 4.0
  {
  }

  /** Monthly debt above 8749 on a monthly income of 250000 / 12 is a DTI
      ratio above 40%. */
  lemma DtiAbove(d: real, debt: real)
    requires d * (250000.0 / 12.0) == debt * 100.0 && debt > 8749.0
    ensures d > 40.0
  {
  }
}
