# Loan underwriting and amortization model

A Dafny model of the core of a small loan-management web application. The
core has three parts:

- **Criteria**: the per-loan-type eligibility table. It covers five loan types with
  eight thresholds each. A loan type the table does not know is judged by the
  'Personal Loan' thresholds.
- **Calculator**: the amortization engine.
  - The equated monthly instalment (EMI) is the standard annuity payment,
    rounded to cents.
  - The repayment schedule splits every month's payment into interest on the
    outstanding balance and principal. Its last month is forced to clear the
    balance.
  - The total interest is the EMI times the term, less the principal.
- **Validator**: underwriting.
  - From the borrower and the application it derives five metrics: age,
    employment tenure, debt-to-income (DTI) ratio, loan-to-income ratio and
    age at maturity.
  - It then runs eight threshold checks without short-circuiting. Every
    failing check adds one reason.
  - The application layer files an application with no reasons as pending
    manual review, and one with reasons as rejected.

Files:

- `rounding.dfy`: `round(x, 2)` and `round(x, 1)` as round-half-to-even on exact reals.
- `criteria.dfy`: the criteria table and its lookup.
- `calculator.dfy`: EMI, schedule, total interest, and the amortization theory behind them:
  - the closed form of the outstanding balance;
  - the level payment is exactly the payment that clears the loan;
  - the schedule repays the principal;
  - the interest of the schedule.
- `validator.dfy`: metrics, checks, validation, status, and the sentinel and scenario properties.

Money is an exact `real`, and every point where the source rounds goes
through `Rounding.Round2` or `Rounding.Round1`. Dates carry their calendar
fields (for age) and a day number (for durations). "Today" is a parameter.

## Model

| member | source | states |
|---|---|---|
| Criteria.Lookup | models.py:137 | The thresholds used are the table's entry for a known type and the 'Personal Loan' entry for any other type. |
| Criteria.LookupFallback | models.py:137 | Every lookup lands on some table entry, and an unknown type gets exactly the 'Personal Loan' thresholds. |
| Criteria.LookupKnown | models.py:5-56 | The eight thresholds of each of the five loan types, value by value. |
| Criteria.TableKeys | models.py:5-56 | The table knows exactly the five loan types. |
| Criteria.ZeroDtiCeilingOnlyForEducation | models.py:42 | 'Education Loan' is the only type whose maximum DTI ratio is 0. |
| Calculator.ExactEmi | models.py:60-65 | The unrounded annuity payment P*r*(1+r)^n/((1+r)^n-1) is a level payment: n payments compounded to the end of the term equal the principal compounded over the term. It is positive for a positive principal. |
| Calculator.LevelPaymentUnique | models.py:60-65 | At a positive rate there is only one level payment. |
| Calculator.Emi | models.py:60-66 | The EMI is within half a cent of the unrounded annuity payment and is a whole number of cents. |
| Calculator.LevelPaymentExceedsInterest | models.py:60-65 | A level payment on a positive principal exceeds the first month's interest. |
| Calculator.EmiCoversInterest | models.py:60-66 | The rounded EMI exceeds the first month's interest less half a cent. |
| Calculator.ClearsLoanIffLevel | models.py:60-65 | After n payments of e nothing is outstanding exactly when e is the level payment (both directions). |
| Calculator.OutstandingClosedForm | models.py:77-79 | What k monthly payments leave outstanding equals the balance grown by k months of interest, less every payment grown from its month to the end. |
| Calculator.ExactEmiClearsLoan | models.py:60-66 | The unrounded payment leaves nothing outstanding. The cent-rounded EMI leaves (exact - EMI)*(1 + q + ... + q^(n-1)) outstanding. |
| Calculator.Amortize | models.py:77-95 | The schedule has one entry per remaining month. Entry k is numbered i+k and falls due 30*(i+k) days after the start. The first entry opens with the balance. |
| Calculator.AmortizeMonths | models.py:78-79 | In every month the interest is the opening balance times the monthly rate, the payment is principal plus interest, and the closing balance is the opening less the principal. |
| Calculator.AmortizeLevel | models.py:79 | Every month but the last pays the EMI. |
| Calculator.AmortizeChained | models.py:97 | Each month opens with the previous month's closing balance. |
| Calculator.AmortizeClears | models.py:81-84 | The last month's principal is its whole opening balance, so its closing balance is exactly 0. |
| Calculator.GenerateSchedule | models.py:69-99 | The schedule has exactly `loan_term` entries. Entry k is numbered k+1 and falls due 30*(k+1) days after the start. Each entry is the unrounded month with its money columns rounded to cents. The last remaining principal is 0. |
| Calculator.RoundEntry | models.py:88-95 | A reported entry keeps the month's number and due date, and each money column is within half a cent of the unrounded value. |
| Calculator.RepaysBalance | models.py:81-97 | Whatever the payment, the principal parts of a schedule add up to the balance it opens with. |
| Calculator.ScheduleRepaysPrincipal | models.py:69-99 | The unrounded principal column of the schedule adds up to exactly the loan amount. |
| Calculator.ScheduleRepaysPrincipalWithinRounding | models.py:92 | The reported principal column adds up to the loan amount within half a cent per month. |
| Calculator.LastPaymentResidual | models.py:81-84 | The last payment is the EMI plus what n level payments of the EMI would leave outstanding. |
| Calculator.ExactEmiScheduleIsLevel | models.py:77-84 | With the unrounded annuity payment, the last-month correction changes nothing and every month pays the same amount. |
| Calculator.InterestClosedForm | models.py:77-97 | A schedule's interest is n payments less the balance, plus what the level payments leave outstanding. |
| Calculator.ScheduleInterest | models.py:69-99 | The schedule's interest is EMI*n - P (the total-interest figure before rounding) plus the EMI's rounding error compounded into the last month. |
| Calculator.TotalInterest | models.py:102-106 | The total interest is within half a cent of EMI*n - P and is a whole number of cents. |
| Validator.Age | models.py:110-115 | Age is 0 without a birth date. Otherwise it is the number of birthdays had: the a-th has come by today and the (a+1)-th has not. |
| Validator.AgeUnique | models.py:115 | No other count of birthdays satisfies that characterisation. |
| Validator.AgeYearDifference | models.py:115 | Age is the year difference or one less, and one less exactly when today's (month, day) is before the birthday's. |
| Validator.EmploymentYears | models.py:118-123 | Tenure is 0 without a start date. Otherwise it is within 0.05 of the days since the start over 365.25, and is a whole number of tenths. |
| Validator.EmploymentYearsBounds | models.py:122-123 | A start on or before today gives tenure at least 0; a start a full year or more back gives at least 1.0. |
| Validator.EmploymentMeetsMinimum | models.py:122-123 | The rounded tenure reaches n whole years exactly when the unrounded tenure is at least n - 0.05 years (a tie rounds to the even 10n tenths). |
| Validator.OneYearFrom347Days | models.py:122-123 | The rounded tenure reaches one year exactly from the 347th day after the start. |
| Validator.Dti | models.py:126-132 | With zero income the DTI is the sentinel 100. Otherwise DTI times the monthly income equals 100 times the monthly debt (existing EMIs plus the new EMI). |
| Validator.DtiSign | models.py:126-132 | With positive income and non-negative debts the DTI is non-negative, and positive once there is any debt. |
| Validator.LoanToIncome | models.py:145 | The ratio is +infinity exactly when the income is not positive. Otherwise ratio times income equals the amount. |
| Validator.Measure | models.py:141-146 | The metrics are the borrower's age and tenure on the given day, the DTI ratio with the new loan's cent-rounded EMI added to the existing debts, the loan-to-income ratio, and the age at maturity from that age and the term. |
| Validator.AgeAtMaturity | models.py:146 | Age at maturity exceeds the age by the term in twelfths of a year. |
| Validator.Screen | models.py:148-176 | The eight checks, evaluated in source order, produce exactly the reasons of running every check in turn and appending the reason of each failing one. |
| Validator.ReasonsSound | models.py:148-176 | Every listed reason belongs to a check that was run and failed, and is that check's own reason. |
| Validator.ReasonsComplete | models.py:148-176 | Every failing check that was run has its reason listed. |
| Validator.ReasonsOrdered | models.py:148-176 | Checks run in order list their reasons in that order. |
| Validator.CheckOrderRanked | models.py:148-176 | The fixed check order covers all eight checks, each once and in order. |
| Validator.Validate | models.py:135-184 | A check's reason is listed exactly when the check fails against the type's criteria. Every listed reason is its check's own. Reasons follow the fixed check order. The list is empty exactly when all eight checks pass. The metrics returned are those the borrower and application give (`Validator.Measure`). |
| Validator.Reported | models.py:148-176 | A failing check is reported and a passing one is not. |
| Validator.Decide | app.py:143-152 | The status is Pending exactly when there are no reasons. A rejection carries the reasons unchanged. |
| Validator.PendingIffAllPass | app.py:143-152 | An application goes to manual review exactly when it passes all eight checks of its type. |
| Validator.UnknownTypeJudgedAsPersonal | models.py:137 | An application of an unknown type is assessed identically to the same application as a 'Personal Loan'. |
| Validator.NoIncomeFailsLoanToIncome | models.py:145-176 | Without positive income the loan-to-income ratio is +infinity, the check fails for every loan type, and the application is rejected. |
| Validator.NoIncomeDtiSentinel | models.py:130-131 | With zero income the DTI reported is 100. |
| Validator.EducationLoanDti | models.py:166-168 | For an 'Education Loan', whose DTI ceiling is 0, the DTI reason is listed exactly when the DTI is positive. |
| Validator.EducationLoanAlwaysRejected | models.py:166-168 | An 'Education Loan' with a positive EMI, non-negative income and non-negative debts is always rejected on DTI. |
| Validator.LowIncomePersonalLoan | models.py:155-168 | A 1000000 'Personal Loan' over 60 months at 10.5% for a borrower earning 250000 with credit score 600 lists the income, credit and DTI reasons and is rejected. |
| Validator.LowIncomeMetrics | models.py:143-145 | That application has a DTI above 40 and a loan-to-income ratio of exactly 4. |
| Validator.LowIncomeWithinLoanToIncome | models.py:175 | That application lists no loan-to-income reason. |
| Validator.WithinLoanToIncomeLimit | models.py:175 | A finite loan-to-income ratio at or below the type's limit is never reported. |

## Left out

- Persistence, the web layer, sessions and reason formatting are not modelled:
  - the database, Flask routes and flash messages;
  - the text of each reason (`Reason` carries the threshold and, for DTI, the applicant's ratio instead);
  - the `' | '.join` rejection string.
- `datetime.today()` is a parameter. Calendar arithmetic is not modelled: a date's day number is taken as given, and `timedelta(days=30*i)` becomes day number `start + 30*i`.
- Floating point is not modelled. Money and ratios are exact reals, and `round` is round-half-to-even on the exact value, so binary representation error is not reflected.
- A zero or negative interest rate and a term below one month are excluded by choice, through the preconditions of `Calculator.Emi`, `Calculator.GenerateSchedule`, `Calculator.TotalInterest` and `Validator.Validate`:
  - at rate 0 the EMI formula divides by zero and the source raises an error;
  - a negative rate still yields an EMI, and the rate check then rejects the application;
  - a term of 0 divides by zero;
  - a negative term yields a negative EMI and an empty schedule.
  The amortization theory (level payment, positive geometric sum) needs a positive rate and at least one month.
- Calculator.LevelPaymentExceedsInterest: holds for the exact level payment only. The cent-rounded EMI can fall to the first month's interest: for 1000 at 12% over 1000 months the exact payment is about 10.0005, the EMI rounds to 10.00, and every month before the last repays no principal.
- Calculator.TotalInterest: relates the total interest to the EMI only. The total interest is not within a cent of the schedule's interest column in general. `Calculator.ScheduleInterest` states the exact gap: the EMI rounding error, compounded.
- Validator.EducationLoanAlwaysRejected: requires a positive EMI and non-negative income and debts. A negative DTI (negative income or debts) would pass the 0 ceiling.
- The form parsing in app.py (`float`/`int` conversion of the request fields) is not modelled. `Application` receives the parsed values.

Behaviour of the code that the model keeps:

- Eight checks run, each independently, in the order of models.py:148-176.
- There is no special case for a zero rate and no argument validation: the EMI formula is evaluated as written.
- Rounding is Python's round-half-to-even.
- The annuity formula on 500000 at 10.5% over 24 months gives an EMI of 23188.02.
- The total interest (EMI*n - P, rounded) can differ from the sum of the schedule's interest column by more than 0.01: the last-month correction adds the EMI's rounding error, compounded over the term (`Calculator.ScheduleInterest`).
