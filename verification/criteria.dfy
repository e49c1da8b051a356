/**
 The per-loan-type eligibility thresholds and their lookup.

 The table is static data: five loan types, each with eight thresholds.
 Looking up a type the table does not know yields the 'Personal Loan'
 thresholds rather than a failure.
 */
module Criteria {

  /** The eight thresholds of one loan type. Thresholds the table writes as
      integer literals are `int`; the two interest-rate floors it writes with a
      decimal point are `real`. */
  datatype Thresholds = Thresholds(
    minAge: int,
    maxAgeAtMaturity: int,
    minIncome: int,
    minEmploymentYears: int,
    minCreditScore: int,
    maxDtiRatio: int,
    minInterestRate: real,
    maxLoanToIncome: int
  )

  const PersonalLoan: string := "Personal Loan"
  const HomeLoan: string := "Home Loan"
  const CarLoan: string := "Car Loan"
  const EducationLoan: string := "Education Loan"
  const BusinessLoan: string := "Business Loan"

  /** The criteria table, keyed by loan-type name. */
  const Table: map<string, Thresholds> := map[
    PersonalLoan := Thresholds(21, 65, 300000, 1, 650, 40, 10.5, 5),
    HomeLoan := Thresholds(21, 70, 600000, 2, 700, 35, 8.5, 6),
    CarLoan := Thresholds(21, 65, 400000, 1, 600, 45, 7.5, 5),
    EducationLoan := Thresholds(18, 35, 0, 0, 550, 0, 8.0, 10),
    BusinessLoan := Thresholds(25, 65, 800000, 3, 720, 30, 11.0, 4)
  ]

  /** The thresholds a loan of type `loanType` is judged by: its own table
      entry when it has one, the 'Personal Loan' entry otherwise. */
  function Lookup(loanType: string): (c: Thresholds)
    ensures loanType in Table ==> c == Table[loanType]
    ensures loanType !in Table ==> c == Table[PersonalLoan]
  {
    if loanType in Table then Table[loanType] else Table[PersonalLoan]
  }

  /** The table knows exactly the five supported loan types. */
  lemma TableKeys()
    ensures Table.Keys == {PersonalLoan, HomeLoan, CarLoan, EducationLoan, BusinessLoan}
  {
  }

  /** The thresholds each supported loan type is judged by. */
  lemma LookupKnown()
    ensures Lookup(PersonalLoan) == Thresholds(21, 65, 300000, 1, 650, 40, 10.5, 5)
    ensures Lookup(HomeLoan) == Thresholds(21, 70, 600000, 2, 700, 35, 8.5, 6)
    ensures Lookup(CarLoan) == Thresholds(21, 65, 400000, 1, 600, 45, 7.5, 5)
    ensures Lookup(EducationLoan) == Thresholds(18, 35, 0, 0, 550, 0, 8.0, 10)
    ensures Lookup(BusinessLoan) == Thresholds(25, 65, 800000, 3, 720, 30, 11.0, 4)
  {
  }

  /** Every lookup, known type or not, lands on one of the table's entries,
      and an unknown type lands on the same thresholds as 'Personal Loan'. */
  lemma LookupFallback(loanType: string)
    ensures Lookup(loanType) in Table.Values
    ensures loanType !in Table ==> Lookup(loanType) == Lookup(PersonalLoan)
  {
    assert PersonalLoan in Table;
  }

  /** The 'Education Loan' entry is the only one whose DTI ceiling is 0. */
  lemma ZeroDtiCeilingOnlyForEducation(loanType: string)
    requires loanType in Table
    ensures Table[loanType].maxDtiRatio == 0 <==> loanType == EducationLoan
  {
  }
}
