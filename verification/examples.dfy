/** Worked instances of the age rules. */
module Examples {
  import opened Numerals
  import opened Dates
  import opened Records
  import opened Age

  lemma SmallNumbers()
    ensures NatToString(0) == "0" && NatToString(1) == "1" && NatToString(2) == "2"
    ensures NatToString(11) == "11"
  {
    assert DigitChar(0) == '0' && DigitChar(1) == '1' && DigitChar(2) == '2';
    assert NatToString(11) == NatToString(1) + [DigitChar(1)];
  }

  /** One day short of the monthly anniversary counts one month fewer. */
  lemma DayRollback()
    ensures ChildAgeLabel(Date(2024, 1, 15), Date(2024, 2, 14)) == "0개월"
    ensures ChildAgeLabel(Date(2024, 1, 15), Date(2024, 2, 15)) == "1개월"
  {
    SmallNumbers();
    assert ChildAgeParts(Date(2024, 1, 15), Date(2024, 2, 14)) == AgeParts(0, 0);
    assert ChildAgeParts(Date(2024, 1, 15), Date(2024, 2, 15)) == AgeParts(0, 1);
  }

  /** The second birthday turns "1년 11개월" into "2년", with no month part. */
  lemma YearBoundary()
    ensures ChildAgeLabel(Date(2023, 4, 28), Date(2025, 4, 27)) == "1년 11개월"
    ensures ChildAgeLabel(Date(2023, 4, 28), Date(2025, 4, 28)) == "2년"
  {
    SmallNumbers();
    assert ChildAgeParts(Date(2023, 4, 28), Date(2025, 4, 27)) == AgeParts(1, 11);
    assert ChildAgeParts(Date(2023, 4, 28), Date(2025, 4, 28)) == AgeParts(2, 0);
  }

  /**
    A birth one day after now: the child card clamps to "0개월", the parent
    card shows "-1개월".
   */
  lemma ClampDifference()
    ensures ChildAgeLabel(Date(2026, 10, 11), Date(2026, 10, 10)) == "0개월"
    ensures ParentAgeLabel(Parent("", Mother, "", 2026, MonthDay(10, 11), "", "", "", ""), Date(2026, 10, 10)) == "-1개월"
  {
    SmallNumbers();
  }
}
