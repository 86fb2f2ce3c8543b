/**
  The age labels on the cards: whole months elapsed since birth, shown as
  years and months ("Y년 M개월", "Y년" or "M개월"). The child card clamps a
  negative count to 0; the parent card does not.
 */
module Age {
  import opened Wrappers
  import opened Numerals
  import opened Dates
  import opened Records

  /**
    The k-th monthly anniversary of birth (k months on, same day of the month)
    is not after now.
   */
  predicate AnniversaryReached(birth: Date, now: Date, k: int) {
    var m := MonthIndex(birth) + k;
    m < MonthIndex(now) || (m == MonthIndex(now) && birth.day <= now.day)
  }

  /**
    Calendar months from birth to now, one fewer while now's day of the month
    is before the birth day: the number of the last monthly anniversary reached.
   */
  function RawMonths(birth: Date, now: Date): (r: int)
    ensures forall k :: AnniversaryReached(birth, now, k) <==> k <= r
  {
    var total := (now.year - birth.year) * 12 + (now.month - birth.month);
    if now.day < birth.day then total - 1 else total
  }

  /** The birth itself is anniversary 0, so the count is negative exactly for a birth after now. */
  lemma RawMonthsNonNegative(birth: Date, now: Date)
    requires 1 <= birth.month <= 12 && 1 <= now.month <= 12
    ensures RawMonths(birth, now) >= 0 <==> DateLe(birth, now)
  {
    assert AnniversaryReached(birth, now, 0) <==> 0 <= RawMonths(birth, now);
  }

  datatype AgeParts = AgeParts(years: int, months: int)

  /**
    The child card's age: `years` full years and `months` (0 to 11) more, which
    together count the monthly anniversaries after birth that now has reached
    (none for a birth after now).
   */
  function ChildAgeParts(birth: Date, now: Date): (a: AgeParts)
    requires ValidDate(LocalDate(birth)) && ValidDate(now)
    ensures a.years >= 0 && 0 <= a.months < 12
    ensures forall k :: 1 <= k ==>
      (AnniversaryReached(LocalDate(birth), now, k) <==> k <= a.years * 12 + a.months)
  {
    var raw := RawMonths(LocalDate(birth), now);
    var total := if raw < 0 then 0 else raw;
    AgeParts(total / 12, total % 12)
  }

  /** The label both cards build from years and months. */
  function AgeLabel(years: int, months: int): string {
    if years > 0 then
      if months > 0 then IntToString(years) + "년 " + IntToString(months) + "개월"
      else IntToString(years) + "년"
    else IntToString(months) + "개월"
  }

  /** A run of digits written as `${n}` writes its value: no leading zero. */
  predicate CanonicalDigits(ds: string) {
    AllDigits(ds) && |ds| > 0 && ds == NatToString(DigitsValue(ds))
  }

  /**
    Reads a label back into its numbers. Only the forms the cards print are
    accepted: "Y년 M개월" with Y and M above 0, "Y년" with Y above 0, and
    "M개월", each number written without leading zeros.
   */
  function ParseAgeLabel(s: string): Option<AgeParts> {
    var (ds, rest) := DigitPrefix(s);
    if CanonicalDigits(ds) then ParseUnits(DigitsValue(ds), rest) else None
  }

  /** The part of a label after its first number n. */
  function ParseUnits(n: nat, rest: string): Option<AgeParts> {
    if rest == "개월" then Some(AgeParts(0, n))
    else if n == 0 then None
    else if rest == "년" then Some(AgeParts(n, 0))
    else if |rest| > 2 && rest[..2] == "년 " then
      var (ms, tail) := DigitPrefix(rest[2..]);
      if CanonicalDigits(ms) && DigitsValue(ms) > 0 && tail == "개월" then Some(AgeParts(n, DigitsValue(ms)))
      else None
    else None
  }

  /**
    The label names its numbers unambiguously: for years and months at least 0
    (months 0 printed only when years is 0) the label reads back to them.
   */
  lemma AgeLabelRoundTrip(years: nat, months: nat)
    ensures ParseAgeLabel(AgeLabel(years, months)) == Some(AgeParts(years, months))
  {
    if years > 0 && months > 0 {
      YearsAndMonthsRoundTrip(years, months);
    } else if years > 0 {
      assert AgeLabel(years, months) == NatToString(years) + "년";
      YearsOnlyRoundTrip(years);
    } else {
      assert AgeLabel(years, months) == NatToString(months) + "개월";
      MonthsOnlyRoundTrip(months);
    }
  }

  lemma YearsOnlyRoundTrip(years: nat)
    requires years > 0
    ensures ParseAgeLabel(NatToString(years) + "년") == Some(AgeParts(years, 0))
  {
    SingleUnitRoundTrip(years, "년");
  }

  lemma MonthsOnlyRoundTrip(months: nat)
    ensures ParseAgeLabel(NatToString(months) + "개월") == Some(AgeParts(0, months))
  {
    SingleUnitRoundTrip(months, "개월");
  }

  lemma SingleUnitRoundTrip(n: nat, unit: string)
    requires unit == "년" || unit == "개월"
    ensures var (ds, rest) := DigitPrefix(NatToString(n) + unit);
      ds == NatToString(n) && rest == unit && DigitsValue(ds) == n && CanonicalDigits(ds)
  {
    NatToStringRoundTrip(n);
    DigitPrefixOf(NatToString(n), unit);
  }

  /**
    The converse of AgeLabelRoundTrip: every text the parser accepts is the
    label of the numbers it reads, so a label is fixed by its numbers.
   */
  lemma AgeLabelCanonical(s: string)
    requires ParseAgeLabel(s).Some?
    ensures var a := ParseAgeLabel(s).value;
      a.years >= 0 && a.months >= 0 && s == AgeLabel(a.years, a.months)
  {
    var (ds, rest) := DigitPrefix(s);
    UnitsCanonical(DigitsValue(ds), rest);
  }

  /** What ParseUnits accepts after the number n is the rest of n's label. */
  lemma UnitsCanonical(n: nat, rest: string)
    requires ParseUnits(n, rest).Some?
    ensures var a := ParseUnits(n, rest).value;
      a.years >= 0 && a.months >= 0 && NatToString(n) + rest == AgeLabel(a.years, a.months)
  {
    if rest != "개월" && rest != "년" {
      MonthsPartCanonical(n, rest);
    }
  }

  lemma MonthsPartCanonical(n: nat, rest: string)
    requires n > 0 && |rest| > 2 && rest[..2] == "년 "
    requires var (ms, tail) := DigitPrefix(rest[2..]);
      CanonicalDigits(ms) && DigitsValue(ms) > 0 && tail == "개월"
    ensures NatToString(n) + rest == AgeLabel(n, DigitsValue(DigitPrefix(rest[2..]).0))
  {
    var (ms, tail) := DigitPrefix(rest[2..]);
    var m := DigitsValue(ms);
    assert rest == rest[..2] + rest[2..];
    assert rest == "년 " + NatToString(m) + "개월";
  }

  /** Two labels that read back to the same numbers are the same text. */
  lemma AgeLabelInjective(s: string, t: string)
    requires ParseAgeLabel(s).Some? && ParseAgeLabel(s) == ParseAgeLabel(t)
    ensures s == t
  {
    AgeLabelCanonical(s);
    AgeLabelCanonical(t);
  }

  lemma YearsAndMonthsRoundTrip(years: nat, months: nat)
    requires years > 0 && months > 0
    ensures ParseAgeLabel(AgeLabel(years, months)) == Some(AgeParts(years, months))
  {
    var y := NatToString(years);
    var m := NatToString(months);
    var rest := "년 " + m + "개월";
    assert AgeLabel(years, months) == y + rest;
    NatToStringRoundTrip(years);
    DigitPrefixOf(y, rest);
    MonthsPartRoundTrip(years, months);
  }

  lemma MonthsPartRoundTrip(years: nat, months: nat)
    requires years > 0 && months > 0
    ensures ParseUnits(years, "년 " + NatToString(months) + "개월") == Some(AgeParts(years, months))
  {
    var m := NatToString(months);
    var rest := "년 " + m + "개월";
    assert rest[..2] == "년 ";
    assert rest[2..] == m + "개월";
    assert |rest| > 3 && rest[0] == '년' && rest[1] == ' ';
    SingleUnitRoundTrip(months, "개월");
  }

  /**
    The child card's label reads back to ChildAgeParts; for a birth after now
    it is "0개월".
   */
  function ChildAgeLabel(birth: Date, now: Date): (s: string)
    requires ValidDate(LocalDate(birth)) && ValidDate(now)
    ensures ParseAgeLabel(s) == Some(ChildAgeParts(birth, now))
    ensures !DateLe(LocalDate(birth), now) ==> s == "0개월"
  {
    var a := ChildAgeParts(birth, now);
    AgeLabelRoundTrip(a.years, a.months);
    RawMonthsNonNegative(LocalDate(birth), now);
    AgeLabel(a.years, a.months)
  }

  /**
    JavaScript's `total % 12`: the remainder takes the sign of the dividend,
    so a negative total gives a remainder between -11 and 0.
   */
  function JsRem12(total: int): (r: int)
    ensures -12 < r < 12
    ensures total >= 0 ==> r >= 0
    ensures total < 0 ==> r <= 0
    ensures (total - r) % 12 == 0
  {
    if total >= 0 then total % 12 else -((-total) % 12)
  }

  /**
    The parent card's label. For a birth not after now it is the child card's
    label; for a birth after now there is no clamp, the years part is negative
    and the label is "-k개월" (k = the month count modulo 12) or "0개월".
   */
  function ParentAgeLabel(p: Parent, now: Date): (s: string)
    requires ValidDate(LocalDate(ParentBirth(p))) && ValidDate(now)
    ensures DateLe(LocalDate(ParentBirth(p)), now) ==> s == ChildAgeLabel(ParentBirth(p), now)
    ensures !DateLe(LocalDate(ParentBirth(p)), now) ==>
      var k := (-RawMonths(LocalDate(ParentBirth(p)), now)) % 12;
      s == (if k == 0 then "0" else "-" + NatToString(k)) + "개월"
  {
    var total := RawMonths(LocalDate(ParentBirth(p)), now);
    RawMonthsNonNegative(LocalDate(ParentBirth(p)), now);
    AgeLabel(total / 12, JsRem12(total))
  }
}
