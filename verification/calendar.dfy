/**
  The birthday calendar: one entry per parent, then one per child, sorted by
  month and then day as read back from each entry's "MM.DD" text, with the
  entries that fall on today's month and day flagged.
 */
module Calendar {
  import opened Wrappers
  import opened Numerals
  import opened Strings
  import opened Sorting
  import opened Dates
  import opened Records

  datatype GridEntry = GridEntry(name: string, date: string, kind: string, color: string, isToday: bool)

  /** The category labels shown on an entry. */
  function RoleLabel(r: Role): string {
    if r == Mother then "엄마" else "아빠"
  }

  const ChildLabel: string := "자녀"

  const ChildColor: string := "#ffffff"

  /**
    `date.split('.').map(Number)`, first two values: the month and day the sort
    comparator reads from an entry. None stands for NaN or a missing value.
   */
  function ParseMonthDay(s: string): Option<MonthDay> {
    var parts := Split(s, '.');
    if |parts| < 2 then None
    else
      match (StringToNumber(parts[0]), StringToNumber(parts[1]))
      case (Some(m), Some(d)) => Some(MonthDay(m, d))
      case _ => None
  }

  /** Two digits, a '.', two digits. */
  predicate IsMonthDayText(s: string) {
    |s| == 5 && s[2] == '.' && AllDigits(s[..2]) && AllDigits(s[3..])
  }

  /**
    The zero-padded "MM.DD" text of a child's month and day. For a month and
    day below 100 it is two digits, '.', two digits, and for any month and day
    at least 0 the comparator reads them back from it. MonthDayTextUnique shows
    these two facts fix the text.
   */
  function MonthDayText(month: int, day: int): (s: string)
    ensures 0 <= month < 100 && 0 <= day < 100 ==> IsMonthDayText(s)
    ensures month >= 0 && day >= 0 ==> ParseMonthDay(s) == Some(MonthDay(month, day))
  {
    MonthDayTextFacts(month, day);
    Pad2(month) + "." + Pad2(day)
  }

  lemma MonthDayTextFacts(month: int, day: int)
    ensures 0 <= month < 100 && 0 <= day < 100 ==> IsMonthDayText(Pad2(month) + "." + Pad2(day))
    ensures month >= 0 && day >= 0 ==>
      ParseMonthDay(Pad2(month) + "." + Pad2(day)) == Some(MonthDay(month, day))
  {
    if month >= 0 && day >= 0 {
      MonthDayTextSplits(month, day);
    }
    if 0 <= month < 100 && 0 <= day < 100 {
      MonthDayTextForm(month, day);
    }
  }

  lemma MonthDayTextForm(month: nat, day: nat)
    requires month < 100 && day < 100
    ensures IsMonthDayText(Pad2(month) + "." + Pad2(day))
  {
    var s := Pad2(month) + "." + Pad2(day);
    assert s[..2] == Pad2(month) && s[3..] == Pad2(day);
  }

  /** A text of the "MM.DD" form that reads back to month and day is MonthDayText(month, day). */
  lemma MonthDayTextUnique(s: string, month: int, day: int)
    requires IsMonthDayText(s)
    requires ParseMonthDay(s) == Some(MonthDay(month, day))
    ensures 0 <= month < 100 && 0 <= day < 100 && s == MonthDayText(month, day)
  {
    var a, b := s[..2], s[3..];
    assert s == a + "." + b;
    NoDotInDigits(a);
    NoDotInDigits(b);
    assert Join([a, b], '.') == s;
    SplitJoin([a, b], '.');
    TwoDigitsArePad2(a);
    TwoDigitsArePad2(b);
  }

  lemma MonthDayTextSplits(month: nat, day: nat)
    ensures Split(Pad2(month) + "." + Pad2(day), '.') == [Pad2(month), Pad2(day)]
  {
    var a, b := Pad2(month), Pad2(day);
    NoDotInDigits(a);
    NoDotInDigits(b);
    assert Join([a, b], '.') == a + "." + b;
    SplitJoin([a, b], '.');
  }

  lemma NoDotInDigits(s: string)
    requires AllDigits(s)
    ensures '.' !in s
  {
    forall i | 0 <= i < |s| ensures s[i] != '.' {
      assert IsDigit(s[i]);
    }
  }

  /**
    The month and day the comparator reads from an entry. MonthDay(0, 0)
    stands in for NaN, which entries built from dates with non-negative
    months and days never give.
   */
  function EntryDay(e: GridEntry): MonthDay {
    match ParseMonthDay(e.date)
    case Some(md) => md
    case None => MonthDay(0, 0)
  }

  /** The grid comparator: month first, then day. */
  predicate GridLe(a: GridEntry, b: GridEntry) {
    MonthDayLe(EntryDay(a), EntryDay(b))
  }

  predicate HasDay(md: MonthDay) {
    md.month >= 0 && md.day >= 0
  }

  /**
    A parent's entry: its date text reads back to the parent's month-day, and
    it is flagged exactly when that month-day is today's.
   */
  function ParentEntry(p: Parent, today: MonthDay): (e: GridEntry)
    requires HasDay(p.birthDateFull)
    ensures EntryDay(e) == p.birthDateFull
    ensures p.birthDateFull.month < 100 && p.birthDateFull.day < 100 ==> IsMonthDayText(e.date)
    ensures e.isToday <==> EntryDay(e) == today
    ensures e.name == p.name && e.color == p.color && e.kind == RoleLabel(p.role)
  {
    var md := p.birthDateFull;
    GridEntry(p.name, MonthDayText(md.month, md.day), RoleLabel(p.role), p.color,
              md.month == today.month && md.day == today.day)
  }

  function BirthMonthDay(b: Bird): MonthDay {
    MonthDay(b.birthDate.month, b.birthDate.day)
  }

  /**
    A child's entry: its date text is the zero-padded "MM.DD" (two digits, '.',
    two digits) that reads back to the child's birth month and day, and
    it is flagged exactly when those are today's.
   */
  function ChildEntry(b: Bird, today: MonthDay): (e: GridEntry)
    requires HasDay(BirthMonthDay(b))
    ensures EntryDay(e) == BirthMonthDay(b)
    ensures 0 <= b.birthDate.month < 100 && 0 <= b.birthDate.day < 100 ==> IsMonthDayText(e.date)
    ensures e.isToday <==> EntryDay(e) == today
    ensures e.name == b.name && e.color == ChildColor && e.kind == ChildLabel
  {
    var m, d := b.birthDate.month, b.birthDate.day;
    GridEntry(b.name, MonthDayText(m, d), ChildLabel, ChildColor, m == today.month && d == today.day)
  }

  function ParentEntries(ps: seq<Parent>, today: MonthDay): (r: seq<GridEntry>)
    requires forall i :: 0 <= i < |ps| ==> HasDay(ps[i].birthDateFull)
    ensures |r| == |ps|
    ensures forall i :: 0 <= i < |ps| ==> r[i] == ParentEntry(ps[i], today)
  {
    seq(|ps|, i requires 0 <= i < |ps| => ParentEntry(ps[i], today))
  }

  function ChildEntries(bs: seq<Bird>, today: MonthDay): (r: seq<GridEntry>)
    requires forall i :: 0 <= i < |bs| ==> HasDay(BirthMonthDay(bs[i]))
    ensures |r| == |bs|
    ensures forall i :: 0 <= i < |bs| ==> r[i] == ChildEntry(bs[i], today)
  {
    seq(|bs|, i requires 0 <= i < |bs| => ChildEntry(bs[i], today))
  }

  /** The entries of s dated month.day, in their order in s. */
  function OnDay(s: seq<GridEntry>, month: int, day: int): seq<GridEntry> {
    if |s| == 0 then []
    else (if EntryDay(s[0]) == MonthDay(month, day) then [s[0]] else []) + OnDay(s[1..], month, day)
  }

  lemma GridLeIsTotalPreorder()
    ensures TotalPreorder(GridLe)
  {
  }

  /** Under GridLe, the entries tied with c are exactly those with c's month and day. */
  lemma {:induction false} GridTies(s: seq<GridEntry>, c: GridEntry)
    ensures Equivalents(s, GridLe, c) == OnDay(s, EntryDay(c).month, EntryDay(c).day)
  {
    if |s| > 0 {
      GridTies(s[1..], c);
    }
  }

  /**
    The birthday calendar for the parents and children on the day `now`: every
    parent and child entry once, ordered by month and then day; entries on the
    same month and day keep parents before children and each group's own order;
    an entry is flagged exactly when its month and day are now's.
   */
  function BirthdayGrid(parents: seq<Parent>, birds: seq<Bird>, now: Date): (r: seq<GridEntry>)
    requires forall i :: 0 <= i < |parents| ==> HasDay(parents[i].birthDateFull)
    requires forall i :: 0 <= i < |birds| ==> HasDay(BirthMonthDay(birds[i]))
    ensures |r| == |parents| + |birds|
    ensures multiset(r) == multiset(ParentEntries(parents, MonthDay(now.month, now.day))
                                    + ChildEntries(birds, MonthDay(now.month, now.day)))
    ensures forall i, j :: 0 <= i < j < |r| ==> MonthDayLe(EntryDay(r[i]), EntryDay(r[j]))
    ensures forall m: nat, d: nat ::
      (OnDay(r, m, d) == OnDay(ParentEntries(parents, MonthDay(now.month, now.day)), m, d)
                         + OnDay(ChildEntries(birds, MonthDay(now.month, now.day)), m, d))
    ensures forall i :: 0 <= i < |r| ==> (r[i].isToday <==> EntryDay(r[i]) == MonthDay(now.month, now.day))
  {
    var today := MonthDay(now.month, now.day);
    var all := ParentEntries(parents, today) + ChildEntries(birds, today);
    GridLeIsTotalPreorder();
    var r := SortBy(all, GridLe);
    GridFacts(parents, birds, today, r);
    r
  }

  lemma GridFacts(parents: seq<Parent>, birds: seq<Bird>, today: MonthDay, r: seq<GridEntry>)
    requires forall i :: 0 <= i < |parents| ==> HasDay(parents[i].birthDateFull)
    requires forall i :: 0 <= i < |birds| ==> HasDay(BirthMonthDay(birds[i]))
    requires var all := ParentEntries(parents, today) + ChildEntries(birds, today);
      multiset(r) == multiset(all) && Stable(r, all, GridLe)
    ensures |r| == |parents| + |birds|
    ensures forall m: nat, d: nat ::
      (OnDay(r, m, d) == OnDay(ParentEntries(parents, today), m, d) + OnDay(ChildEntries(birds, today), m, d))
    ensures forall i :: 0 <= i < |r| ==> (r[i].isToday <==> EntryDay(r[i]) == today)
  {
    var ps := ParentEntries(parents, today);
    var cs := ChildEntries(birds, today);
    assert |r| == |multiset(r)| == |ps + cs|;
    GridStable(ps, cs, r);
    EntriesFlagged(parents, birds, today);
    TodayFlags(ps + cs, r, today);
  }

  /** An entry's flag agrees with its month and day. */
  predicate FlaggedOn(e: GridEntry, today: MonthDay) {
    e.isToday <==> EntryDay(e) == today
  }

  lemma EntriesFlagged(parents: seq<Parent>, birds: seq<Bird>, today: MonthDay)
    requires forall i :: 0 <= i < |parents| ==> HasDay(parents[i].birthDateFull)
    requires forall i :: 0 <= i < |birds| ==> HasDay(BirthMonthDay(birds[i]))
    ensures var s := ParentEntries(parents, today) + ChildEntries(birds, today);
      forall i :: 0 <= i < |s| ==> FlaggedOn(s[i], today)
  {
    var ps := ParentEntries(parents, today);
    var cs := ChildEntries(birds, today);
    forall i | 0 <= i < |ps| ensures FlaggedOn(ps[i], today) {
      var e := ParentEntry(parents[i], today);
      assert ps[i] == e;
    }
    forall i | 0 <= i < |cs| ensures FlaggedOn(cs[i], today) {
      var e := ChildEntry(birds[i], today);
      assert cs[i] == e;
    }
    AllFlagged(ps, cs, today);
  }

  lemma AllFlagged(ps: seq<GridEntry>, cs: seq<GridEntry>, today: MonthDay)
    requires forall i :: 0 <= i < |ps| ==> FlaggedOn(ps[i], today)
    requires forall i :: 0 <= i < |cs| ==> FlaggedOn(cs[i], today)
    ensures forall i :: 0 <= i < |ps + cs| ==> FlaggedOn((ps + cs)[i], today)
  {
    forall i | 0 <= i < |ps + cs| ensures FlaggedOn((ps + cs)[i], today) {
      if i >= |ps| {
        assert (ps + cs)[i] == cs[i - |ps|];
      }
    }
  }

  lemma GridStable(ps: seq<GridEntry>, cs: seq<GridEntry>, r: seq<GridEntry>)
    requires Stable(r, ps + cs, GridLe)
    ensures forall m: nat, d: nat :: OnDay(r, m, d) == OnDay(ps, m, d) + OnDay(cs, m, d)
  {
    forall m: nat, d: nat ensures OnDay(r, m, d) == OnDay(ps, m, d) + OnDay(cs, m, d) {
      var c := GridEntry("", MonthDayText(m, d), "", "", false);
      GridTies(r, c);
      GridTies(ps + cs, c);
      GridTies(ps, c);
      GridTies(cs, c);
      EquivalentsAppend(ps, cs, GridLe, c);
    }
  }

  lemma TodayFlags(s: seq<GridEntry>, r: seq<GridEntry>, today: MonthDay)
    requires forall i :: 0 <= i < |s| ==> FlaggedOn(s[i], today)
    requires multiset(r) == multiset(s)
    ensures forall i :: 0 <= i < |r| ==> FlaggedOn(r[i], today)
  {
    forall i | 0 <= i < |r| ensures FlaggedOn(r[i], today) {
      assert r[i] in multiset(s);
    }
  }
}
