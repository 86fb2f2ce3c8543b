/**
  The card gallery: the list of children for the selected filter in birth
  order, the filter buttons' keys, and the buttons' labels.
 */
module Gallery {
  import opened Wrappers
  import opened Numerals
  import opened Strings
  import opened Sorting
  import opened Dates
  import opened Records

  /** The filter value that selects every child. */
  const AllFilter: string := "all"

  predicate Matches(b: Bird, filter: string) {
    filter == AllFilter || b.year == filter
  }

  /** The children that match the filter, in their order in the collection. */
  function Keep(birds: seq<Bird>, filter: string): (r: seq<Bird>)
    ensures forall b :: multiset(r)[b] == if Matches(b, filter) then multiset(birds)[b] else 0
  {
    SelectCounts(birds, filter);
    Select(birds, filter)
  }

  /** `birds.filter(b => Matches(b, filter))`, element by element. */
  function Select(birds: seq<Bird>, filter: string): seq<Bird> {
    if |birds| == 0 then []
    else (if Matches(birds[0], filter) then [birds[0]] else []) + Select(birds[1..], filter)
  }

  lemma {:induction false} SelectCounts(birds: seq<Bird>, filter: string)
    ensures forall b :: multiset(Select(birds, filter))[b] == if Matches(b, filter) then multiset(birds)[b] else 0
  {
    if |birds| > 0 {
      SelectCounts(birds[1..], filter);
      assert birds == [birds[0]] + birds[1..];
    }
  }

  /**
    Keep preserves collection order: filtering a concatenation filters each
    part and keeps them in sequence. With KeepSingle this determines Keep.
   */
  lemma KeepAppend(a: seq<Bird>, b: seq<Bird>, filter: string)
    ensures Keep(a + b, filter) == Keep(a, filter) + Keep(b, filter)
  {
    SelectAppend(a, b, filter);
  }

  lemma {:induction false} SelectAppend(a: seq<Bird>, b: seq<Bird>, filter: string)
    ensures Select(a + b, filter) == Select(a, filter) + Select(b, filter)
  {
    if |a| > 0 {
      assert (a + b)[0] == a[0] && (a + b)[1..] == a[1..] + b;
      SelectAppend(a[1..], b, filter);
    } else {
      assert a + b == b;
    }
  }

  /** A single child is kept exactly when it matches the filter. */
  lemma KeepSingle(b: Bird, filter: string)
    ensures Keep([b], filter) == if Matches(b, filter) then [b] else []
  {
    assert [b][1..] == [];
    assert Select([b], filter) == (if Matches(b, filter) then [b] else []) + Select([], filter);
  }

  /** The children of s born on d, in their order in s. */
  function BornOn(s: seq<Bird>, d: Date): seq<Bird> {
    if |s| == 0 then []
    else (if s[0].birthDate == d then [s[0]] else []) + BornOn(s[1..], d)
  }

  /** The card comparator: earlier birth date first. */
  predicate BirthLe(a: Bird, b: Bird) {
    DateLe(a.birthDate, b.birthDate)
  }

  lemma BirthLeIsTotalPreorder()
    ensures TotalPreorder(BirthLe)
  {
  }

  /** Under BirthLe, the children tied with c are exactly those born on c's birth date. */
  lemma {:induction false} BirthTies(s: seq<Bird>, c: Bird)
    ensures Equivalents(s, BirthLe, c) == BornOn(s, c.birthDate)
  {
    if |s| > 0 {
      BirthTies(s[1..], c);
    }
  }

  function SomeBirdBornOn(d: Date): (b: Bird)
    ensures b.birthDate == d
  {
    Bird("", "", "", d, "", "", "", Images("", ""))
  }

  /**
    The children shown for a filter: every child for "all", otherwise those
    whose cohort key equals the filter; sorted by birth date, children born on
    the same day in collection order. The collection itself is a value and is
    left as it was.
   */
  function FilteredBirds(birds: seq<Bird>, filter: string): (r: seq<Bird>)
    ensures forall b :: multiset(r)[b] == if Matches(b, filter) then multiset(birds)[b] else 0
    ensures forall i, j :: 0 <= i < j < |r| ==> DateLe(r[i].birthDate, r[j].birthDate)
    ensures forall d :: BornOn(r, d) == BornOn(Keep(birds, filter), d)
  {
    BirthLeIsTotalPreorder();
    var list := if filter == AllFilter then birds else Keep(birds, filter);
    KeepAll(birds);
    var r := SortBy(list, BirthLe);
    SortedBirthTies(list, r);
    r
  }

  lemma {:induction false} KeepAll(birds: seq<Bird>)
    ensures Keep(birds, AllFilter) == birds
  {
    if |birds| > 0 {
      KeepAll(birds[1..]);
      assert birds == [birds[0]] + birds[1..];
    }
  }

  lemma SortedBirthTies(list: seq<Bird>, r: seq<Bird>)
    requires Stable(r, list, BirthLe)
    ensures forall d :: BornOn(r, d) == BornOn(list, d)
  {
    forall d ensures BornOn(r, d) == BornOn(list, d) {
      var c := SomeBirdBornOn(d);
      BirthTies(r, c);
      BirthTies(list, c);
    }
  }

  /** What Array.from(new Set(s)) holds: each value of s exactly once (the order is left open, as the sort that follows decides it). */
  function Distinct<T(==,!new)>(s: seq<T>): (r: seq<T>)
    ensures forall x :: multiset(r)[x] == if x in s then 1 else 0
  {
    if |s| == 0 then []
    else
      var d := Distinct(s[..|s| - 1]);
      var x := s[|s| - 1];
      assert s == s[..|s| - 1] + [x];
      if x in d then d else d + [x]
  }

  /** `birds.map(b => b.year)` */
  function Years(birds: seq<Bird>): (r: seq<string>)
    ensures |r| == |birds|
    ensures forall i :: 0 <= i < |birds| ==> r[i] == birds[i].year
  {
    if |birds| == 0 then [] else [birds[0].year] + Years(birds[1..])
  }

  lemma StrLeIsTotalPreorder()
    ensures TotalPreorder(StrLe)
  {
    forall a, b ensures StrLe(a, b) || StrLe(b, a) {
      StrLtAsymmetric(a, b);
    }
    forall a, b, c | StrLe(a, b) && StrLe(b, c) ensures StrLe(a, c) {
      if StrLt(c, a) {
        StrLtTrichotomy(a, b);
        if StrLt(a, b) {
          StrLtTransitive(c, a, b);
        }
      }
    }
  }

  /**
    The filter buttons' keys: each cohort key present in the collection, once,
    in ascending string order (not a date-aware order).
   */
  function FilterOptions(birds: seq<Bird>): (r: seq<string>)
    ensures forall i, j :: 0 <= i < j < |r| ==> StrLt(r[i], r[j])
    ensures forall k :: k in r <==> exists b :: b in birds && b.year == k
  {
    StrLeIsTotalPreorder();
    var keys := Distinct(Years(birds));
    var r := SortBy(keys, StrLe);
    SortedDistinctIsStrict(keys, r);
    forall k ensures k in r <==> k in Years(birds) {
      assert k in r <==> k in multiset(r);
    }
    YearsMembership(birds);
    r
  }

  lemma YearsMembership(birds: seq<Bird>)
    ensures forall k :: k in Years(birds) <==> exists b :: b in birds && b.year == k
  {
    var ys := Years(birds);
    forall k | k in ys ensures exists b :: b in birds && b.year == k {
      var i :| 0 <= i < |ys| && ys[i] == k;
      assert birds[i] in birds;
    }
    forall k | exists b :: b in birds && b.year == k ensures k in ys {
      var b :| b in birds && b.year == k;
      var i :| 0 <= i < |birds| && birds[i] == b;
      assert ys[i] == k;
    }
  }

  /** A sorted permutation of duplicate-free strings is strictly ascending. */
  lemma SortedDistinctIsStrict(keys: seq<string>, r: seq<string>)
    requires forall x :: multiset(keys)[x] <= 1
    requires multiset(r) == multiset(keys)
    requires SortedBy(r, StrLe)
    ensures forall i, j :: 0 <= i < j < |r| ==> StrLt(r[i], r[j])
  {
    forall i, j | 0 <= i < j < |r| ensures StrLt(r[i], r[j]) {
      StrLtTrichotomy(r[i], r[j]);
      if r[i] == r[j] {
        TwiceCountsTwice(r, i, j);
      }
    }
  }

  lemma TwiceCountsTwice<T>(s: seq<T>, i: int, j: int)
    requires 0 <= i < j < |s| && s[i] == s[j]
    ensures multiset(s)[s[i]] >= 2
  {
    assert s == s[..j] + s[j..];
    assert s[i] in s[..j];
    assert s[j] == s[j..][0];
  }

  /**
    A filter button's label: a key with a '-' reads "<first piece>년 <second
    piece as parseInt reads it>월", later pieces dropped; any other key reads
    "<key>년".
   */
  function FilterLabel(key: string): string {
    if '-' in key then
      var parts := Split(key, '-');
      parts[0] + "년 " + NumberText(ParseIntPrefix(parts[1])) + "월"
    else key + "년"
  }

  /** A key without '-' is labelled "<key>년". */
  lemma PlainKeyLabel(key: string)
    requires '-' !in key
    ensures FilterLabel(key) == key + "년"
  {
  }

  /**
    A key "<year>-<month>" (with any further "-..." pieces) is labelled with
    the year text and the month's number: "2025-03" reads "2025년 3월". The
    month is at most Number.MAX_SAFE_INTEGER, so parseInt reads it exactly and
    `${...}` prints it without an exponent.
   */
  lemma YearMonthLabel(year: string, month: nat, tail: string)
    requires '-' !in year
    requires month <= MaxSafeInteger
    requires tail == [] || tail[0] == '-'
    ensures FilterLabel(year + "-" + Pad2(month) + tail) == year + "년 " + NatToString(month) + "월"
  {
    var mm := Pad2(month);
    var key := year + "-" + mm + tail;
    var parts := Split(key, '-');
    SecondPiece(year, mm, tail);
    assert '-' in key by {
      assert key[|year|] == '-';
    }
    assert parts[0] == year && parts[1] == mm;
    assert ParseIntPrefix(mm) == Some(month as int);
    assert NumberText(Some(month as int)) == NatToString(month);
  }

  lemma SecondPiece(year: string, mm: string, tail: string)
    requires '-' !in year
    requires AllDigits(mm)
    requires tail == [] || tail[0] == '-'
    ensures var parts := Split(year + "-" + mm + tail, '-');
      |parts| >= 2 && parts[0] == year && parts[1] == mm
  {
    assert '-' !in mm by {
      forall i | 0 <= i < |mm| ensures mm[i] != '-' {
        assert IsDigit(mm[i]);
      }
    }
    assert year + "-" + mm + tail == year + ['-'] + (mm + tail);
    SplitAtFirst(year, '-', mm + tail);
    FirstPiece(mm, tail);
  }

  lemma FirstPiece(mm: string, tail: string)
    requires '-' !in mm
    requires tail == [] || tail[0] == '-'
    ensures Split(mm + tail, '-')[0] == mm
  {
    if tail == [] {
      SplitPiece(mm, '-');
      assert mm + tail == mm;
    } else {
      var t := tail[1..];
      assert tail == [tail[0]] + t;
      assert mm + tail == mm + [tail[0]] + t;
      SplitAtFirst(mm, '-', t);
    }
  }

  /**
    A key whose text after the first '-' does not start with a digit, a '+' or
    white space ("2025-", "2025-x", "2025--3") is labelled with parseInt's NaN:
    "<year>년 NaN월".
   */
  lemma MonthlessKeyLabel(year: string, rest: string)
    requires '-' !in year
    requires rest == [] || (!IsDigit(rest[0]) && rest[0] != '+' && !IsJsWhiteSpace(rest[0]))
    ensures FilterLabel(year + "-" + rest) == year + "년 NaN월"
  {
    var key := year + "-" + rest;
    assert '-' in key by {
      assert key[|year|] == '-';
    }
    NoMonthPiece(year, rest);
  }

  lemma NoMonthPiece(year: string, rest: string)
    requires '-' !in year
    requires rest == [] || !IsDigit(rest[0])
    ensures var parts := Split(year + "-" + rest, '-');
      |parts| >= 2 && parts[0] == year && ParseIntPrefix(parts[1]) == None
  {
    assert year + "-" + rest == year + ['-'] + rest;
    SplitAtFirst(year, '-', rest);
    var second := Split(rest, '-')[0];
    HeadIsPrefix(Split(rest, '-'), '-');
    assert second == [] || second[0] == rest[0];
    DigitPrefixOf([], second);
    assert [] + second == second;
  }

  /** The first piece is a prefix of the joined text. */
  lemma HeadIsPrefix(parts: seq<string>, sep: char)
    requires |parts| >= 1
    ensures parts[0] <= Join(parts, sep)
  {
    if |parts| > 1 {
      assert Join(parts, sep) == parts[0] + ([sep] + Join(parts[1..], sep));
    }
  }
}
