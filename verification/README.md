# Berry × Tubby family gallery — a verified model of its view logic

The app is a single-page gallery of pet-bird profiles: two fixed parent
records and a growing list of child records. Under its markup sits a small
amount of pure logic. This project models that logic in Dafny and proves what
it computes:

- **Age labels** on the parent and child cards. Whole months from birth to now
  are counted, with one fewer while today's day of the month is before the
  birth day. The count is split into years and months and shown as
  "Y년 M개월", "Y년" or "M개월". The child card clamps a negative count to 0.
  The parent card has no clamp, and JavaScript's `%` keeps the dividend's sign.
- **The filtered card list**. The selection is every child for `'all'`,
  otherwise the children whose cohort key (`year`) equals the filter. A copy of
  the selection is sorted stably by birth date.
- **The filter keys**. These are the distinct cohort keys, in default string
  order. Each button's label is "<year>년 <month>월" or "<key>년".
- **The birthday calendar**. It holds one entry per parent, then one per
  child. Child dates are zero-padded to "MM.DD". The entries are sorted stably
  by the month and day read back from that text, and an entry is flagged when
  its month and day are today's.
- **The two collection updates**. One replaces the traits text of the records
  with a given id. The other prepends a new record with a caller-supplied id.

Modules, in dependency order:

| file | module | what it holds |
|---|---|---|
| wrappers.dfy | Wrappers | `Option`, standing in for NaN / undefined |
| numerals.dfy | Numerals | decimal text of numbers: `${n}`, `Number(...)`, `parseInt(...)`, the zero padding |
| strings.dfy | Strings | `split`/`join` on one character; the default string sort order |
| sorting.dfy | Sorting | a stable insertion sort parameterised by a comparator |
| dates.dfy | Dates | date triples, validity, the `new Date(y, m - 1, d)` year rule, orders |
| records.dfy | Records | `Bird`, `Parent` and their parts |
| age.dfy | Age | the age count and labels of both cards |
| gallery.dfy | Gallery | filtered list, filter keys, filter-button label |
| calendar.dfy | Calendar | birthday-calendar entries and their order |
| archive.dfy | Archive | trait edit and add, and what they leave unchanged |
| examples.dfy | Examples | worked instances of the age rules |

"Now" is a parameter everywhere (a valid `Date` triple). Nothing reads a clock.
A JavaScript comparator `cmp` is modelled by the total preorder
`le(a, b) = cmp(a, b) <= 0`. `Array.prototype.sort` must be stable by
section 22.1.3.27 of ECMA-262 (10th edition), so the model sorts stably. The
stability statement: for every element c, the elements tied with c appear in
the same relative order before and after the sort (`Sorting.Equivalents`).

A few facts about the code that shape the model:

- Calendar entries carry the labels 엄마 / 아빠 / 자녀 (mother / father /
  child).
- The trait edit is a plain `map`. It reports nothing when no id matches.
- The `try`/`catch` fallback labels cannot be reached, because `split` and
  `Number` do not throw.

## Model

| member | source | states |
|---|---|---|
| Numerals.NatToString | src/App.tsx:133 | the decimal text of a number is non-empty, all digits and has no leading zero |
| Numerals.NatToStringRoundTrip | src/App.tsx:133 | reading the decimal text of n back gives n |
| Numerals.DigitPrefix | src/App.tsx:361 | parseInt's scan: the maximal leading run of digits plus the rest, which does not start with a digit, and the two concatenate to the input |
| Numerals.DigitPrefixOf | src/App.tsx:361 | the digits-then-rest split is unique, so any digits followed by a non-digit is the scan's result |
| Numerals.Pad2 | src/App.tsx:305 | the zero padding of n in 0..99 is exactly two characters, and Number and parseInt both read n back from it for every n >= 0 |
| Numerals.TwoDigitsArePad2 | src/App.tsx:305 | every two-digit text is the padding of its own value (below 100), so the padding is the only two-digit spelling of a number |
| Strings.Split | src/App.tsx:308 | split gives at least one piece, no piece holds the separator, joining the pieces gives the input back, and there is one piece exactly when the separator is absent |
| Strings.SplitJoin | src/App.tsx:308-309 | split undoes join when no piece holds the separator (the other half of the round trip) |
| Strings.StrLtTrichotomy | src/App.tsx:293 | the default string order compares any two strings: less, equal or greater |
| Strings.StrLtTransitive | src/App.tsx:293 | the default string order is transitive |
| Strings.StrLeAntisymmetric | src/App.tsx:293 | two strings each at most the other are equal |
| Sorting.Insert | src/App.tsx:290 | inserting before the first element x is at most keeps the list sorted, adds exactly x, and keeps every class of tied elements in order with x first |
| Sorting.SortBy | src/App.tsx:307-311 | the sort returns a sorted permutation of its input in which tied elements keep their input order (stability) |
| Age.RawMonths | src/App.tsx:129-130 | the month count is the number of the last monthly anniversary of the birth that now has reached: anniversary k is reached exactly when k is at most the count |
| Age.RawMonthsNonNegative | src/App.tsx:170-172 | the raw month count is negative exactly when birth is after now |
| Age.ChildAgeParts | src/App.tsx:170-174 | the child's years and months satisfy years >= 0 and 0 <= months <= 11; years·12 + months counts the monthly anniversaries after birth that now has reached (0 for a birth after now) |
| Age.AgeLabelRoundTrip | src/App.tsx:175 | "Y년 M개월" / "Y년" / "M개월" determine years and months: the label reads back to them |
| Age.AgeLabelCanonical | src/App.tsx:175 | the converse: the reader accepts only the printed forms, so every text it accepts is the label of the numbers it reads. Those forms are "Y년 M개월" with Y, M > 0, "Y년" with Y > 0, and "M개월", with no leading zeros |
| Age.AgeLabelInjective | src/App.tsx:175 | two labels that read back to the same years and months are the same text, so reading back fixes a label |
| Age.ChildAgeLabel | src/App.tsx:165-177 | the child card's label reads back to the clamped years and months (with Age.AgeLabelInjective this fixes the text: "2년", never "2년 0개월"), and is "0개월" for a birth after now |
| Age.JsRem12 | src/App.tsx:132 | JavaScript's `total % 12` lies strictly between -12 and 12, has the dividend's sign and differs from it by a multiple of 12 |
| Age.ParentAgeLabel | src/App.tsx:123-135 | the parent label equals the child label when birth is not after now; otherwise, with no clamp, it is "-k개월" (k the month count modulo 12) or "0개월" |
| Gallery.Keep | src/App.tsx:289 | the kept children are those matching the filter, each with its multiplicity in the collection |
| Gallery.KeepAppend | src/App.tsx:289 | filtering keeps collection order: the filter of a concatenation is the concatenation of the filters |
| Gallery.KeepSingle | src/App.tsx:289 | a single child is kept exactly when it matches the filter |
| Gallery.BirthTies | src/App.tsx:290 | under the card comparator, the children tied with c are exactly those born on c's birth date |
| Gallery.FilteredBirds | src/App.tsx:288-291 | the card list holds each child matching the filter ('all' or equal cohort key) as often as the collection does and no other; it is in non-decreasing birth-date order; children born on the same day appear in collection order |
| Gallery.Distinct | src/App.tsx:293 | the Set step keeps each value of the input exactly once |
| Gallery.StrLeIsTotalPreorder | src/App.tsx:293 | the default string comparator is a consistent (total, transitive) comparator |
| Gallery.FilterOptions | src/App.tsx:293 | the filter keys are strictly ascending in string order (so duplicate-free) and a key is present exactly when some child has it as its cohort key |
| Gallery.YearMonthLabel | src/App.tsx:361 | a key "<year>-<MM>", with any further "-..." pieces, is labelled "<year>년 <M>월". The month's number is unpadded and later pieces are dropped, for months up to Number.MAX_SAFE_INTEGER |
| Gallery.PlainKeyLabel | src/App.tsx:361 | a key without '-' is labelled "<key>년" |
| Gallery.MonthlessKeyLabel | src/App.tsx:361 | a key whose text after the first '-' starts with neither a digit, a '+' nor white space ("2025-", "2025-x") is labelled "<year>년 NaN월", because parseInt finds no number there |
| Calendar.MonthDayText | src/App.tsx:305 | for months and days below 100, a child's date text is two digits, '.', two digits; for months and days at least 0, the comparator's split-and-Number reads the month and day back from it |
| Calendar.MonthDayTextUnique | src/App.tsx:305 | any text of that two-digits '.' two-digits form that reads back to a month and day is exactly their zero-padded "MM.DD", so the two facts fix the text |
| Calendar.ParentEntry | src/App.tsx:299-302 | a parent's entry has a date text of the "MM.DD" digit form (for months and days below 100) that reads back to the parent's month-day, hence the zero-padded text by Calendar.MonthDayTextUnique; it carries the parent's name, colour and 엄마/아빠 label, and is flagged exactly on that month-day |
| Calendar.ChildEntry | src/App.tsx:303-306 | a child's entry has a date text of the "MM.DD" digit form (for months and days below 100) that reads back to the birth month and day, hence the zero-padded text by Calendar.MonthDayTextUnique; it carries 자녀 and #ffffff, and is flagged exactly on that month-day |
| Calendar.GridTies | src/App.tsx:310 | under the calendar comparator, entries tie exactly when their month and day are equal |
| Calendar.BirthdayGrid | src/App.tsx:295-311 | the calendar has one entry per parent and child, is a permutation of parent entries then child entries, is ordered by month then day, keeps parents before children and each group's order on equal month-days, and flags exactly today's month-day |
| Archive.UpdateTraits | src/App.tsx:367 | the edit keeps length, order, ids and birth dates; records with another id are identical, and records with the id differ only in traits, which become the new text |
| Archive.UpdateIdempotent | src/App.tsx:209 | saving the same edit twice equals saving it once |
| Archive.UpdateWithoutMatch | src/App.tsx:367 | an edit whose id matches no record changes nothing |
| Archive.UpdateKeepsFilterOptions | src/App.tsx:293 | an edit leaves the filter keys unchanged |
| Archive.UpdateCommutesWithView | src/App.tsx:288-291 | editing and then filtering and sorting equals filtering and sorting and then editing: an edit never reorders the cards |
| Archive.AddBird | src/App.tsx:402 | the add puts the new record, with the given id, in front of the unchanged collection |
| Archive.AddKeepsIdsUnique | src/App.tsx:402 | with an id no record has, ids stay unique |
| Archive.AddShows | src/App.tsx:402 | the added record appears in the 'all' card list, and the filter keys gain exactly its cohort key |
| Examples.DayRollback | src/App.tsx:171 | 2024-01-15 to 2024-02-14 is "0개월", to 2024-02-15 is "1개월" |
| Examples.YearBoundary | src/App.tsx:173-175 | 2023-04-28 to 2025-04-27 is "1년 11개월", to 2025-04-28 is "2년" |
| Examples.ClampDifference | src/App.tsx:172 | a birth one day after now is "0개월" on a child card and "-1개월" on a parent card |

## Left out

- The description generator (`generateBirdDescription`) is left out. It is a
  network call to an external text service with fallback strings.
- The admin panel is left out: its form state, the plaintext password gate and
  its alerts. It also reads `formData`, `setFormData` and `isGenerating`, which
  the code never declares. `Archive.AddBird` takes the finished record and the
  id as parameters.
- Id freshness is left out. The id is `Date.now().toString()`, a clock read that
  is not guaranteed unique. `Archive.AddKeepsIdsUnique` therefore takes
  freshness as a precondition, and no lemma claims two adds give distinct ids.
- The clock is a parameter (`now`). All dates are taken as already-valid
  triples. The rollover `new Date(y, m - 1, d)` applies to an impossible day
  (02.30) is excluded by `requires ValidDate(...)`. UTC versus local-time
  parsing does not arise. Text that is not a date yields NaN, and that path is
  not modelled.
- Records.Bird: `birthDate` holds the triple that the 'YYYY.MM.DD' text denotes,
  not the text itself. Parsing that text is not modelled.
- Records.Parent: `birthYear` and `birthDateFull` hold the values that parseInt
  and split/Number read from the parent's texts.
- Calendar.ParentEntry: the entry's date text is the zero-padded re-rendering of
  the parent's month-day. The app shows the stored 'MM.DD' text, and the two are
  equal whenever that text is zero-padded, as both parent records' texts are.
- Calendar.EntryDay: gives MonthDay(0, 0) where the comparator would read NaN.
  A NaN comparator result leaves the order implementation-defined. No entry
  built from a month and day at least 0 reaches this case.
- Gallery.FilteredBirds: compares birth-date triples (year, then month, then
  day) instead of the `getTime()` of the parsed text. For valid dates the two
  orders agree.
- Numerals.StringToNumber: decodes only the empty text (0) and plain digit
  strings. Every other text is NaN here, although `Number` also accepts signs,
  surrounding whitespace, decimals, exponents and hex.
- Numerals.ParseIntPrefix: reads leading decimal digits only. It does not model
  parseInt's leading whitespace, sign or "0x" prefix.
- Strings.StrLt: compares Unicode code points, whereas JavaScript compares
  UTF-16 code units. The two orders differ only for characters outside the
  Basic Multilingual Plane.
- Age.ChildAgeLabel and Age.ParentAgeLabel: the fallback labels in their
  `catch` blocks are not modelled, because nothing in those blocks throws.
- JavaScript's Date range limit of about ±275,760 years is not modelled.
- The JSX markup, styling, the card's photo and edit toggles (`showBaby`,
  `isEditing`) and the seed data are not modelled. The seed data appears only
  through the example values.
- Gallery.YearMonthLabel: says nothing about months above
  Number.MAX_SAFE_INTEGER. Above it parseInt rounds to a nearby double, and
  from 10^21 on `${...}` prints exponent form.
- Gallery.MonthlessKeyLabel: says nothing about keys whose text after the
  first '-' starts with a '+' or white space. parseInt skips those before
  reading digits ("2025-+3" reads "2025년 3월"), and the model's parseInt does
  not (see Numerals.ParseIntPrefix).
