/**
  The two kinds of record the gallery shows: the fixed parents and the
  growing list of children ("birds").
 */
module Records {
  import opened Dates

  datatype Images = Images(recent: string, baby: string)

  /**
    A child record. `year` is the cohort key the filter buttons group by (a
    year such as "2023" or a year-month such as "2025-03"); `birthDate` is the
    date its 'YYYY.MM.DD' text denotes; `snsUrl` is "#" when there is no link.
   */
  datatype Bird = Bird(
    id: string,
    year: string,
    name: string,
    birthDate: Date,
    traits: string,
    snsUrl: string,
    location: string,
    images: Images)

  datatype Role = Father | Mother

  /**
    A parent record. `birthYear` is the value parseInt reads from its year text
    and `birthDateFull` the month-day its 'MM.DD' text denotes.
   */
  datatype Parent = Parent(
    name: string,
    role: Role,
    species: string,
    birthYear: int,
    birthDateFull: MonthDay,
    origin: string,
    description: string,
    color: string,
    imageUrl: string)

  /** The calendar date a parent's birth fields name. */
  function ParentBirth(p: Parent): Date {
    Date(p.birthYear, p.birthDateFull.month, p.birthDateFull.day)
  }
}
