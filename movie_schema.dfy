/** The request/response body of the movie routes and its validators. */
module MovieSchema {
  import opened Outcomes

  datatype Movie = Movie(
    id: int,
    title: string,
    director: int,
    releaseYear: int,
    duration: int,
    genre: int,
    countryOfOrigin: string,
    cast: seq<int>)

  /** The year of the first motion picture: the earliest accepted release year. */
  const FirstFilmYear := 1888

  /** `valid_release_year`: refuses a year before 1888, hands any other back unchanged. */
  function ValidReleaseYear(v: int): (r: Checked<int>)
    ensures r.Accepted? <==> FirstFilmYear <= v
    ensures r.Accepted? ==> r.value == v
  {
    if v < FirstFilmYear then Rejected else Accepted(v)
  }

  /** The field bound `duration: int = Field(..., gt=0)`. */
  function DurationField(v: int): (r: Checked<int>)
    ensures r.Accepted? <==> 0 < v
    ensures r.Accepted? ==> r.value == v
  {
    if v > 0 then Accepted(v) else Rejected
  }

  /** Validation of a whole body: both the duration bound and the release-year validator must pass. */
  function Validate(m: Movie): (r: Checked<Movie>)
    ensures r.Accepted? <==> 0 < m.duration && FirstFilmYear <= m.releaseYear
    ensures r.Accepted? ==> r.value == m
  {
    match (DurationField(m.duration), ValidReleaseYear(m.releaseYear))
    case (Accepted(d), Accepted(y)) => Accepted(m.(duration := d, releaseYear := y))
    case _ => Rejected
  }

  /** 1887 is refused and 1888 passes; a zero duration is refused. */
  lemma Boundaries(m: Movie)
    ensures ValidReleaseYear(1887) == Rejected && ValidReleaseYear(1888) == Accepted(1888)
    ensures DurationField(0) == Rejected && DurationField(1) == Accepted(1)
    ensures m.duration == 90 && m.releaseYear == 1888 ==> Validate(m) == Accepted(m)
    ensures m.releaseYear == 1887 || m.duration == 0 ==> Validate(m) == Rejected
  {
  }
}
