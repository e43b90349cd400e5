/**
 * The records the controller reads and the responses it builds. Country
 * and GoldMedal are read-only reference data; the rest are built per request.
 */
module Model {
  import opened Wrappers

  /** A country; `name` identifies it, `gdp` and `population` may be null. */
  datatype Country = Country(name: string, gdp: Option<real>, population: Option<int>)

  /**
   * One gold medal. Season ("Summer" or "Winter") and gender ("Men" or
   * "Women") are stored as the strings the controller queries them by.
   */
  datatype GoldMedal = GoldMedal(
    country: string,
    year: int,
    city: string,
    season: string,
    name: string,
    gender: string,
    event: string)

  const SUMMER := "Summer"
  const WINTER := "Winter"
  const WOMEN := "Women"
  const MEN := "Men"

  /** A country paired with its gold-medal count. */
  datatype CountrySummary = CountrySummary(country: Country, medals: int)

  /** The list of a country's medals in the requested order. */
  datatype CountryMedalsListResponse = CountryMedalsListResponse(medals: seq<GoldMedal>)

  /**
   * One season's statistics: the win count, the share of all that
   * season's events, and the year of the first win; each may be null.
   */
  datatype SeasonStats = SeasonStats(
    numberWins: Option<int>,
    percentageTotalWins: Option<real>,
    yearFirstWin: Option<int>)

  /**
   * The detail response: only the queried name when the country is unknown,
   * otherwise its facts, per-season statistics and per-gender counts.
   */
  datatype CountryDetailsResponse =
    | NotFound(name: string)
    | Found(
        name: string,
        gdp: Option<real>,
        population: Option<int>,
        medals: int,
        summer: SeasonStats,
        winter: SeasonStats,
        numberEventsWonByFemaleAthletes: int,
        numberEventsWonByMaleAthletes: int)

  /** The contents of the two repositories, fixed during a request. */
  datatype Dataset = Dataset(countries: seq<Country>, medals: seq<GoldMedal>)

  // Field accessors, used as sort keys.
  function CountryName(c: Country): string { c.name }
  function Gdp(c: Country): Option<real> { c.gdp }
  function Population(c: Country): Option<int> { c.population }
  function Year(m: GoldMedal): int { m.year }
  function Season(m: GoldMedal): string { m.season }
  function City(m: GoldMedal): string { m.city }
  function AthleteName(m: GoldMedal): string { m.name }
  function Event(m: GoldMedal): string { m.event }
  function Medals(s: CountrySummary): int { s.medals }
  function SummaryName(s: CountrySummary): string { s.country.name }
}
