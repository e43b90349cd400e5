# Gold-medal controller: a Dafny model

This project models the aggregation and response logic of the gold-medal
REST controller (`GoldMedalController`). Over a fixed dataset of countries and
Olympic gold medals, the controller builds three responses:

* **Country summaries.** A sort key (`name`, `gdp`, `population`, `medals` or
  anything else) and a direction pick a country listing. Each country is paired
  with its medal count. For `medals` only, the list is then re-sorted stably by
  count.
* **Country details.** An unknown country gives the name-only response.
  Otherwise the response holds the country's facts, its medal total and, for
  Summer and Winter, three values: the win count, the share of all of that
  season's events, and the year of the first win. Each of the three is absent
  when the country has no win that season. It also holds the per-gender win
  counts, which are always present.
* **A country's medal list.** The sort key (`year`, `season`, `city`, `name`,
  `event`) and the direction pick one repository listing. An unknown key gives
  an empty list.

Modules:

* `Model` (model.dfy): the records (`Country`, `GoldMedal`) and the responses
  (`CountrySummary`, `CountryDetailsResponse` with `NotFound`/`Found`
  variants, `SeasonStats`, `CountryMedalsListResponse`). Nullable values are
  `Option`s. A `Dataset` holds the contents of the two repositories.
* `Repositories` (repositories.dfy): the repository queries the controller
  issues, as pure functions over the dataset. Lookups and counts are exact
  matches. Ordered listings use a stable sort.
* `Sorting` (sorting.dfy) and `Orders` (orders.dfy): the stable insertion sort
  by key, proved to be a permutation, ordered and stable. Also the key orders
  it is used with: integers, ordinal string order, and absent-first optional
  values.
* `GoldMedalController` (controller.dfy): the controller's private
  operations. The switch-based dispatchers and the appending loop are
  methods. The detail computation and the medal-count re-sort are functions.

The controller dispatches on the sort key as written in the code. The `switch`
statements match keys case-sensitively. Only the `medals` re-sort test
(`equalsIgnoreCase`) ignores case.

## Model

| member | source | states |
|---|---|---|
| `GoldMedalController.GetCountryMedalsListResponse` | src/main/java/com/codecademy/goldmedal/controller/GoldMedalController.java:43-67 | each of `year`, `season`, `city`, `name`, `event` gives that field's repository listing in the requested direction, with no client-side reordering; any other key gives an empty list whatever the direction |
| `Repositories.MedalsOrdered` | src/main/java/com/codecademy/goldmedal/controller/GoldMedalController.java:45-60 | a country's medal listing holds exactly that country's medals, each as often as in the dataset, ordered by the chosen field in the chosen direction |
| `GoldMedalController.YearListingsSameRecords` | src/main/java/com/codecademy/goldmedal/controller/GoldMedalController.java:47 | the ascending and descending year listings hold the same medals, ordered by ascending and by descending year respectively |
| `GoldMedalController.GetCountryDetailsResponse` | src/main/java/com/codecademy/goldmedal/controller/GoldMedalController.java:69-106 | the response is the name-only variant exactly when no country has that name; otherwise it carries a stored country's gdp and population, the country's medal total, each season's statistics block, and both gender counts, which are always present and may be 0 |
| `GoldMedalController.WinCountPresence` | src/main/java/com/codecademy/goldmedal/controller/GoldMedalController.java:79-85 | a season's win count is absent exactly when the country has no medal in that season; otherwise it is the number of those medals, at least 1 |
| `GoldMedalController.RatioGuarded` | src/main/java/com/codecademy/goldmedal/controller/GoldMedalController.java:80-87 | the season share is present exactly when the win count is present and the season has events, so it never divides by zero; it then equals wins over the season total and lies in (0, 1] |
| `GoldMedalController.FirstWinIsEarliest` | src/main/java/com/codecademy/goldmedal/controller/GoldMedalController.java:82-88 | the first-win year is present exactly when the win count is; it is the year of one of the country's medals that season, and no such medal is earlier |
| `GoldMedalController.NoWinsExample` | src/main/java/com/codecademy/goldmedal/controller/GoldMedalController.java:78-91 | a found country with only a Winter win gets an all-absent Summer block, a Winter block of (1, 1.0, 1994), and a female count that is present and 0 |
| `GoldMedalController.GetCountrySummariesWithMedalCount` | src/main/java/com/codecademy/goldmedal/controller/GoldMedalController.java:144-151 | the summary list has the listing's length, and the same countries in the same order, each paired with its own medal count |
| `GoldMedalController.SortByMedalCount` | src/main/java/com/codecademy/goldmedal/controller/GoldMedalController.java:135-142 | the re-sort is a permutation of its input, ordered by count in the requested direction, and summaries with equal counts keep their input order |
| `GoldMedalController.GetCountrySummaries` | src/main/java/com/codecademy/goldmedal/controller/GoldMedalController.java:108-133 | `name`, `gdp` and `population` give the listing in that order and direction, with counts; `medals` gives a permutation of the name-ascending summaries, sorted by count in the requested direction, with ties in name order; an unrecognised key gives the name-ascending summaries, which do not depend on the direction |
| `GoldMedalController.StagingSortedByName` | src/main/java/com/codecademy/goldmedal/controller/GoldMedalController.java:120-122 | the staging list used for `medals` and unrecognised keys is in ascending name order |
| `Repositories.CountriesOrdered` | src/main/java/com/codecademy/goldmedal/repository/CountryRepository.java:12-22 | each country listing holds the dataset's countries, each as often as in the dataset, and is ordered by name, gdp or population in the requested direction |
| `Repositories.GetByName` | src/main/java/com/codecademy/goldmedal/repository/CountryRepository.java:10 | the lookup is empty exactly when no country has the name; otherwise it yields a stored country with that name |
| `Repositories.NameListingsReverse` | src/main/java/com/codecademy/goldmedal/repository/CountryRepository.java:12-14 | when no two countries share a name, the descending name listing is exactly the ascending one reversed |
| `GoldMedalController.NameSummariesReverse` | src/main/java/com/codecademy/goldmedal/controller/GoldMedalController.java:111-112 | when no two countries share a name, the `name` summaries for descending are exactly those for ascending reversed, counts included |
| `Repositories.SeasonWinsOrdered` | src/main/java/com/codecademy/goldmedal/controller/GoldMedalController.java:78 | the season listing holds exactly the country's medals of that season, by ascending year |
| `Repositories.CountryShareOfSeason` | src/main/java/com/codecademy/goldmedal/controller/GoldMedalController.java:80-81 | a country's medals in a season are no more than all medals of that season |
| `Sorting.SortBy` | src/main/java/com/codecademy/goldmedal/controller/GoldMedalController.java:136-141 | sorting returns a permutation of its input |
| `Sorting.SortBySorted` | src/main/java/com/codecademy/goldmedal/controller/GoldMedalController.java:138-140 | under a total preorder, the sorted result is ordered by key |
| `Sorting.SortByStable` | src/main/java/com/codecademy/goldmedal/controller/GoldMedalController.java:137-141 | for every key, the elements with that key appear in input order |
| `Sorting.SortByKeepsSecondaryOrder` | src/main/java/com/codecademy/goldmedal/controller/GoldMedalController.java:136-141 | when the input is ordered by a second key, elements that tie on the sort key come out ordered by that second key |

## Left out

- The HTTP entry points `getCountries`, `getCountryDetails` and `getCountryMedalsList` (GoldMedalController.java:24-41) are left out. They bind parameters, parse `"y"` as ascending and lower-case the sort key. The model takes the sort key and the direction as already parsed.
- `WordUtils.capitalizeFully` is a library call and is left out. Country names are taken as already normalised.
- Spring Data derives the repository queries, and the derived code is not part of this model. Nor are `GoldMedalRepository` and the entity and response classes; their fields are taken from how the controller uses them. The repositories are modelled as functions over an in-memory `Dataset`. Three orders are chosen because the source does not define them: equal keys keep dataset order in both directions; strings compare character by character with no locale collation; an absent gdp or population sorts first ascending and last descending.
- `YearListingsSameRecords`: states the same medals in opposite year orders, not an exactly reversed sequence, because medals of the same year keep dataset order in both directions.
- `Repositories.GetByName`: returns the first country with the name; a repository holding two countries with one name would raise an error instead, and names are unique in the dataset.
- The share of events is a `real`; the `float` conversion and its rounding are not modelled.
- The count comparator subtracts `int`s (GoldMedalController.java:139-140); counts are small and non-negative, so the model compares unbounded integers and does not model overflow.
- `GoldMedalController.EqualsIgnoreCase` folds ASCII letters only; Java's full Unicode case mapping is not modelled. Lower-cased keys can still differ: `"medalſ"` (long s) is already lower case, so the request handler passes it unchanged, and Java's `equalsIgnoreCase` matches it to `"medals"` because the upper case of `ſ` is `S`. Java then re-sorts by count, while the model treats the key as unrecognised and returns name order.
- The request handlers lower-case keys with the default locale. In a Turkish locale `"POPULATION"` becomes `"populatıon"` (dotless i), which the case-sensitive switch does not match. The model takes the key as it reaches the controller, so such keys fall to the name-order default in the model as they do in the source.
- `GoldMedalController.GetCountrySummaries`: for `gdp` and `population`, does not state that the descending listing is the reverse of the ascending one, because countries with equal values (or two absent values) keep dataset order in both directions. For `name` the reversal is proved when no two countries share a name (`GoldMedalController.NameSummariesReverse`).
- `Repositories.CountriesOrdered`: states the order in each direction, not that the two directions are reverses of each other, for the same reason; `Repositories.NameListingsReverse` proves the reversal for the name order when names are unique.
- Repository failures (exceptions) propagate unchanged in the source; the model has no failing queries.
