# Pokedle in Dafny

Pokedle is a daily guessing game. Each language has a list of pokemons and a
secret daily pokemon. A player guesses a pokemon by name and gets either a
success or a comparison attribute by attribute: height, weight, types, color
and generation. The daily pokemon changes at most once a day. The previous
one stays on record so that it can be shown.

This project models the game's core in Dafny:

- the comparison engine of `src/pokemon.rs`;
- the per-language state machine `PokemonHandler`;
- the registry `Pokedle`, which maps each language to its handler.

The registry exists twice in the repository:

- `src/lib.rs` is exposed to Python. Its `guess` always compares.
- `pokedle/src/lib.rs` is the library crate. Its `guess` answers `Success`
  when the name is the daily pokemon's, and compares only otherwise.

Both declare the same `PokemonHandler`. The only difference is that
`get_pokemon_by_name` uses `find` in one and `filter().next()` in the other.
Both return the first match, so one class models both handlers: new at
`pokedle/src/lib.rs:35-58`, lookup at 66-71, daily at 73-76, update at 78-85,
due check at 87-90.

Files:

- `wrappers.dfy` (`Wrappers`): `Option` and `Result`.
- `pokemons.dfy` (`Pokemons`): pokemons, verdicts, `Compare` as the
  reference definition, and `ComparePokemons`, the source's loop, proved
  equal to it. Also the printed verdict words.
- `handler.dfy` (`Handler`): time arithmetic and rotation as a function on
  values (`Rotate`, `Run` over a sequence of checks), plus the class
  `PokemonHandler`. Its update method is proved against `Rotate`.
- `pairing.dfy` (`Pairing`): the two language-keyed maps that construction
  zips together, and the ascending key order of a `BTreeMap`.
- `py_pokedle.dfy` (`PyPokedle`): the registry of `src/lib.rs`.
- `pokedle_core.dfy` (`PokedleCore`): the registry of `pokedle/src/lib.rs`,
  with `GuessResult`.

The wall clock and the random generator are parameters:

- `now` is the time in Unix seconds (UTC), read once per operation.
- Each draw of `Uniform::new(0, len)` is a value `r` (or `draws[k]`) with
  `r < len`.

A `BTreeMap<Lang, V>` from the loader becomes the sequence of its entries in
key order.

Three points where the repository does not agree with itself, or where the
code is looser than it looks. The model follows the code of `src/`.

- **Direction of numeric verdicts.** In `src/pokemon.rs:112-118` the
  verdict is `Higher` when the guess is *smaller* than the target, so it
  says where the target lies. The unit tests of `src/pokemon.rs` and
  `src/lib.rs:262-272` agree with that code. For the same pair of pokemons,
  the test at `pokedle/src/lib.rs:221-230` expects the opposite direction.
  That crate's own `pokemon` module is not part of this model.
- **Incoherent data.** `Pokedle::new` (`src/lib.rs:134-137`) zips the two
  maps and compares the languages of each zipped pair. `zip` stops at the
  shorter map, so construction does not fail whenever the two key sets
  differ. A language that only the longer map has, in last position, is
  dropped silently (`Pairing.TrailingLanguageDropped`). When the key sets
  are equal, construction never fails (`Pairing.SameLanguagesAreCoherent`).
- **Names and pokemons in step.** The comment at `src/lib.rs:190` takes the
  previous index to lie within the name list. That
  index is drawn from the length of the pokemon list, and nothing in the
  code ties either the length or the order of the name list to it (see
  Findings).

## Model

| member | source | states |
|---|---|---|
| Pokemons.CompareNumber | src/pokemon.rs:112-126 | `Equal` exactly when the values are equal, `Higher` exactly when the guess is below the target, `Lower` exactly when it is above |
| Pokemons.CompareTypes | src/pokemon.rs:128-143 | `Equal` exactly when the type sequences are equal, order and repetitions included; otherwise `PartiallyEqual` exactly when some guessed type occurs in the target, else `Different` |
| Pokemons.CompareColor | src/pokemon.rs:145-149 | `Equal` exactly when the colors are equal |
| Pokemons.Compare | src/pokemon.rs:110-166 | each of the five verdicts is `Equal` exactly when that attribute is equal, and each numeric one is `Higher` exactly when the guess is below; names play no part |
| Pokemons.ComparePokemons | src/pokemon.rs:111-166 | the source's flag loop over the guessed types, with no early exit, computes exactly `Compare` |
| Pokemons.CompareSelfIsAllEqual | src/pokemon.rs:301-330 | a pokemon compared with itself is `Equal` on every attribute |
| Pokemons.CompareSwapped | src/pokemon.rs:110-166 | swapping guess and target exchanges `Higher` and `Lower` on the three numeric verdicts and keeps the types and color verdicts |
| Pokemons.CompareIgnoresNames | src/pokemon.rs:110 | renaming either pokemon does not change the comparison |
| Pokemons.TypesOrderMatters | src/pokemon.rs:128-129 | the same two types in the other order are only `PartiallyEqual` |
| Pokemons.TypesDuplicatesKept | src/pokemon.rs:128-143 | a repeated type does not equal the single type |
| Pokemons.CompareTestLowerNumbers | src/pokemon.rs:333-361 | the unit test: a taller, heavier, later creature sharing one type gives lower, lower, partially equal, different, lower |
| Pokemons.CompareTestReverse | src/pokemon.rs:365-393 | the same pair reversed gives higher, higher, partially equal, different, higher; derived from the swap lemma |
| Pokemons.CompareTestTotallyDifferent | src/pokemon.rs:397-424 | no shared type gives `Different` types and `Different` color |
| Pokemons.NumberToString | src/pokemon.rs:46-54 | prints one of `higher`, `lower`, `equal` |
| Pokemons.TypesToString | src/pokemon.rs:63-71 | prints one of `different`, `partially_equal`, `equal` |
| Pokemons.ColorToString | src/pokemon.rs:79-86 | prints one of `different`, `equal` |
| Pokemons.DisplayInjective | src/pokemon.rs:46-86 | two verdicts of one kind that print the same word are the same verdict |
| Pokemons.ToArrayOfString | src/pokemon.rs:98-108 | five words, each from the vocabulary of its attribute |
| Pokemons.ToArrayOfStringInjective | src/pokemon.rs:98-108 | the printed array determines the whole comparison |
| Handler.NumDays | src/lib.rs:106-109 | whole days of a duration, truncated toward zero for negative durations as well |
| Handler.IsUpdateNeeded | src/lib.rs:106-109 | an update is due exactly when at least 86400 seconds have passed since the last update |
| Handler.FirstGeneration | src/lib.rs:57-68 | the first update time is 06:00 UTC of the day of construction |
| Handler.NoUpdateOnFirstDay | src/lib.rs:354-359 | no check on the day of construction rotates |
| Handler.UpdateDueFromNextMorning | src/lib.rs:57-68 | from 06:00 UTC of the next day on, the first rotation is due |
| Handler.Rotate | src/lib.rs:97-104 | one check either changes nothing or makes the draw daily, the old daily index previous and `now` the last update; it changes something only when a whole day has passed, and never moves the last update back |
| Handler.Run | src/lib.rs:97-104 | repeated checks never move the last update back; once anything changed there is a previous index, and the daily index and last update are the draw and time of one of the checks |
| Handler.RotateKeepsRange | src/lib.rs:97-104 | a rotation with an in-range draw keeps the daily and previous indices in range |
| Handler.RotateMovesTimeForward | src/lib.rs:97-104 | the last update time never moves back |
| Handler.RotateWhenDue | src/lib.rs:97-104 | a due check makes the draw daily, the old daily index previous, and `now` the last update |
| Handler.RotateWhenNotDue | src/lib.rs:97-104 | a check less than a day after the last update changes nothing |
| Handler.RotateIdempotent | src/lib.rs:97-104 | two checks at the same instant rotate at most once, whatever the second draw |
| Handler.RotateAtMostOncePerDay | src/lib.rs:97-104 | after a rotation, every check within the next day changes nothing |
| Handler.LastRotation | src/lib.rs:97-104 | the position of the most recent check that rotated is a position of the trace |
| Handler.LastRotationIsLast | src/lib.rs:97-104 | that check rotated, and no later one did; without it no check rotated |
| Handler.PreviousIsDailyBeforeLastRotation | src/lib.rs:97-104 | after any sequence of checks, the previous index is the one that was daily just before the most recent rotation, or unchanged if none rotated |
| Handler.RunKeepsRange | src/lib.rs:92-104 | any sequence of checks with in-range draws keeps both indices in range |
| Handler.ChecksWithinADayRotateOnce | src/lib.rs:373-384 | when the first of several checks within one day is due, only that check rotates |
| Handler.RetryCannotObserveRedraw | src/lib.rs:373-384 | when the first draw repeats the daily index, the daily index never differs afterwards |
| Handler.RotationObservedThroughPrevious | src/lib.rs:373-384 | every such run records the old daily index as the previous one |
| Handler.YesterdayMorningNotDueBeforeSix | pokedle/src/lib.rs:312-323 | before 06:00 UTC, an update time of 06:00 on the previous day is not due |
| Handler.LastYearMorningIsDue | src/lib.rs:361-372 | an update time of 06:00 a year back, 365 or 366 days, is always due |
| Handler.RotationScenario | src/lib.rs:348-385 | the unit test on values: a check at the instant of construction keeps the first draw; with the last update a year back, the next check makes its draw daily and records the first one as previous |
| Handler.FindByName | src/lib.rs:85-90 | the first position holding that name, or none when no pokemon has it |
| Handler.DailyNameFindsDaily | pokedle/src/lib.rs:142-148 | with unique names, looking up the daily pokemon's name finds the daily pokemon itself |
| Handler.RepeatedNameShadowsDaily | src/lib.rs:158-165 | with a repeated name, looking up the daily name can find an earlier pokemon, which then gets compared |
| Handler.NameAtPrevious | src/lib.rs:189-193 | no name before the first rotation; afterwards, by its body, the name list's entry at the previous index |
| Handler.PreviousDailyName | src/lib.rs:189-193 | no name before the first rotation; afterwards the name of the pokemon that was daily before |
| Handler.PreviousNameFromOtherList | src/lib.rs:189-193 | when the two lists are in different orders, the name list names another pokemon than the one that was daily |
| Handler.PreviousDailyNameAfterChecks | src/lib.rs:178-194 | after construction and any checks, `PreviousDailyName` is absent until a rotation and then names the pokemon daily just before the most recent rotation |
| Handler.PokemonHandler.constructor | src/lib.rs:54-77 | stores both lists, makes the draw daily with no previous index, and sets the last update to 06:00 UTC of the current day |
| Handler.PokemonHandler.GetPokemonByName | src/lib.rs:85-90 | fails with `PokemonDoesNotExist(name)` exactly when no pokemon has the name, and otherwise returns the first that does |
| Handler.PokemonHandler.GetDailyPokemon | src/lib.rs:92-95 | the pokemon at the daily index, always a member of the list |
| Handler.PokemonHandler.UpdateDailyPokemonIfNeeded | src/lib.rs:97-104 | the new state is `Rotate` of the old one, and the indices stay in range |
| Pairing.Keys | src/lib.rs:134 | the languages of a loaded map, in order |
| Pairing.ZipLength | src/lib.rs:134 | `zip` yields as many pairs as the shorter map has entries |
| Pairing.MismatchIsIncoherent | src/lib.rs:135-137 | a zipped pair with two different languages makes the data incoherent |
| Pairing.LanguagesUpToMembers | src/lib.rs:134-142 | a language was inserted among the first `k` entries exactly when one of them carries it |
| Pairing.NextLanguageIsNew | src/lib.rs:139-141 | with distinct map keys, each insertion adds a new language and replaces nothing |
| Pairing.LexLess | src/lib.rs:114 | the key order of `BTreeMap<String, _>`, `String`'s `Ord`: lexicographic on characters, a proper prefix sorting first |
| Pairing.LexLessIrreflexive | src/lib.rs:114 | no language sorts before itself |
| Pairing.LexLessAsymmetric | src/lib.rs:114 | two languages are never each before the other |
| Pairing.LexLessTotal | src/lib.rs:114 | of two different languages, one sorts before the other |
| Pairing.AscendingUnique | src/lib.rs:114 | two key sequences in the map's order with the same languages are equal |
| Pairing.SameLanguagesAreCoherent | src/lib.rs:134-142 | when both maps hold the same languages, construction does not fail and every language gets a handler |
| Pairing.TrailingLanguageDropped | src/lib.rs:134-142 | a language that only the longer map has, in last position, is dropped without error |
| PyPokedle.Pokedle.constructor | src/lib.rs:130-132 | the registry starts empty |
| PyPokedle.Pokedle.InsertHandler | src/lib.rs:139-141 | inserting the handler of the `k`-th pair extends the languages and handlers built so far by exactly that pair |
| PyPokedle.Pokedle.Fill | src/lib.rs:134-142 | the loop of `new` on an empty registry: succeeds exactly when no zipped pair has two languages, then holds one handler per zipped pair, built from its lists and draw; every handler is newly allocated |
| PyPokedle.Pokedle.New | src/lib.rs:119-144 | fails exactly when some zipped pair has two languages; otherwise a new registry holding one new handler per zipped language, built from that pair's lists and draw |
| PyPokedle.Pokedle.Guess | src/lib.rs:146-166 | unknown language: `LangDoesNotExist` and no change. Otherwise only that handler rotates, as `Rotate` says, and the result is the lookup error or the comparison with the new daily pokemon |
| PyPokedle.Pokedle.GetNames | src/lib.rs:168-176 | the language's name list, or `LangDoesNotExist` exactly when the language is unknown |
| PyPokedle.Pokedle.GetPreviousPokemonToGuessName | src/lib.rs:178-194 | `LangDoesNotExist` exactly when the language is unknown; none exactly before the first rotation; otherwise the name list's entry at the previous index |
| PyPokedle.Pokedle.GetPokemonByName | src/lib.rs:196-211 | `LangDoesNotExist` for an unknown language; otherwise the handler's lookup: `PokemonDoesNotExist` exactly when no pokemon has the name, else the first that does |
| PokedleCore.Pokedle.constructor | pokedle/src/lib.rs:119-121 | the registry starts empty |
| PokedleCore.Pokedle.InsertHandler | pokedle/src/lib.rs:128-130 | inserting the handler of the `k`-th pair extends the languages and handlers built so far by exactly that pair |
| PokedleCore.Pokedle.Fill | pokedle/src/lib.rs:123-132 | the loop of `new` on an empty registry: succeeds exactly when no zipped pair has two languages, then holds one handler per zipped pair, built from its lists and draw; every handler is newly allocated |
| PokedleCore.Pokedle.New | pokedle/src/lib.rs:112-133 | `IncoherentData` exactly when some zipped pair has two languages; otherwise a new registry holding one new handler per zipped language |
| PokedleCore.Pokedle.Guess | pokedle/src/lib.rs:135-150 | unknown language: `LangDoesNotExist` and no change. Otherwise only that handler rotates; `Success` exactly when the name is the new daily pokemon's; any other name gives the lookup error or `Failure` with the comparison |
| PokedleCore.Pokedle.GetNames | pokedle/src/lib.rs:152-157 | the language's name list, or `LangDoesNotExist` exactly when the language is unknown |
| PokedleCore.GuessDailyOnFirstDay | pokedle/src/lib.rs:112-150 | a registry built from coherent data, guessed on its first day: the daily pokemon's name succeeds exactly for a language it holds, and an unknown language gives `LangDoesNotExist`; incoherent data gives no registry |
| PokedleCore.Pokedle.GetPreviousPokemonToGuessName | pokedle/src/lib.rs:159-170 | `LangDoesNotExist` exactly when the language is unknown; none exactly before the first rotation; otherwise the name list's entry at the previous index |

## Left out

- Loading the data is not modelled: `get_names`, `get_all_pokemons`, the JSON
  files, and the `ReadingError` / `DataLoadingError` / `PyValueError` paths.
  Construction starts from the two loaded maps.
- The Python bindings (`pyo3`), the web server and the JavaScript front end
  are not modelled.
- Error message texts are not modelled; errors are the values of
  `PokedleError` and `PokedleInitError`.
- The clock is a parameter. The model uses whole seconds, and each operation
  reads the clock once. `update_daily_pokemon_if_needed` calls `Utc::now()`
  twice, and the model treats both calls as the same instant.
- Randomness is a parameter. The model does not state that draws are
  uniform.
- Heights and weights are `f64` in the source and reals here. NaN and
  rounding are not modelled.
- Concurrency is not modelled. The source has no locking, and every
  operation here runs alone.
- The `success` field that the test at `src/lib.rs:262-283` expects is not
  modelled, since the `PokemonComparison` of `src/pokemon.rs` has no such
  field.
- The registry scenario tests (`game_scenario`) are not modelled, because
  they read data files that are not part of this model.
- Handler.PokemonHandler.constructor: requires `r < |pokemons|`.
  `Uniform::new(0, 0)` panics on an empty pokemon list, and a draw is always
  below the list's length.
- PyPokedle.Pokedle.GetPreviousPokemonToGuessName: requires
  `PreviousNameExists`, which stands for the `unwrap` at `src/lib.rs:191`.
  That unwrap panics when the name list is shorter than the previous index.
- PokedleCore.Pokedle.GetPreviousPokemonToGuessName: the same requirement,
  for the `unwrap` at `pokedle/src/lib.rs:167`.
- PokedleCore.Pokedle.Guess: compares with the verdict direction of
  `src/pokemon.rs`. The pokedle crate's own `pokemon` module is not part of
  this model, and its test expects the other direction.
- PyPokedle.Pokedle.New: requires `DistinctKeys(names)` and `DrawsFit`.
  `DistinctKeys` holds for every `BTreeMap`. `DrawsFit` says that each
  handler's draw is below its pokemon count. For a non-empty pokemon list
  the random generator ensures this. For an empty one, `Uniform::new(0, 0)`
  panics (`src/lib.rs:73,81`), so `DrawsFit` also excludes that panic.
- PokedleCore.Pokedle.New: the same, with the panic at
  `pokedle/src/lib.rs:54,62`.

## Findings

| source | as written | input that shows it | evidently intended | confidence | as-written member | corrected member |
|---|---|---|---|---|---|---|
| src/lib.rs:189-193 | the previous daily index, a position in `pokemons`, is looked up in `pokemon_names`. The two lists come from different files: metadata.json, and one file per pokemon in directory order | names `["Bulbizarre", "Herbizarre"]`, pokemons read as Herbizarre then Bulbizarre, previous index 0: the answer is "Bulbizarre" though Herbizarre was daily. With a shorter name list the `unwrap` panics | the name of the pokemon that was daily before the latest rotation | not executed; medium (depends on the order the directory is read in) | Handler.PreviousNameFromOtherList | Handler.PreviousDailyNameAfterChecks |
| src/lib.rs:373-384 | the test retries the rotation check, waiting for the daily index to change. Only the first check within a day can rotate, and `for _ in [0..100]` runs once | five pokemons, first draw equal to the current daily index (one chance in five): `index_changed` stays false and the test fails | observe the rotation through the previous index, which records the old daily index whatever is drawn | not executed; high | Handler.RetryCannotObserveRedraw | Handler.RotationObservedThroughPrevious |
| pokedle/src/lib.rs:312-323 | the test sets the last update to 06:00 UTC of the previous day, then expects a rotation. It builds that date with `day() - 1`, which is 0 on the first of a month, so `with_ymd_and_hms` gives no date and the `unwrap` at line 323 panics. The year-back date of `src/lib.rs:361-372` has the same flaw on 29 February, since the previous year has no such day, and spans 366 days when a leap day lies in between | the test run at 05:00 UTC: 23 hours have passed, `num_days()` is 0, and no rotation happens. The test run on 1 March panics in `unwrap`; so does the `src/lib.rs` test run on 29 February | an update time at least a whole day back, such as 06:00 UTC a year back (365 or 366 days), computed without building an invalid date | not executed; high | Handler.YesterdayMorningNotDueBeforeSix | Handler.LastYearMorningIsDue |
