/**
 * `PokemonHandler`: one language's pokemon list, its name list and the
 * daily pokemon to guess, which rotates at most once a day.
 *
 * src/lib.rs and pokedle/src/lib.rs declare this struct with the same fields
 * and the same operations; this one class models both.
 *
 * The wall clock is a parameter `now` (Unix seconds, UTC) and the random draw
 * is a parameter `r`.
 */
module Handler {
  import opened Wrappers
  import opened Pokemons

  const SecondsPerHour := 3600
  const SecondsPerDay := 86400
  /** The daily pokemon is first anchored at 06:00 UTC. */
  const FirstGenerationHour := 6

  datatype PokedleError = LangDoesNotExist(lang: string) | PokemonDoesNotExist(name: string)

  // ---------------------------------------------------------------------
  // Time
  // ---------------------------------------------------------------------

  /** chrono's `Duration::num_days` on a duration in seconds: whole days, truncated toward zero. */
  function NumDays(seconds: int): (d: int)
    ensures 0 <= seconds ==> 0 <= d && d * SecondsPerDay <= seconds < d * SecondsPerDay + SecondsPerDay
    ensures seconds < 0 ==> d <= 0 && d * SecondsPerDay - SecondsPerDay < seconds <= d * SecondsPerDay
  {
    if 0 <= seconds then seconds / SecondsPerDay else -((-seconds) / SecondsPerDay)
  }

  /** `is_update_needed`: at least one whole day lies between the last update and `now`. */
  function IsUpdateNeeded(lastUpdate: int, now: int): (r: bool)
    ensures r <==> lastUpdate + SecondsPerDay <= now
  {
    NumDays(now - lastUpdate) >= 1
  }

  /** The UTC day a timestamp falls in, counted from the epoch. */
  function Day(t: int): int
  {
    t / SecondsPerDay
  }

  /** 06:00 UTC of the day `now` falls in. */
  function FirstGeneration(now: int): (t: int)
    ensures Day(t) == Day(now)
    ensures t % SecondsPerDay == FirstGenerationHour * SecondsPerHour
  {
    now - now % SecondsPerDay + FirstGenerationHour * SecondsPerHour
  }

  /** On the day of construction no update is ever due. */
  lemma NoUpdateOnFirstDay(now: int, later: int)
    requires Day(later) == Day(now)
    ensures !IsUpdateNeeded(FirstGeneration(now), later)
  {
  }

  /** From 06:00 UTC of the next day on, the first rotation is due. */
  lemma UpdateDueFromNextMorning(now: int, later: int)
    requires Day(later) == Day(now) + 1
    requires later % SecondsPerDay >= FirstGenerationHour * SecondsPerHour
    ensures IsUpdateNeeded(FirstGeneration(now), later)
  {
  }

  // ---------------------------------------------------------------------
  // The rotation state machine, on values
  // ---------------------------------------------------------------------

  /** The three fields of a handler that change. */
  datatype RotationState = RotationState(daily: nat, previous: Option<nat>, lastUpdate: int)

  /** Both indices point into a list of `count` pokemons. */
  predicate InRange(s: RotationState, count: nat)
  {
    s.daily < count && (s.previous.Some? ==> s.previous.value < count)
  }

  /** `update_daily_pokemon_if_needed` on the state, with `r` as the random draw. */
  function Rotate(s: RotationState, now: int, r: nat): (t: RotationState)
    ensures t == s || t == RotationState(r, Some(s.daily), now)
    ensures t != s ==> s.lastUpdate + SecondsPerDay <= now
    ensures s.lastUpdate <= t.lastUpdate
  {
    if IsUpdateNeeded(s.lastUpdate, now) then RotationState(r, Some(s.daily), now) else s
  }

  lemma RotateKeepsRange(s: RotationState, count: nat, now: int, r: nat)
    requires InRange(s, count) && r < count
    ensures InRange(Rotate(s, now, r), count)
  {
  }

  /** The last update time never moves back. */
  lemma RotateMovesTimeForward(s: RotationState, now: int, r: nat)
    ensures s.lastUpdate <= Rotate(s, now, r).lastUpdate
  {
  }

  /** A rotation that fires records the old daily index as the previous one. */
  lemma RotateWhenDue(s: RotationState, now: int, r: nat)
    requires s.lastUpdate + SecondsPerDay <= now
    ensures Rotate(s, now, r) == RotationState(r, Some(s.daily), now)
  {
  }

  /** Less than a day after the last update nothing changes. */
  lemma RotateWhenNotDue(s: RotationState, now: int, r: nat)
    requires now < s.lastUpdate + SecondsPerDay
    ensures Rotate(s, now, r) == s
  {
  }

  /** Checking twice at the same time rotates at most once, whatever the second draw. */
  lemma RotateIdempotent(s: RotationState, now: int, r: nat, r': nat)
    ensures Rotate(Rotate(s, now, r), now, r') == Rotate(s, now, r)
  {
  }

  /** After a rotation, every check in the following day does nothing. */
  lemma RotateAtMostOncePerDay(s: RotationState, now: int, later: int, r: nat, r': nat)
    requires IsUpdateNeeded(s.lastUpdate, now)
    requires now <= later < now + SecondsPerDay
    ensures Rotate(Rotate(s, now, r), later, r') == Rotate(s, now, r)
  {
  }

  /** One call of the rotation check: the time it reads and the index it would draw. */
  datatype Tick = Tick(now: int, draw: nat)

  /** The state after a sequence of rotation checks. */
  function Run(s: RotationState, ticks: seq<Tick>): (t: RotationState)
    ensures s.lastUpdate <= t.lastUpdate
    ensures t != s ==> t.previous.Some?
    ensures t != s ==> exists i | 0 <= i < |ticks| :: t.daily == ticks[i].draw && t.lastUpdate == ticks[i].now
    decreases |ticks|
  {
    if ticks == [] then s
    else
      var last := ticks[|ticks| - 1];
      Rotate(Run(s, ticks[..|ticks| - 1]), last.now, last.draw)
  }

  /** Check number `k` of `ticks` rotates. */
  predicate Fires(s: RotationState, ticks: seq<Tick>, k: nat)
    requires k < |ticks|
  {
    IsUpdateNeeded(Run(s, ticks[..k]).lastUpdate, ticks[k].now)
  }

  /** A check's firing depends only on the checks before it. */
  lemma FiresOnPrefix(s: RotationState, ticks: seq<Tick>, n: nat, k: nat)
    requires k < n <= |ticks|
    ensures Fires(s, ticks, k) == Fires(s, ticks[..n], k)
    ensures Run(s, ticks[..k]) == Run(s, ticks[..n][..k])
  {
    assert ticks[..k] == ticks[..n][..k];
  }

  /** The position of the most recent check that rotated, if any. */
  function LastRotation(s: RotationState, ticks: seq<Tick>): (r: Option<nat>)
    ensures r.Some? ==> r.value < |ticks|
    decreases |ticks|
  {
    if ticks == [] then None
    else if Fires(s, ticks, |ticks| - 1) then Some(|ticks| - 1)
    else LastRotation(s, ticks[..|ticks| - 1])
  }

  lemma {:induction false} LastRotationIsLast(s: RotationState, ticks: seq<Tick>)
    ensures LastRotation(s, ticks).None? ==> forall j | 0 <= j < |ticks| :: !Fires(s, ticks, j)
    ensures LastRotation(s, ticks).Some? ==>
      var k := LastRotation(s, ticks).value;
      k < |ticks| && Fires(s, ticks, k) && forall j | k < j < |ticks| :: !Fires(s, ticks, j)
    decreases |ticks|
  {
    if ticks != [] {
      var n := |ticks| - 1;
      if !Fires(s, ticks, n) {
        LastRotationIsLast(s, ticks[..n]);
        forall j | 0 <= j < n
          ensures Fires(s, ticks, j) == Fires(s, ticks[..n], j)
        {
          FiresOnPrefix(s, ticks, n, j);
        }
      }
    }
  }

  /**
   * After any sequence of checks, the previous index is the index that was
   * daily just before the most recent rotation; with no rotation it is what
   * it was at the start (absent right after construction).
   */
  lemma {:induction false} PreviousIsDailyBeforeLastRotation(s: RotationState, ticks: seq<Tick>)
    ensures Run(s, ticks).previous ==
      match LastRotation(s, ticks)
      case None => s.previous
      case Some(k) => Some(Run(s, ticks[..k]).daily)
    decreases |ticks|
  {
    if ticks != [] {
      var n := |ticks| - 1;
      assert ticks[..n] == ticks[..|ticks| - 1];
      if !Fires(s, ticks, n) {
        PreviousIsDailyBeforeLastRotation(s, ticks[..n]);
        match LastRotation(s, ticks[..n])
        case None =>
        case Some(k) =>
          LastRotationIsLast(s, ticks[..n]);
          FiresOnPrefix(s, ticks, n, k);
      }
    }
  }

  /** Every rotation check with an in-range draw keeps both indices in range. */
  lemma {:induction false} RunKeepsRange(s: RotationState, ticks: seq<Tick>, count: nat)
    requires InRange(s, count)
    requires forall i | 0 <= i < |ticks| :: ticks[i].draw < count
    ensures InRange(Run(s, ticks), count)
    decreases |ticks|
  {
    if ticks != [] {
      RunKeepsRange(s, ticks[..|ticks| - 1], count);
    }
  }

  /** All checks fall within one day of the first. */
  predicate WithinADay(ticks: seq<Tick>)
  {
    ticks != [] && forall i | 0 <= i < |ticks| :: ticks[0].now <= ticks[i].now < ticks[0].now + SecondsPerDay
  }

  /**
   * When the first of several checks within one day is due, it is the only
   * one that rotates: its draw stays daily, whatever the later draws are.
   */
  lemma {:induction false} ChecksWithinADayRotateOnce(s: RotationState, ticks: seq<Tick>)
    requires WithinADay(ticks) && IsUpdateNeeded(s.lastUpdate, ticks[0].now)
    ensures Run(s, ticks) == RotationState(ticks[0].draw, Some(s.daily), ticks[0].now)
    decreases |ticks|
  {
    var n := |ticks| - 1;
    var prefix := ticks[..n];
    if n > 0 {
      assert WithinADay(prefix) by {
        forall i | 0 <= i < |prefix|
          ensures prefix[0].now <= prefix[i].now < prefix[0].now + SecondsPerDay
        {
          assert prefix[i] == ticks[i];
        }
      }
      ChecksWithinADayRotateOnce(s, prefix);
      RotateAtMostOncePerDay(s, ticks[0].now, ticks[n].now, ticks[0].draw, ticks[n].draw);
    } else {
      assert prefix == [];
    }
  }

  // The unit test of rotation waits, over repeated checks, for the daily
  // index to differ from the first one.

  /** If the first draw repeats the daily index, the later checks never draw again. */
  lemma RetryCannotObserveRedraw(s: RotationState, ticks: seq<Tick>)
    requires WithinADay(ticks) && IsUpdateNeeded(s.lastUpdate, ticks[0].now)
    requires ticks[0].draw == s.daily
    ensures Run(s, ticks).daily == s.daily
  {
    ChecksWithinADayRotateOnce(s, ticks);
  }

  /** What does show the rotation, whatever was drawn: the old daily index becomes the previous one. */
  lemma RotationObservedThroughPrevious(s: RotationState, ticks: seq<Tick>)
    requires WithinADay(ticks) && IsUpdateNeeded(s.lastUpdate, ticks[0].now)
    ensures Run(s, ticks).previous == Some(s.daily)
    ensures Run(s, ticks).lastUpdate == ticks[0].now
  {
    ChecksWithinADayRotateOnce(s, ticks);
  }

  // The handler test of pokedle/src/lib.rs moves the last update to 06:00 UTC
  // of the previous day; the one of src/lib.rs to the same day a year back.

  /** Before 06:00 UTC, 06:00 of the previous day is less than a whole day ago. */
  lemma YesterdayMorningNotDueBeforeSix(now: int)
    requires now % SecondsPerDay < FirstGenerationHour * SecondsPerHour
    ensures !IsUpdateNeeded(FirstGeneration(now) - SecondsPerDay, now)
  {
  }

  /** 06:00 UTC a year back, 365 or 366 days across a leap day, is always at least a day ago. */
  lemma LastYearMorningIsDue(now: int, daysBack: int)
    requires 365 <= daysBack <= 366
    ensures IsUpdateNeeded(FirstGeneration(now) - daysBack * SecondsPerDay, now)
  {
  }

  // ---------------------------------------------------------------------
  // Names of the daily pokemons
  // ---------------------------------------------------------------------

  /** No two pokemons of a list share a name. */
  predicate UniqueNames(pokemons: seq<Pokemon>)
  {
    forall i, j | 0 <= i < j < |pokemons| :: pokemons[i].name != pokemons[j].name
  }

  /** With unique names, looking up the daily pokemon's name finds the daily pokemon itself. */
  lemma DailyNameFindsDaily(pokemons: seq<Pokemon>, daily: nat)
    requires daily < |pokemons| && UniqueNames(pokemons)
    ensures FindByName(pokemons, pokemons[daily].name) == Some(daily)
  {
    assert forall j | 0 <= j < |pokemons| && j != daily :: pokemons[j].name != pokemons[daily].name;
  }

  /** With repeated names, the daily pokemon's name can find another pokemon, which is then compared. */
  lemma RepeatedNameShadowsDaily()
    ensures var pokemons := [Pokemon("Nidoran", 0.4, 7.0, ["Poison"], "Bleu", 1),
                             Pokemon("Nidoran", 0.5, 9.0, ["Poison"], "Violet", 1)];
      FindByName(pokemons, pokemons[1].name) == Some(0) &&
      Compare(pokemons[0], pokemons[1]).height == NumberComparison.Higher
  {
  }

  /**
   * `pokemon_names.get(index)` with `index` the previous daily index, which is a
   * position in the pokemon list: the name at the same position of the name list.
   */
  function NameAtPrevious(names: seq<string>, s: RotationState): (r: Option<string>)
    requires s.previous.Some? ==> s.previous.value < |names|
    ensures r.None? <==> s.previous.None?
  {
    match s.previous
    case None => None
    case Some(index) => Some(names[index])
  }

  /** The name of the pokemon that was daily before the latest rotation. */
  function PreviousDailyName(pokemons: seq<Pokemon>, s: RotationState): (r: Option<string>)
    requires InRange(s, |pokemons|)
    ensures r.None? <==> s.previous.None?
    ensures r.Some? ==> r.value == pokemons[s.previous.value].name && pokemons[s.previous.value] in pokemons
  {
    match s.previous
    case None => None
    case Some(index) => Some(pokemons[index].name)
  }

  /**
   * The names and the pokemons of a language are loaded from different files
   * (the list in metadata.json, and one file per pokemon in directory order);
   * when the orders differ, the name list answers with another pokemon's name.
   */
  lemma PreviousNameFromOtherList()
    ensures var names := ["Bulbizarre", "Herbizarre"];
      var pokemons := [Pokemon("Herbizarre", 1.0, 13.0, ["Plante", "Poison"], "Vert", 1),
                       Pokemon("Bulbizarre", 0.7, 6.9, ["Plante", "Poison"], "Vert", 1)];
      var s := RotationState(1, Some(0), 0);
      InRange(s, |pokemons|) && NameAtPrevious(names, s) == Some("Bulbizarre") &&
      PreviousDailyName(pokemons, s) == Some("Herbizarre")
  {
  }

  /**
   * After construction and any sequence of checks, the previous daily name is
   * absent until a rotation happens and then names the pokemon that was daily
   * just before the most recent rotation.
   */
  lemma PreviousDailyNameAfterChecks(pokemons: seq<Pokemon>, s: RotationState, ticks: seq<Tick>)
    requires InRange(s, |pokemons|) && s.previous.None?
    requires forall i | 0 <= i < |ticks| :: ticks[i].draw < |pokemons|
    ensures InRange(Run(s, ticks), |pokemons|)
    ensures LastRotation(s, ticks).None? ==> PreviousDailyName(pokemons, Run(s, ticks)) == None
    ensures LastRotation(s, ticks).Some? ==>
      var k := LastRotation(s, ticks).value;
      Run(s, ticks[..k]).daily < |pokemons| &&
      PreviousDailyName(pokemons, Run(s, ticks)) == Some(pokemons[Run(s, ticks[..k]).daily].name)
  {
    RunKeepsRange(s, ticks, |pokemons|);
    PreviousIsDailyBeforeLastRotation(s, ticks);
    match LastRotation(s, ticks)
    case None =>
    case Some(k) =>
      RunKeepsRange(s, ticks[..k], |pokemons|);
  }

  // ---------------------------------------------------------------------
  // The handler
  // ---------------------------------------------------------------------

  /** The first pokemon named `name`, as `iter().find(|p| p.name == name)` finds it. */
  function FindByName(pokemons: seq<Pokemon>, name: string): (r: Option<nat>)
    ensures r.Some? ==> r.value < |pokemons| && pokemons[r.value].name == name
    ensures r.Some? ==> forall j | 0 <= j < r.value :: pokemons[j].name != name
    ensures r.None? ==> forall j | 0 <= j < |pokemons| :: pokemons[j].name != name
  {
    if pokemons == [] then None
    else if pokemons[0].name == name then Some(0)
    else match FindByName(pokemons[1..], name)
      case None => None
      case Some(i) => Some(i + 1)
  }

  class PokemonHandler {
    const pokemonNames: seq<string>
    const pokemons: seq<Pokemon>
    var dailyPokemonIndex: nat
    var lastPokemonUpdate: int
    var previousDailyPokemonIndex: Option<nat>

    function State(): RotationState
      reads this
    {
      RotationState(dailyPokemonIndex, previousDailyPokemonIndex, lastPokemonUpdate)
    }

    /** The daily index, and the previous one when present, index the pokemon list. */
    ghost predicate Valid()
      reads this
    {
      InRange(State(), |pokemons|)
    }

    /** The state `PokemonHandler::new` leaves behind. */
    ghost predicate IsNew(names: seq<string>, pokemons: seq<Pokemon>, now: int, r: nat)
      reads this
    {
      pokemonNames == names && this.pokemons == pokemons &&
      State() == RotationState(r, None, FirstGeneration(now))
    }

    /**
     * `PokemonHandler::new`. `Uniform::new(0, 0)` panics on an empty list,
     * which is why `r < |pokemons|` is required.
     */
    constructor (pokemonNames: seq<string>, pokemons: seq<Pokemon>, now: int, r: nat)
      requires r < |pokemons|
      ensures Valid()
      ensures this.pokemonNames == pokemonNames && this.pokemons == pokemons
      ensures State() == RotationState(r, None, FirstGeneration(now))
      ensures IsNew(pokemonNames, pokemons, now, r)
    {
      this.pokemonNames := pokemonNames;
      this.pokemons := pokemons;
      dailyPokemonIndex := r;
      lastPokemonUpdate := FirstGeneration(now);
      previousDailyPokemonIndex := None;
    }

    /** `get_pokemon_by_name`: the first pokemon with that name, or `PokemonDoesNotExist`. */
    function GetPokemonByName(name: string): (res: Result<Pokemon, PokedleError>)
      ensures res.Err? <==> forall j | 0 <= j < |pokemons| :: pokemons[j].name != name
      ensures res.Err? ==> res.error == PokemonDoesNotExist(name)
      ensures res.Ok? ==> exists i | 0 <= i < |pokemons| ::
        res.value == pokemons[i] && pokemons[i].name == name &&
        forall j | 0 <= j < i :: pokemons[j].name != name
    {
      match FindByName(pokemons, name)
      case Some(i) => Ok(pokemons[i])
      case None => Err(PokemonDoesNotExist(name))
    }

    /** `get_daily_pokemon`: the `unwrap` cannot fail while the handler is valid. */
    function GetDailyPokemon(): (p: Pokemon)
      reads this
      requires Valid()
      ensures p in pokemons
      ensures p == pokemons[dailyPokemonIndex]
    {
      pokemons[dailyPokemonIndex]
    }

    /**
     * `update_daily_pokemon_if_needed`, reading the clock once as `now`; `r` is
     * the fresh draw, used only when an update is due.
     */
    method UpdateDailyPokemonIfNeeded(now: int, r: nat)
      requires Valid()
      requires r < |pokemons|
      modifies this
      ensures Valid()
      ensures State() == Rotate(old(State()), now, r)
    {
      if IsUpdateNeeded(lastPokemonUpdate, now) {
        previousDailyPokemonIndex := Some(dailyPokemonIndex);
        dailyPokemonIndex := r;
        lastPokemonUpdate := now;
      }
    }
  }

  /**
   * The unit test of rotation: a check on the day of construction keeps the
   * first draw; with the last update moved a year back, the next check makes
   * its draw daily and records the first one as previous.
   */
  method RotationScenario(names: seq<string>, pokemons: seq<Pokemon>, now: int, first: nat, again: nat, next: nat)
    returns (sameDayDaily: nat, daily: nat, previous: Option<nat>)
    requires first < |pokemons| && again < |pokemons| && next < |pokemons|
    ensures sameDayDaily == first
    ensures daily == next && previous == Some(first)
  {
    var handler := new PokemonHandler(names, pokemons, now, first);
    handler.UpdateDailyPokemonIfNeeded(now, again);
    sameDayDaily := handler.dailyPokemonIndex;

    handler.lastPokemonUpdate := FirstGeneration(now) - 365 * SecondsPerDay;
    handler.UpdateDailyPokemonIfNeeded(now, next);
    daily, previous := handler.dailyPokemonIndex, handler.previousDailyPokemonIndex;
  }
}
