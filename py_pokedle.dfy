/**
 * `Pokedle` of src/lib.rs, the registry that the Python binding exposes: one
 * `PokemonHandler` per language. Its `guess` always compares, even when the
 * guessed pokemon is the daily one.
 *
 * The source reports every error as a `PyValueError` message; here the
 * errors are the values of `PokedleError` and `PokedleInitError`.
 */
module PyPokedle {
  import opened Wrappers
  import opened Pokemons
  import opened Handler
  import opened Pairing

  class Pokedle {
    var handlers: map<Lang, PokemonHandler>

    /** Every handler is valid and no two languages share one. */
    ghost predicate Valid()
      reads this, handlers.Values
    {
      (forall l | l in handlers :: handlers[l].Valid()) &&
      (forall l, l' | l in handlers && l' in handlers && l != l' :: handlers[l] != handlers[l'])
    }

    /** `Pokedle { handlers: BTreeMap::new() }`. */
    constructor ()
      ensures Valid() && handlers == map[]
    {
      handlers := map[];
    }

    /**
     * The registry is valid and holds one handler per language of the first
     * `k` zipped pairs, the one for pair `i` built with draw `i`.
     */
    ghost predicate BuiltUpTo(names: seq<(Lang, seq<string>)>, pokemons: seq<(Lang, seq<Pokemon>)>,
                              now: int, draws: seq<nat>, k: nat)
      reads this, handlers.Values
    {
      k <= |names| && k <= |pokemons| && k <= |draws| && Valid() &&
      handlers.Keys == LanguagesUpTo(names, k) &&
      forall i | 0 <= i < k ::
        names[i].0 in handlers && handlers[names[i].0].IsNew(names[i].1, pokemons[i].1, now, draws[i])
    }

    /** One step of `new`'s loop: `handlers.insert(name_lang, PokemonHandler::new(names, pokemons))`. */
    method InsertHandler(names: seq<(Lang, seq<string>)>, pokemons: seq<(Lang, seq<Pokemon>)>,
                         now: int, draws: seq<nat>, k: nat)
      requires DistinctKeys(names)
      requires k < |names| && k < |pokemons| && k < |draws| && draws[k] < |pokemons[k].1|
      requires BuiltUpTo(names, pokemons, now, draws, k)
      modifies this
      ensures BuiltUpTo(names, pokemons, now, draws, k + 1)
      ensures fresh(handlers.Values - old(handlers.Values))
    {
      NextLanguageIsNew(names, k);
      var handler := new PokemonHandler(names[k].1, pokemons[k].1, now, draws[k]);
      var before := handlers;
      handlers := handlers[names[k].0 := handler];
      forall i | 0 <= i < k + 1
        ensures names[i].0 in handlers && handlers[names[i].0].IsNew(names[i].1, pokemons[i].1, now, draws[i])
      {
        if i < k {
          assert names[i].0 != names[k].0;
          assert handlers[names[i].0] == before[names[i].0];
        }
      }
    }

    /**
     * The loop of `Pokedle::new`: walks the two maps pairwise, fails on the
     * first pair whose languages differ, and otherwise inserts one handler per
     * zipped language; `draws[k]` is the random index of the `k`-th handler.
     */
    method Fill(names: seq<(Lang, seq<string>)>, pokemons: seq<(Lang, seq<Pokemon>)>, now: int, draws: seq<nat>)
      returns (ok: bool)
      requires DistinctKeys(names)
      requires DrawsFit(names, pokemons, draws)
      requires Valid() && handlers == map[]
      modifies this
      ensures ok <==> Coherent(names, pokemons)
      ensures fresh(handlers.Values)
      ensures ok ==> BuiltUpTo(names, pokemons, now, draws, |draws|)
    {
      var n := ZipLength(|names|, |pokemons|);
      var k: nat := 0;
      while k < n
        invariant k <= n && AgreeUpTo(names, pokemons, k)
        invariant fresh(handlers.Values)
        invariant BuiltUpTo(names, pokemons, now, draws, k)
      {
        if names[k].0 != pokemons[k].0 {
          MismatchIsIncoherent(names, pokemons, k);
          return false;
        }
        assert AgreeUpTo(names, pokemons, k + 1);
        InsertHandler(names, pokemons, now, draws, k);
        k := k + 1;
      }
      return true;
    }

    /** `Pokedle::new` after loading: an empty registry filled pair by pair. */
    static method New(names: seq<(Lang, seq<string>)>, pokemons: seq<(Lang, seq<Pokemon>)>, now: int, draws: seq<nat>)
      returns (res: Result<Pokedle, PokedleInitError>)
      requires DistinctKeys(names)
      requires DrawsFit(names, pokemons, draws)
      ensures res.Err? <==> !Coherent(names, pokemons)
      ensures res.Ok? ==> fresh(res.value) && fresh(res.value.handlers.Values)
      ensures res.Ok? ==> res.value.BuiltUpTo(names, pokemons, now, draws, |draws|)
      ensures res.Ok? ==> res.value.handlers.Keys == ZippedLanguages(names, pokemons)
    {
      var pokedle := new Pokedle();
      var ok := pokedle.Fill(names, pokemons, now, draws);
      if !ok {
        return Err(IncoherentData);
      }
      return Ok(pokedle);
    }

    /**
     * `guess`: an unknown language fails and changes nothing; otherwise the
     * language's handler first rotates if due, then an unknown name fails,
     * and a known one is compared with the (possibly new) daily pokemon.
     */
    method Guess(lang: Lang, pokemonName: string, now: int, r: nat)
      returns (res: Result<PokemonComparison, PokedleError>)
      requires Valid()
      requires lang in handlers ==> r < |handlers[lang].pokemons|
      modifies if lang in handlers then {handlers[lang]} else {}
      ensures Valid()
      ensures lang !in handlers ==> res == Err(LangDoesNotExist(lang))
      ensures forall l | l in handlers && l != lang :: handlers[l].State() == old(handlers[l].State())
      ensures lang in handlers ==> handlers[lang].State() == Rotate(old(handlers[lang].State()), now, r)
      ensures lang in handlers ==>
        res == match handlers[lang].GetPokemonByName(pokemonName)
               case Err(e) => Err(e)
               case Ok(p) => Ok(Compare(p, handlers[lang].GetDailyPokemon()))
    {
      if lang !in handlers {
        return Err(LangDoesNotExist(lang));
      }
      var handler := handlers[lang];
      handler.UpdateDailyPokemonIfNeeded(now, r);

      var dailyPokemon := handler.GetDailyPokemon();

      match handler.GetPokemonByName(pokemonName)
      case Err(e) =>
        return Err(e);
      case Ok(inputPokemon) =>
        var comparison := ComparePokemons(inputPokemon, dailyPokemon);
        return Ok(comparison);
    }

    /** `get_names`: the language's name list as loaded, or `LangDoesNotExist`. */
    function GetNames(lang: Lang): (res: Result<seq<string>, PokedleError>)
      reads this
      ensures res.Ok? <==> lang in handlers
      ensures res.Ok? ==> res.value == handlers[lang].pokemonNames
      ensures res.Err? ==> res.error == LangDoesNotExist(lang)
    {
      if lang in handlers then Ok(handlers[lang].pokemonNames) else Err(LangDoesNotExist(lang))
    }

    /** The `unwrap` in `get_previous_pokemon_to_guess_name` does not panic. */
    predicate PreviousNameExists(lang: Lang)
      reads this, handlers.Values
    {
      lang in handlers && handlers[lang].previousDailyPokemonIndex.Some? ==>
        handlers[lang].previousDailyPokemonIndex.value < |handlers[lang].pokemonNames|
    }

    /**
     * `get_previous_pokemon_to_guess_name`: no name before the language's first
     * rotation, afterwards the name at the previous daily index.
     */
    function GetPreviousPokemonToGuessName(lang: Lang): (res: Result<Option<string>, PokedleError>)
      reads this, handlers.Values
      requires PreviousNameExists(lang)
      ensures res.Err? <==> lang !in handlers
      ensures res.Err? ==> res.error == LangDoesNotExist(lang)
      ensures res.Ok? ==> (res.value.None? <==> handlers[lang].previousDailyPokemonIndex.None?)
      ensures res.Ok? && res.value.Some? ==>
        res.value.value == handlers[lang].pokemonNames[handlers[lang].previousDailyPokemonIndex.value]
    {
      if lang !in handlers then Err(LangDoesNotExist(lang))
      else
        match handlers[lang].previousDailyPokemonIndex
        case Some(index) => Ok(Some(handlers[lang].pokemonNames[index]))
        case None => Ok(None)
    }

    /** `get_pokemon_by_name` of the registry: the language's first pokemon with that name. */
    function GetPokemonByName(lang: Lang, pokemonName: string): (res: Result<Pokemon, PokedleError>)
      reads this
      ensures lang !in handlers ==> res == Err(LangDoesNotExist(lang))
      ensures lang in handlers ==>
        (res.Err? <==> forall j | 0 <= j < |handlers[lang].pokemons| :: handlers[lang].pokemons[j].name != pokemonName)
      ensures lang in handlers && res.Err? ==> res.error == PokemonDoesNotExist(pokemonName)
      ensures res.Ok? ==> lang in handlers && exists i | 0 <= i < |handlers[lang].pokemons| ::
        res.value == handlers[lang].pokemons[i] && handlers[lang].pokemons[i].name == pokemonName &&
        forall j | 0 <= j < i :: handlers[lang].pokemons[j].name != pokemonName
    {
      if lang !in handlers then Err(LangDoesNotExist(lang))
      else handlers[lang].GetPokemonByName(pokemonName)
    }
  }
}
