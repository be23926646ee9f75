/**
 * The comparison engine of Pokedle (src/pokemon.rs): a guessed pokemon is
 * compared with the pokemon to guess attribute by attribute, and every
 * verdict prints as one word of a fixed vocabulary.
 *
 * Sign convention, as the code has it: a numeric verdict says where the
 * pokemon to guess lies relative to the guess, so `Higher` means the guess
 * is below the target.
 */
module Pokemons {

  /** `Type(String)` and `Color(String)` are plain wrappers of a string. */
  type Type = string
  type Color = string

  /** `Generation(u8)`. */
  type Generation = g: int | 0 <= g < 256

  /** Height and weight are `f64` in the source; here they are reals (no NaN). */
  datatype Pokemon = Pokemon(
    name: string,
    height: real,
    weight: real,
    types: seq<Type>,
    color: Color,
    generation: Generation)

  datatype NumberComparison = Higher | Lower | Equal

  datatype TypesComparison = Different | Equal | PartiallyEqual

  datatype ColorComparison = Different | Equal

  datatype PokemonComparison = PokemonComparison(
    height: NumberComparison,
    weight: NumberComparison,
    types: TypesComparison,
    color: ColorComparison,
    generation: NumberComparison)

  // ---------------------------------------------------------------------
  // Verdicts
  // ---------------------------------------------------------------------

  /** The three-way verdict used for height, weight and generation. */
  function CompareNumber(guess: real, target: real): (r: NumberComparison)
    ensures r == NumberComparison.Equal <==> guess == target
    ensures r == NumberComparison.Higher <==> guess < target
    ensures r == NumberComparison.Lower <==> target < guess
  {
    if guess == target then NumberComparison.Equal
    else if guess < target then NumberComparison.Higher
    else NumberComparison.Lower
  }

  /** Some type of `guess` occurs somewhere in `target`. */
  predicate ShareAType(guess: seq<Type>, target: seq<Type>)
  {
    exists i | 0 <= i < |guess| :: guess[i] in target
  }

  /** Types are equal only as ordered sequences; otherwise one shared type makes them partially equal. */
  function CompareTypes(guess: seq<Type>, target: seq<Type>): (r: TypesComparison)
    ensures r == TypesComparison.Equal <==> guess == target
    ensures r == TypesComparison.PartiallyEqual <==> guess != target && ShareAType(guess, target)
    ensures r == TypesComparison.Different <==> guess != target && !ShareAType(guess, target)
  {
    if guess == target then TypesComparison.Equal
    else if ShareAType(guess, target) then TypesComparison.PartiallyEqual
    else TypesComparison.Different
  }

  function CompareColor(guess: Color, target: Color): (r: ColorComparison)
    ensures r == ColorComparison.Equal <==> guess == target
  {
    if guess == target then ColorComparison.Equal else ColorComparison.Different
  }

  /** The reference definition of `compare_pokemons`; the name fields play no part. */
  function Compare(guess: Pokemon, target: Pokemon): (r: PokemonComparison)
    ensures r.height == NumberComparison.Equal <==> guess.height == target.height
    ensures r.height == NumberComparison.Higher <==> guess.height < target.height
    ensures r.weight == NumberComparison.Equal <==> guess.weight == target.weight
    ensures r.weight == NumberComparison.Higher <==> guess.weight < target.weight
    ensures r.generation == NumberComparison.Equal <==> guess.generation == target.generation
    ensures r.generation == NumberComparison.Higher <==> guess.generation < target.generation
    ensures r.types == TypesComparison.Equal <==> guess.types == target.types
    ensures r.color == ColorComparison.Equal <==> guess.color == target.color
  {
    PokemonComparison(
      CompareNumber(guess.height, target.height),
      CompareNumber(guess.weight, target.weight),
      CompareTypes(guess.types, target.types),
      CompareColor(guess.color, target.color),
      CompareNumber(guess.generation as real, target.generation as real))
  }

  /**
   * `compare_pokemons`: the types verdict is found with a flag that the loop
   * over the guess's types sets, with no early exit.
   */
  method ComparePokemons(guess: Pokemon, pokemonToGuess: Pokemon) returns (r: PokemonComparison)
    ensures r == Compare(guess, pokemonToGuess)
  {
    var height := CompareNumber(guess.height, pokemonToGuess.height);
    var weight := CompareNumber(guess.weight, pokemonToGuess.weight);

    var types;
    if guess.types == pokemonToGuess.types {
      types := TypesComparison.Equal;
    } else {
      var commonTypeFound := false;
      for i := 0 to |guess.types|
        invariant commonTypeFound <==> exists k | 0 <= k < i :: guess.types[k] in pokemonToGuess.types
      {
        if guess.types[i] in pokemonToGuess.types {
          commonTypeFound := true;
        }
      }
      types := if commonTypeFound then TypesComparison.PartiallyEqual else TypesComparison.Different;
    }

    var color := CompareColor(guess.color, pokemonToGuess.color);
    var generation := CompareNumber(guess.generation as real, pokemonToGuess.generation as real);

    r := PokemonComparison(height, weight, types, color, generation);
  }

  // ---------------------------------------------------------------------
  // Properties of the comparison
  // ---------------------------------------------------------------------

  /** The verdict a numeric field gets when guess and target change places. */
  function Flip(c: NumberComparison): NumberComparison
  {
    match c
    case Higher => NumberComparison.Lower
    case Lower => NumberComparison.Higher
    case Equal => NumberComparison.Equal
  }

  /** Comparing a pokemon with itself is equal on every attribute. */
  lemma CompareSelfIsAllEqual(p: Pokemon)
    ensures Compare(p, p) == PokemonComparison(
      NumberComparison.Equal, NumberComparison.Equal, TypesComparison.Equal,
      ColorComparison.Equal, NumberComparison.Equal)
  {
  }

  lemma ShareATypeSymmetric(a: seq<Type>, b: seq<Type>)
    ensures ShareAType(a, b) ==> ShareAType(b, a)
  {
    if ShareAType(a, b) {
      var i :| 0 <= i < |a| && a[i] in b;
      var j :| 0 <= j < |b| && b[j] == a[i];
      assert b[j] in a;
    }
  }

  /** Swapping guess and target exchanges Higher and Lower and keeps every other verdict. */
  lemma CompareSwapped(guess: Pokemon, target: Pokemon)
    ensures var r, s := Compare(guess, target), Compare(target, guess);
      s.height == Flip(r.height) && s.weight == Flip(r.weight) && s.generation == Flip(r.generation) &&
      s.types == r.types && s.color == r.color
  {
    ShareATypeSymmetric(guess.types, target.types);
    ShareATypeSymmetric(target.types, guess.types);
  }

  /** The result never depends on the names. */
  lemma CompareIgnoresNames(guess: Pokemon, target: Pokemon, guessName: string, targetName: string)
    ensures Compare(guess.(name := guessName), target.(name := targetName)) == Compare(guess, target)
  {
  }

  /** The same types in another order are only partially equal. */
  lemma TypesOrderMatters()
    ensures CompareTypes(["Plante", "Poison"], ["Poison", "Plante"]) == TypesComparison.PartiallyEqual
  {
    var g: seq<Type> := ["Plante", "Poison"];
    var t: seq<Type> := ["Poison", "Plante"];
    assert g[0] != t[0];
    assert g[0] == t[1];
  }

  /** Duplicates are not collapsed: a repeated type is not equal to the single one. */
  lemma TypesDuplicatesKept()
    ensures CompareTypes(["Feu", "Feu"], ["Feu"]) == TypesComparison.PartiallyEqual
  {
    var g: seq<Type> := ["Feu", "Feu"];
    assert g[0] == "Feu";
  }

  // The unit tests of src/pokemon.rs, on the sign convention of the code.

  const Chrysacier := Pokemon("Chrysacier", 0.7, 9.9, ["Insecte"], "Vert", 1)

  lemma CompareTestLowerNumbers()
    ensures Compare(Pokemon("my_creature", 0.8, 10.0, ["Insecte", "Feu"], "Rouge", 2), Chrysacier)
      == PokemonComparison(NumberComparison.Lower, NumberComparison.Lower,
                           TypesComparison.PartiallyEqual, ColorComparison.Different, NumberComparison.Lower)
  {
    var g: seq<Type> := ["Insecte", "Feu"];
    assert g[0] in Chrysacier.types;
  }

  /** The same pair the other way round, obtained from the swap lemma. */
  lemma CompareTestReverse()
    ensures Compare(Chrysacier, Pokemon("my_creature", 0.8, 10.0, ["Insecte", "Feu"], "Rouge", 2))
      == PokemonComparison(NumberComparison.Higher, NumberComparison.Higher,
                           TypesComparison.PartiallyEqual, ColorComparison.Different, NumberComparison.Higher)
  {
    var creature := Pokemon("my_creature", 0.8, 10.0, ["Insecte", "Feu"], "Rouge", 2);
    CompareTestLowerNumbers();
    CompareSwapped(creature, Chrysacier);
  }

  lemma CompareTestTotallyDifferent()
    ensures Compare(Chrysacier, Pokemon("my_creature", 0.8, 10.0, ["Acier", "Feu"], "Rouge", 2))
      == PokemonComparison(NumberComparison.Higher, NumberComparison.Higher,
                           TypesComparison.Different, ColorComparison.Different, NumberComparison.Higher)
  {
    var t: seq<Type> := ["Acier", "Feu"];
    assert Chrysacier.types[0] !in t by {
      assert t[0] != "Insecte" && t[1] != "Insecte";
    }
  }

  // ---------------------------------------------------------------------
  // Display and to_array_of_string
  // ---------------------------------------------------------------------

  const NumberVocabulary: seq<string> := ["higher", "lower", "equal"]
  const TypesVocabulary: seq<string> := ["different", "partially_equal", "equal"]
  const ColorVocabulary: seq<string> := ["different", "equal"]

  function NumberToString(c: NumberComparison): (s: string)
    ensures s in NumberVocabulary
  {
    match c
    case Higher => "higher"
    case Lower => "lower"
    case Equal => "equal"
  }

  function TypesToString(c: TypesComparison): (s: string)
    ensures s in TypesVocabulary
  {
    match c
    case Different => "different"
    case PartiallyEqual => "partially_equal"
    case Equal => "equal"
  }

  function ColorToString(c: ColorComparison): (s: string)
    ensures s in ColorVocabulary
  {
    match c
    case Different => "different"
    case Equal => "equal"
  }

  /** Each printed verdict names exactly one verdict of its kind. */
  lemma DisplayInjective(a: PokemonComparison, b: PokemonComparison)
    ensures NumberToString(a.height) == NumberToString(b.height) ==> a.height == b.height
    ensures TypesToString(a.types) == TypesToString(b.types) ==> a.types == b.types
    ensures ColorToString(a.color) == ColorToString(b.color) ==> a.color == b.color
  {
    assert "lower"[0] != "equal"[0];
    assert |"different"| != |"partially_equal"| && |"equal"| != |"different"|;
  }

  /** `[height, weight, types, color, generation]`, each from its own vocabulary. */
  function ToArrayOfString(c: PokemonComparison): (r: seq<string>)
    ensures |r| == 5
    ensures r[0] in NumberVocabulary && r[1] in NumberVocabulary && r[2] in TypesVocabulary
    ensures r[3] in ColorVocabulary && r[4] in NumberVocabulary
  {
    [NumberToString(c.height), NumberToString(c.weight), TypesToString(c.types),
     ColorToString(c.color), NumberToString(c.generation)]
  }

  /** The printed array determines the comparison. */
  lemma ToArrayOfStringInjective(a: PokemonComparison, b: PokemonComparison)
    ensures ToArrayOfString(a) == ToArrayOfString(b) ==> a == b
  {
    if ToArrayOfString(a) == ToArrayOfString(b) {
      assert ToArrayOfString(a)[1] == ToArrayOfString(b)[1];
      assert ToArrayOfString(a)[4] == ToArrayOfString(b)[4];
      DisplayInjective(a, b);
      DisplayInjective(a.(height := a.weight), b.(height := b.weight));
      DisplayInjective(a.(height := a.generation), b.(height := b.generation));
    }
  }
}
