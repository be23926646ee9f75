/**
 * The two language-keyed maps that `Pokedle::new` receives from the loader
 * (names per language, pokemons per language) and how `zip` pairs them.
 *
 * A `BTreeMap<Lang, V>` is iterated in ascending key order with each key once,
 * so a loaded map is given here as the sequence of its `(language, value)`
 * entries in that order.
 */
module Pairing {

  type Lang = string

  /** `PokedleInitError::IncoherentData`, the "Incoherent data" error of construction. */
  datatype PokedleInitError = IncoherentData

  /** The languages of a loaded map, in iteration order. */
  function Keys<V>(m: seq<(Lang, V)>): (ks: seq<Lang>)
    ensures |ks| == |m|
    ensures forall i | 0 <= i < |m| :: ks[i] == m[i].0
  {
    seq(|m|, i requires 0 <= i < |m| => m[i].0)
  }

  /** Every key of a map occurs once. */
  predicate DistinctKeys<V>(m: seq<(Lang, V)>)
  {
    forall i, j | 0 <= i < j < |m| :: m[i].0 != m[j].0
  }

  /** `zip` stops at the shorter of the two. */
  function ZipLength(a: nat, b: nat): (n: nat)
    ensures n <= a && n <= b && (n == a || n == b)
  {
    if a <= b then a else b
  }

  /** The first `k` zipped pairs carry the same language. */
  predicate AgreeUpTo<A, B>(names: seq<(Lang, A)>, pokemons: seq<(Lang, B)>, k: nat)
    requires k <= |names| && k <= |pokemons|
  {
    forall i | 0 <= i < k :: names[i].0 == pokemons[i].0
  }

  /** No zipped pair has two different languages: construction does not fail. */
  predicate Coherent<A, B>(names: seq<(Lang, A)>, pokemons: seq<(Lang, B)>)
  {
    AgreeUpTo(names, pokemons, ZipLength(|names|, |pokemons|))
  }

  /** A zipped pair with two languages makes the maps incoherent. */
  lemma MismatchIsIncoherent<A, B>(names: seq<(Lang, A)>, pokemons: seq<(Lang, B)>, k: nat)
    requires k < ZipLength(|names|, |pokemons|) && names[k].0 != pokemons[k].0
    ensures !Coherent(names, pokemons)
  {
  }

  /** The languages of the first `k` entries. */
  function LanguagesUpTo<V>(m: seq<(Lang, V)>, k: nat): set<Lang>
    requires k <= |m|
  {
    if k == 0 then {} else LanguagesUpTo(m, k - 1) + {m[k - 1].0}
  }

  lemma {:induction false} LanguagesUpToMembers<V>(m: seq<(Lang, V)>, k: nat, l: Lang)
    requires k <= |m|
    ensures l in LanguagesUpTo(m, k) <==> exists i | 0 <= i < k :: m[i].0 == l
  {
    if k > 0 {
      LanguagesUpToMembers(m, k - 1, l);
    }
  }

  /** With distinct keys, the entry at `k` brings a language not seen before. */
  lemma NextLanguageIsNew<V>(m: seq<(Lang, V)>, k: nat)
    requires DistinctKeys(m) && k < |m|
    ensures m[k].0 !in LanguagesUpTo(m, k)
  {
    LanguagesUpToMembers(m, k, m[k].0);
  }

  /** The languages that `zip` reaches, the ones that get a handler. */
  function ZippedLanguages<A, B>(names: seq<(Lang, A)>, pokemons: seq<(Lang, B)>): set<Lang>
  {
    LanguagesUpTo(names, ZipLength(|names|, |pokemons|))
  }

  /**
   * One random draw per zipped pair; the draw of a pair whose handler gets
   * built (every pair before it agreed) is a valid index, since
   * `Uniform::new(0, 0)` panics on an empty pokemon list.
   */
  predicate DrawsFit<A, B>(names: seq<(Lang, A)>, pokemons: seq<(Lang, seq<B>)>, draws: seq<nat>)
  {
    |draws| == ZipLength(|names|, |pokemons|) &&
    forall k | 0 <= k < |draws| :: AgreeUpTo(names, pokemons, k + 1) ==> draws[k] < |pokemons[k].1|
  }

  // ---------------------------------------------------------------------
  // Languages in ascending order
  // ---------------------------------------------------------------------

  /** `Ord` on `String`: lexicographic on characters, a proper prefix first. */
  predicate LexLess(a: string, b: string)
    ensures |a| < |b| && a == b[..|a|] ==> LexLess(a, b)
    decreases |a|
  {
    if a == [] then b != []
    else if b == [] then false
    else if a[0] != b[0] then a[0] < b[0]
    else LexLess(a[1..], b[1..])
  }

  lemma {:induction false} LexLessIrreflexive(a: string)
    ensures !LexLess(a, a)
    decreases |a|
  {
    if a != [] {
      LexLessIrreflexive(a[1..]);
    }
  }

  lemma {:induction false} LexLessAsymmetric(a: string, b: string)
    ensures LexLess(a, b) ==> !LexLess(b, a)
    decreases |a|
  {
    if a != [] && b != [] && a[0] == b[0] {
      LexLessAsymmetric(a[1..], b[1..]);
    }
  }

  lemma {:induction false} LexLessTotal(a: string, b: string)
    ensures a != b ==> LexLess(a, b) || LexLess(b, a)
    decreases |a|
  {
    if a != [] && b != [] && a[0] == b[0] {
      LexLessTotal(a[1..], b[1..]);
      if a[1..] == b[1..] {
        assert a == [a[0]] + a[1..] && b == [b[0]] + b[1..];
      }
    }
  }

  /** Strictly ascending, as a `BTreeMap` yields its keys. */
  predicate Ascending(ks: seq<Lang>)
  {
    forall i, j | 0 <= i < j < |ks| :: LexLess(ks[i], ks[j])
  }

  /** The first language of an ascending sequence is below every other one. */
  lemma HeadIsLeast(a: seq<Lang>, x: Lang)
    requires Ascending(a) && x in a
    ensures x == a[0] || LexLess(a[0], x)
  {
    var i :| 0 <= i < |a| && a[i] == x;
    if i != 0 {
      assert LexLess(a[0], a[i]);
    }
  }

  /** Without its head, an ascending sequence holds exactly its other languages. */
  lemma TailMembers(a: seq<Lang>, x: Lang)
    requires Ascending(a) && a != []
    ensures x in a[1..] <==> x in a && x != a[0]
  {
    if x in a[1..] {
      var i :| 1 <= i < |a| && a[i] == x;
      assert LexLess(a[0], a[i]);
      LexLessIrreflexive(a[0]);
    }
    if x in a && x != a[0] {
      var i :| 0 <= i < |a| && a[i] == x;
      assert a[1..][i - 1] == x;
    }
  }

  /** Two strictly ascending sequences of the same languages are the same sequence. */
  lemma {:induction false} AscendingUnique(a: seq<Lang>, b: seq<Lang>)
    requires Ascending(a) && Ascending(b)
    requires forall x :: x in a <==> x in b
    ensures a == b
    decreases |a|
  {
    if a != [] || b != [] {
      assert a != [] ==> a[0] in b;
      assert b != [] ==> b[0] in a;
      assert a[0] in b && b[0] in a;
      HeadIsLeast(a, b[0]);
      HeadIsLeast(b, a[0]);
      LexLessAsymmetric(a[0], b[0]);
      forall x
        ensures x in a[1..] <==> x in b[1..]
      {
        TailMembers(a, x);
        TailMembers(b, x);
      }
      AscendingUnique(a[1..], b[1..]);
      assert a == [a[0]] + a[1..] && b == [b[0]] + b[1..];
    }
  }

  /** When both maps cover the same languages, zipping pairs every language with itself. */
  lemma SameLanguagesAreCoherent<A, B>(names: seq<(Lang, A)>, pokemons: seq<(Lang, B)>)
    requires Ascending(Keys(names)) && Ascending(Keys(pokemons))
    requires forall l :: l in Keys(names) <==> l in Keys(pokemons)
    ensures Coherent(names, pokemons)
    ensures ZippedLanguages(names, pokemons) == set l | l in Keys(names)
  {
    AscendingUnique(Keys(names), Keys(pokemons));
    forall l
      ensures l in ZippedLanguages(names, pokemons) <==> l in Keys(names)
    {
      LanguagesUpToMembers(names, |names|, l);
      if l in Keys(names) {
        var i :| 0 <= i < |names| && Keys(names)[i] == l;
      }
    }
  }

  /** A language that only the longer map has, after all shared ones, is dropped without error. */
  lemma TrailingLanguageDropped()
    ensures var names, pokemons := [("de", 0)], [("de", 1), ("fr", 2)];
      Coherent(names, pokemons) && ZippedLanguages(names, pokemons) == {"de"}
  {
    var names, pokemons := [("de", 0)], [("de", 1), ("fr", 2)];
    assert ZipLength(|names|, |pokemons|) == 1;
    assert LanguagesUpTo(names, 1) == {} + {names[0].0};
  }
}
