/**
 * Shared vocabulary of the learning pipeline: symbols, the reserved epsilon and
 * padding symbols, aligned symbol pairs, context features and rule keys, and
 * the list helpers that stand for Python's counting dictionaries.
 */
module Symbols {

  /** A symbol is one alphabet unit, a Python `str`. */
  type Symbol = string

  /** HFST's epsilon symbol: `hfst.EPSILON` in bin/, the same literal in train/. */
  const Eps: Symbol := "@_EPSILON_SYMBOL_@"
  /** The padding symbol that brackets every aligned sequence. */
  const Pad: Symbol := "\"<P>\""
  /** The line-break symbol of the escape tables of train/. */
  const LBreak: Symbol := "<LBREAK>"

  /** One alignment edge `(input, output)`. */
  datatype Pair = Pair(input: Symbol, output: Symbol)

  const EpsPair: Pair := Pair(Eps, Eps)
  const PadPair: Pair := Pair(Pad, Pad)

  /** A feature `((input, output), leftContext, rightContext)`. */
  datatype Feature = Feature(sub: Pair, left: seq<Symbol>, right: seq<Symbol>)

  /** The key `(input, leftContext, rightContext)` that groups features into one rule. */
  datatype RuleKey = RuleKey(input: Symbol, left: seq<Symbol>, right: seq<Symbol>)

  /**
   * An automaton of the finite-state library, known only by how it was
   * made: compiled from a regular expression, or composed of two others.
   */
  datatype Fst = Compiled(regex: string) | Composed(first: Fst, second: Fst)

  datatype Option<T> = None | Some(value: T)

  datatype Result<T> = Success(value: T) | Failure(error: string)

  /** A pair whose input side is epsilon, i.e. an insertion. */
  predicate IsInsertion(p: Pair)
  {
    p.input == Eps
  }

  function KeyOf(f: Feature): RuleKey
  {
    RuleKey(f.sub.input, f.left, f.right)
  }

  /** The feature of rule key `k` that has output `s2`. */
  function FeatureOf(k: RuleKey, s2: Symbol): (f: Feature)
    ensures KeyOf(f) == k && f.sub.output == s2
  {
    Feature(Pair(k.input, s2), k.left, k.right)
  }

  /** The input sides of a list of pairs. */
  function Inputs(ps: seq<Pair>): (r: seq<Symbol>)
    ensures |r| == |ps|
    ensures forall i :: 0 <= i < |ps| ==> r[i] == ps[i].input
  {
    if ps == [] then [] else [ps[0].input] + Inputs(ps[1..])
  }

  /** No element occurs twice. */
  predicate Distinct<T(==)>(s: seq<T>)
  {
    forall i, j :: 0 <= i < j < |s| ==> s[i] != s[j]
  }

  /**
   * The elements of `s` in order of first occurrence: the key order of a
   * Python dictionary filled by `{x: 0 for x in s}`.
   */
  function Dedup<T(==)>(s: seq<T>): (r: seq<T>)
    ensures Distinct(r)
    ensures forall x | x in s :: x in r
    ensures forall x | x in r :: x in s
    ensures |r| <= |s|
  {
    if s == [] then []
    else
      var init := Dedup(s[..|s| - 1]);
      if s[|s| - 1] in s[..|s| - 1] then init else init + [s[|s| - 1]]
  }

  /** The number of occurrences of `x` in `s`. */
  function Count<T(==)>(s: seq<T>, x: T): nat
  {
    multiset(s)[x]
  }

  lemma CountSnoc<T>(s: seq<T>, y: T, x: T)
    ensures Count(s + [y], x) == Count(s, x) + (if x == y then 1 else 0)
  {
    assert multiset(s + [y]) == multiset(s) + multiset{y};
  }

  lemma CountPositive<T>(s: seq<T>, x: T)
    ensures x in s <==> Count(s, x) > 0
  {
  }

  /** Sum over a list of keys of a count function. */
  function SumOver<T>(keys: seq<T>, f: T -> nat): nat
  {
    if keys == [] then 0 else SumOver(keys[..|keys| - 1], f) + f(keys[|keys| - 1])
  }

  /**
   * The counts of the distinct elements of `s` add up to `|s|`: the values of
   * a counting dictionary sum to the length of the list it counted.
   */
  lemma {:induction false} CountsSumToLength<T>(s: seq<T>)
    ensures SumOver(Dedup(s), x => Count(s, x)) == |s|
  {
    if s != [] {
      var init, y := s[..|s| - 1], s[|s| - 1];
      assert s == init + [y];
      CountsSumToLength(init);
      forall x ensures Count(s, x) == Count(init, x) + (if x == y then 1 else 0) {
        CountSnoc(init, y, x);
      }
      SumShift(Dedup(init), x => Count(init, x), x => Count(s, x), y);
      if y !in init {
        CountPositive(init, y);
        assert Count(s, y) == 1;
      }
    }
  }

  /**
   * Adding one to the count of `y` adds one to the sum over a duplicate-free
   * key list when `y` is among the keys, and nothing otherwise.
   */
  lemma {:induction false} SumShift<T>(keys: seq<T>, f: T -> nat, g: T -> nat, y: T)
    requires Distinct(keys)
    requires forall x :: g(x) == f(x) + (if x == y then 1 else 0)
    ensures SumOver(keys, g) == SumOver(keys, f) + (if y in keys then 1 else 0)
  {
    if keys != [] {
      var init := keys[..|keys| - 1];
      SumShift(init, f, g, y);
      assert keys == init + [keys[|keys| - 1]];
      assert y in keys <==> y in init || y == keys[|keys| - 1];
    }
  }
}
