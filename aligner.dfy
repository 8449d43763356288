/**
 * Re-estimation of the alignment model (bin/aligner.py): pair and input
 * frequencies are counted over all aligned sequences, a weighted term
 * `a:b::w` is kept for every pair that is frequent enough, has a real
 * input and accounts for more than 5% of its input's occurrences, and the
 * terms are written into one weighted regular expression that always ends
 * with a fixed fallback.
 *
 * The weight `1 - freq/total` is kept as an exact `real`; its decimal text
 * (`round(w, 4)` here, `str(w+0.005)[:4]` in train/aligner.py) is the
 * parameter `fmt`. The automaton `hfst.regex(...)` compiles is the abstract
 * value `Compiled(regex)`.
 */
module Aligner {
  import opened Symbols
  import opened Strings

  /** The default `smoothing` of `build_aligner` in bin/aligner.py. */
  const DefaultSmoothing: int := 1

  /** The default `smoothing` of `build_aligner` in train/aligner.py, which is otherwise the same model. */
  const TrainDefaultSmoothing: int := 3

  /** `esc`: the table `esc_dict` (epsilon is `0`), and `{c}` for every other symbol. */
  function AlignerEsc(c: Symbol): string
  {
    if c == "\"" then "%\""
    else if c == Eps then "0"
    else if c == Pad then Pad
    else if c == LBreak then "\"" + LBreak + "\""
    else if c == "\\" then "\"\\\\\""
    else "{" + c + "}"
  }

  /** Distinct symbols are escaped to distinct texts, so no two pairs share a key of `weights`. */
  lemma AlignerEscInjective(a: Symbol, b: Symbol)
    requires AlignerEsc(a) == AlignerEsc(b)
    ensures a == b
  {
    var e := AlignerEsc(a);
    if e[0] == '{' {
      assert e == "{" + a + "}" == "{" + b + "}";
      assert a == e[1..|e| - 1] == b;
    }
  }

  /** `[pair for pairs in aligned for pair in pairs]`. */
  function Flatten(aligned: seq<seq<Pair>>): seq<Pair>
  {
    if aligned == [] then [] else Flatten(aligned[..|aligned| - 1]) + aligned[|aligned| - 1]
  }

  /** The number of pairs with input `s1`. */
  function InputCount(pairs: seq<Pair>, s1: Symbol): nat
  {
    Count(Inputs(pairs), s1)
  }

  /** `get_total_freqs`: for every input symbol, the number of pairs that have it. */
  method GetTotalFreqs(pairs: seq<Pair>) returns (totals: map<Symbol, nat>)
    ensures totals.Keys == set p | p in pairs :: p.input
    ensures forall s1 | s1 in totals :: totals[s1] == InputCount(pairs, s1)
  {
    totals := map p | p in pairs :: p.input := 0;
    assert Inputs(pairs[..0]) == [];
    var i := 0;
    while i < |pairs|
      invariant 0 <= i <= |pairs|
      invariant totals.Keys == set p | p in pairs :: p.input
      invariant forall s1 | s1 in totals :: totals[s1] == InputCount(pairs[..i], s1)
    {
      assert pairs[i] in pairs;
      TotalsStep(pairs, i, totals);
      totals := totals[pairs[i].input := totals[pairs[i].input] + 1];
      i := i + 1;
    }
    assert pairs[..|pairs|] == pairs;
  }

  /** One step of the loop of `get_total_freqs`. */
  lemma TotalsStep(pairs: seq<Pair>, i: int, totals: map<Symbol, nat>)
    requires 0 <= i < |pairs| && pairs[i].input in totals
    requires forall s1 | s1 in totals :: totals[s1] == InputCount(pairs[..i], s1)
    ensures var t := totals[pairs[i].input := totals[pairs[i].input] + 1];
            forall s1 | s1 in t :: t[s1] == InputCount(pairs[..i + 1], s1)
  {
    InputCountStep(pairs, i);
  }

  lemma InputCountStep(pairs: seq<Pair>, i: int)
    requires 0 <= i < |pairs|
    ensures forall x :: InputCount(pairs[..i + 1], x) == InputCount(pairs[..i], x) + (if x == pairs[i].input then 1 else 0)
  {
    assert pairs[..i + 1] == pairs[..i] + [pairs[i]];
    assert Inputs(pairs[..i + 1]) == Inputs(pairs[..i]) + [pairs[i].input];
    forall x ensures InputCount(pairs[..i + 1], x) == InputCount(pairs[..i], x) + (if x == pairs[i].input then 1 else 0) {
      CountSnoc(Inputs(pairs[..i]), pairs[i].input, x);
    }
  }

  /** `get_freqs`: for every pair, the number of its occurrences. */
  method GetFreqs(pairs: seq<Pair>) returns (freqs: map<Pair, nat>)
    ensures freqs.Keys == set p | p in pairs
    ensures forall p | p in freqs :: freqs[p] == Count(pairs, p)
  {
    freqs := map p | p in pairs :: 0;
    var i := 0;
    while i < |pairs|
      invariant 0 <= i <= |pairs|
      invariant freqs.Keys == set p | p in pairs
      invariant forall p | p in freqs :: freqs[p] == Count(pairs[..i], p)
    {
      assert pairs[..i + 1] == pairs[..i] + [pairs[i]];
      forall x ensures Count(pairs[..i + 1], x) == Count(pairs[..i], x) + (if x == pairs[i] then 1 else 0) {
        CountSnoc(pairs[..i], pairs[i], x);
      }
      freqs := freqs[pairs[i] := freqs[pairs[i]] + 1];
      i := i + 1;
    }
    assert pairs[..|pairs|] == pairs;
  }

  /** The pair counts, taken over the distinct pairs, add up to the number of pairs. */
  lemma FreqsSumToLength(pairs: seq<Pair>)
    ensures SumOver(Dedup(pairs), p => Count(pairs, p)) == |pairs|
  {
    CountsSumToLength(pairs);
  }

  /** A pair occurs no more often than its input does. */
  lemma {:induction false} FreqAtMostTotal(pairs: seq<Pair>, p: Pair)
    ensures Count(pairs, p) <= InputCount(pairs, p.input)
  {
    if pairs != [] {
      var init, last := pairs[..|pairs| - 1], pairs[|pairs| - 1];
      assert pairs == init + [last];
      assert Inputs(pairs) == Inputs(init) + [last.input];
      FreqAtMostTotal(init, p);
      CountSnoc(init, last, p);
      CountSnoc(Inputs(init), last.input, p.input);
    }
  }

  /** `w = 1 - freq/total_freqs[s1]`. */
  function Weight(freq: nat, total: nat): real
    requires total > 0
  {
    1.0 - freq as real / total as real
  }

  /** The acceptance test `w < 0.95 and freq >= smoothing and s1 != eps`, with the weight test as integers. */
  predicate Accepted(freq: nat, total: nat, smoothing: int, s1: Symbol)
  {
    20 * freq > total && freq >= smoothing && s1 != Eps
  }

  /**
   * The integer test is the source's test on the weight, and an accepted
   * pair's weight lies in `[0, 0.95)` when the pair occurs at most as often
   * as its input.
   */
  lemma AcceptedIsWeightTest(freq: nat, total: nat, smoothing: int, s1: Symbol)
    requires total > 0
    ensures Accepted(freq, total, smoothing, s1) <==> Weight(freq, total) < 0.95 && freq >= smoothing && s1 != Eps
    ensures Accepted(freq, total, smoothing, s1) && freq <= total ==> 0.0 <= Weight(freq, total) < 0.95
  {
    var t, f := total as real, freq as real;
    var q := f / t;
    assert q * t == f;
    assert Weight(freq, total) == 1.0 - q;
    assert 20 * freq > total <==> 20.0 * f > t;
    assert 20.0 * f > t <==> 0.05 * t < f;
    ScaleLess(0.05, q, t, f);
    ScaleLess(1.0, q, t, f);
  }

  /**
   * With `bc` the product `b * c` of a positive `c`, `a < b` holds exactly
   * when `a * c < bc`.
   */
  lemma ScaleLess(a: real, b: real, c: real, bc: real)
    requires c > 0.0 && bc == b * c
    ensures a < b <==> a * c < bc
  {
    assert bc - a * c == (b - a) * c;
    if a < b {
      assert (b - a) * c > 0.0;
    } else {
      assert (a - b) * c >= 0.0;
    }
  }

  /** One weighted term: the escaped pair and its weight. */
  datatype Term = Term(input: string, output: string, weight: real)

  /** The term of pair `p`, given the pair list it was counted in. */
  function TermOf(pairs: seq<Pair>, p: Pair): Term
    requires p in pairs
  {
    InputsMember(pairs, p);
    Term(AlignerEsc(p.input), AlignerEsc(p.output), Weight(Count(pairs, p), InputCount(pairs, p.input)))
  }

  /** The terms of the accepted pairs of `ps`, in order. */
  function Terms(pairs: seq<Pair>, ps: seq<Pair>, smoothing: int): seq<Term>
    requires forall p | p in ps :: p in pairs
  {
    if ps == [] then []
    else
      var p := ps[|ps| - 1];
      var rest := Terms(pairs, ps[..|ps| - 1], smoothing);
      if Accepted(Count(pairs, p), InputCount(pairs, p.input), smoothing, p.input) then rest + [TermOf(pairs, p)] else rest
  }

  /** The entries of `get_weights(aligned, smoothing)`, in dictionary order. */
  function WeightsOf(aligned: seq<seq<Pair>>, smoothing: int): seq<Term>
  {
    var pairs := Flatten(aligned);
    Terms(pairs, Dedup(pairs), smoothing)
  }

  /**
   * `get_weights`: count over all aligned pairs, then visit the distinct
   * pairs in order of first occurrence and keep the accepted ones.
   */
  method GetWeights(aligned: seq<seq<Pair>>, smoothing: int) returns (weights: seq<Term>)
    ensures weights == WeightsOf(aligned, smoothing)
  {
    var pairs := Flatten(aligned);
    var freqs := GetFreqs(pairs);
    var totals := GetTotalFreqs(pairs);
    var order := Dedup(pairs);
    weights := [];
    var i := 0;
    while i < |order|
      invariant 0 <= i <= |order|
      invariant weights == Terms(pairs, order[..i], smoothing)
    {
      var p := order[i];
      assert p in pairs;
      InputsMember(pairs, p);
      var freq, total := freqs[p], totals[p.input];
      assert total > 0;
      TermsStep(pairs, order, i, smoothing);
      TermOfCounts(pairs, p, smoothing, freq, total);
      if 20 * freq > total && freq >= smoothing && p.input != Eps {
        weights := weights + [Term(AlignerEsc(p.input), AlignerEsc(p.output), 1.0 - freq as real / total as real)];
      }
      i := i + 1;
    }
    assert order[..|order|] == order;
  }

  /** One step of the loop of `get_weights`. */
  lemma TermsStep(pairs: seq<Pair>, order: seq<Pair>, i: int, smoothing: int)
    requires forall p | p in order :: p in pairs
    requires 0 <= i < |order|
    ensures var p := order[i];
            Terms(pairs, order[..i + 1], smoothing)
            == Terms(pairs, order[..i], smoothing)
               + (if Accepted(Count(pairs, p), InputCount(pairs, p.input), smoothing, p.input) then [TermOf(pairs, p)] else [])
  {
    assert order[..i + 1][..i] == order[..i];
  }

  /** The term and the test of pair `p`, written with its looked-up counts. */
  lemma TermOfCounts(pairs: seq<Pair>, p: Pair, smoothing: int, freq: nat, total: nat)
    requires p in pairs && freq == Count(pairs, p) && total == InputCount(pairs, p.input) && total > 0
    ensures TermOf(pairs, p) == Term(AlignerEsc(p.input), AlignerEsc(p.output), 1.0 - freq as real / total as real)
    ensures Accepted(Count(pairs, p), InputCount(pairs, p.input), smoothing, p.input)
            <==> 20 * freq > total && freq >= smoothing && p.input != Eps
  {
  }

  lemma InputsMember(pairs: seq<Pair>, p: Pair)
    requires p in pairs
    ensures p.input in Inputs(pairs) && InputCount(pairs, p.input) > 0
  {
    var j :| 0 <= j < |pairs| && pairs[j] == p;
    assert Inputs(pairs)[j] == p.input;
  }

  /** `t` is the term of the accepted pair `p`. */
  predicate Yields(pairs: seq<Pair>, smoothing: int, p: Pair, t: Term)
  {
    p in pairs && Accepted(Count(pairs, p), InputCount(pairs, p.input), smoothing, p.input) && t == TermOf(pairs, p)
  }

  lemma {:induction false} TermsMember(pairs: seq<Pair>, ps: seq<Pair>, smoothing: int, t: Term)
    requires forall p | p in ps :: p in pairs
    ensures t in Terms(pairs, ps, smoothing) <==> exists p | p in ps :: Yields(pairs, smoothing, p, t)
  {
    if ps != [] {
      var init, last := ps[..|ps| - 1], ps[|ps| - 1];
      assert ps == init + [last];
      TermsMember(pairs, init, smoothing, t);
      if t in Terms(pairs, ps, smoothing) {
        if t in Terms(pairs, init, smoothing) {
          var p :| p in init && Yields(pairs, smoothing, p, t);
          assert p in ps;
        } else {
          assert Yields(pairs, smoothing, last, t);
        }
      }
      if exists p | p in ps :: Yields(pairs, smoothing, p, t) {
        var p :| p in ps && Yields(pairs, smoothing, p, t);
        if p != last {
          assert p in init;
        }
      }
    }
  }

  /** A term is in the table exactly when it is the term of an accepted pair. */
  lemma WeightsMember(aligned: seq<seq<Pair>>, smoothing: int, t: Term)
    ensures var pairs := Flatten(aligned);
            t in WeightsOf(aligned, smoothing) <==> exists p | p in pairs :: Yields(pairs, smoothing, p, t)
  {
    var pairs := Flatten(aligned);
    if t in WeightsOf(aligned, smoothing) {
      var p := WeightsSource(aligned, smoothing, t);
    }
    if exists p | p in pairs :: Yields(pairs, smoothing, p, t) {
      var p :| p in pairs && Yields(pairs, smoothing, p, t);
      WeightsComplete(aligned, smoothing, p, t);
    }
  }

  lemma WeightsSource(aligned: seq<seq<Pair>>, smoothing: int, t: Term) returns (p: Pair)
    requires t in WeightsOf(aligned, smoothing)
    ensures p in Flatten(aligned) && Yields(Flatten(aligned), smoothing, p, t)
  {
    var pairs := Flatten(aligned);
    var order := Dedup(pairs);
    TermsMember(pairs, order, smoothing, t);
    p :| p in order && Yields(pairs, smoothing, p, t);
  }

  lemma WeightsComplete(aligned: seq<seq<Pair>>, smoothing: int, p: Pair, t: Term)
    requires Yields(Flatten(aligned), smoothing, p, t)
    ensures t in WeightsOf(aligned, smoothing)
  {
    var pairs := Flatten(aligned);
    var order := Dedup(pairs);
    TermsMember(pairs, order, smoothing, t);
    assert p in order;
  }

  /** Every weight in the table lies in `[0, 0.95)`. */
  lemma WeightsBounded(aligned: seq<seq<Pair>>, smoothing: int, t: Term)
    requires t in WeightsOf(aligned, smoothing)
    ensures 0.0 <= t.weight < 0.95
  {
    var pairs := Flatten(aligned);
    WeightsMember(aligned, smoothing, t);
    var p :| p in pairs && Yields(pairs, smoothing, p, t);
    InputsMember(pairs, p);
    FreqAtMostTotal(pairs, p);
    AcceptedIsWeightTest(Count(pairs, p), InputCount(pairs, p.input), smoothing, p.input);
  }

  /** The fallback that ends every model: any other pair costs 1, epsilon to epsilon nothing. */
  const Fallback: string := "?::1.00 | ?:?::1.00 | ?:0::1.00 | 0:?::1.00 | 0:0::0.00 ]*"

  /** `'%s:%s::%s | ' % (s1, s2, weight)`. */
  function TermText(t: Term, fmt: real -> string): string
  {
    t.input + ":" + t.output + "::" + fmt(t.weight) + " | "
  }

  /** The text of the terms, one after the other. */
  function TermsText(ts: seq<Term>, fmt: real -> string): string
  {
    if ts == [] then "" else TermsText(ts[..|ts| - 1], fmt) + TermText(ts[|ts| - 1], fmt)
  }

  lemma TermsTextStep(ts: seq<Term>, fmt: real -> string, i: int)
    requires 0 <= i < |ts|
    ensures TermsText(ts[..i + 1], fmt) == TermsText(ts[..i], fmt) + TermText(ts[i], fmt)
  {
    assert ts[..i + 1][..i] == ts[..i];
  }

  /** The text `get_regex` returns. */
  function RegexOf(aligned: seq<seq<Pair>>, smoothing: int, fmt: real -> string): (r: string)
  {
    "[ " + TermsText(WeightsOf(aligned, smoothing), fmt) + Fallback
  }

  /** `get_regex`: `'[ '`, one term per table entry, and the fallback. */
  method GetRegex(aligned: seq<seq<Pair>>, smoothing: int, fmt: real -> string) returns (regex: string)
    ensures regex == RegexOf(aligned, smoothing, fmt)
  {
    var weights := GetWeights(aligned, smoothing);
    regex := "[ ";
    var i := 0;
    while i < |weights|
      invariant 0 <= i <= |weights|
      invariant regex == "[ " + TermsText(weights[..i], fmt)
    {
      TermsTextStep(weights, fmt, i);
      AppendAssoc("[ ", TermsText(weights[..i], fmt), TermText(weights[i], fmt));
      regex := regex + TermText(weights[i], fmt);
      i := i + 1;
    }
    assert weights[..|weights|] == weights;
    regex := regex + Fallback;
  }

  /**
   * Whatever terms are selected, the model text opens with `'[ '`, ends
   * with the fallback, and between them lists every accepted term.
   */
  lemma RegexShape(aligned: seq<seq<Pair>>, smoothing: int, fmt: real -> string, i: int)
    requires 0 <= i < |WeightsOf(aligned, smoothing)|
    ensures var r := RegexOf(aligned, smoothing, fmt);
            && |r| >= 2 + |Fallback| && r[..2] == "[ " && r[|r| - |Fallback|..] == Fallback
            && IsSubstring(TermText(WeightsOf(aligned, smoothing)[i], fmt), r)
  {
    var ts := WeightsOf(aligned, smoothing);
    var body := TermsText(ts, fmt);
    var r := RegexOf(aligned, smoothing, fmt);
    assert r == "[ " + body + Fallback;
    var pos := TermsTextAt(ts, fmt, i);
    OccursInMiddle(TermText(ts[i], fmt), "[ ", body, Fallback, pos);
  }

  lemma {:induction false} TermsTextAt(ts: seq<Term>, fmt: real -> string, i: int) returns (pos: nat)
    requires 0 <= i < |ts|
    ensures OccursAt(TermText(ts[i], fmt), TermsText(ts, fmt), pos)
  {
    var init := ts[..|ts| - 1];
    var last := TermText(ts[|ts| - 1], fmt);
    if i == |ts| - 1 {
      pos := |TermsText(init, fmt)|;
    } else {
      assert init[i] == ts[i];
      pos := TermsTextAt(init, fmt, i);
      var t := TermText(ts[i], fmt);
      assert TermsText(ts, fmt)[pos..pos + |t|] == TermsText(init, fmt)[pos..pos + |t|];
    }
  }

  /** `build_aligner`: the automaton of the re-estimated model. */
  method BuildAligner(aligned: seq<seq<Pair>>, smoothing: int, fmt: real -> string) returns (fst: Fst)
    ensures fst == Compiled(RegexOf(aligned, smoothing, fmt))
  {
    var regex := GetRegex(aligned, smoothing, fmt);
    fst := Compiled(regex);
  }
}
