/**
 * The older rule induction of train/features2rules.py. Counting, pruning,
 * grouping, `generalize`, `excess`, `exclusions` and `remove_retentions` are
 * the same as in bin/features2rules.py and are modelled once, in
 * `FeaturesToRules`. What differs is `esc`, which also knows the line-break
 * symbol and drops spaces, and the rule text: a different template, the
 * terminator `;` and no final `replace`. The negative contexts are looked
 * up but do not reach the text.
 */
module TrainFeaturesToRules {
  import opened Symbols
  import opened Strings
  import opened Ordering
  import opened FeaturesToRules

  // ---------------------------------------------------------------------
  // esc
  // ---------------------------------------------------------------------

  /** `s.replace(' ', '')`. */
  function NoSpaces(s: string): (r: string)
    ensures ' ' !in r
  {
    if s == [] then "" else (if s[0] == ' ' then "" else [s[0]]) + NoSpaces(s[1..])
  }

  /** `s.replace(' ', '')` is the character-wise deletion of spaces. */
  lemma NoSpacesIsReplace(s: string)
    ensures ReplaceAll(s, " ", "") == NoSpaces(s)
  {
    ReplaceOneChar(s, ' ', "");
    assert [' '] == " ";
    NoSpacesMapChar(s);
  }

  lemma {:induction false} NoSpacesMapChar(s: string)
    ensures MapChar(s, ' ', "") == NoSpaces(s)
  {
    if s != [] {
      NoSpacesMapChar(s[1..]);
    }
  }

  /** A symbol of the escape table of train/features2rules.py. */
  predicate InTrainTable(s: Symbol)
  {
    s == "\"" || s == Eps || s == Pad || s == LBreak || s == "\\"
  }

  /** `esc`: the table `esc_dict`, and `{s}` with the spaces removed for every other symbol. */
  function TrainEsc(s: Symbol): string
  {
    if s == "\"" then "%\""
    else if s == Eps then "\"<E>\""
    else if s == Pad then Pad
    else if s == LBreak then "\"" + LBreak + "\""
    else if s == "\\" then "\"\\\\\""
    else "{" + NoSpaces(s) + "}"
  }

  /**
   * Outside the table, the escaped text holds no space, and two symbols
   * get the same text exactly when they agree once their spaces are
   * removed: a merged insertion run `a b` is written as the string `ab`.
   */
  lemma TrainEscOutsideTable(a: Symbol, b: Symbol)
    requires !InTrainTable(a) && !InTrainTable(b)
    ensures ' ' !in TrainEsc(a)
    ensures TrainEsc(a) == TrainEsc(b) <==> NoSpaces(a) == NoSpaces(b)
  {
    var ea, eb := TrainEsc(a), TrainEsc(b);
    assert ea == "{" + NoSpaces(a) + "}";
    assert eb == "{" + NoSpaces(b) + "}";
    if ea == eb {
      assert NoSpaces(a) == ea[1..|ea| - 1] == NoSpaces(b);
    }
  }

  // ---------------------------------------------------------------------
  // convert2regex_compressed
  // ---------------------------------------------------------------------

  /** `'%s <.> [ ? - "<S>"]*' % esc(s)`. */
  function TrainArc(s: string): string
  {
    TrainEsc(s) + TrainArcTail
  }

  const TrainArcTail: string := " <.> [ ? - \"<S>\"]*"
  const TrainBars: string := " ] ||\t"

  /**
   * The text of one rule. The input is written unescaped at the head and
   * escaped in the right context; `outText` renders the output map.
   */
  function TrainRuleText(k: RuleKey, m: Outputs, outText: Outputs -> string): string
  {
    k.input + Arrow + outText(m) + TrainBars + TrainLeftText(k) + Focus + TrainRightText(k)
  }

  /** `cxL.strip()`. */
  function TrainLeftText(k: RuleKey): string
  {
    Strip(Join(MapSeq(k.left, TrainArc), SegmentSep) + " \"<S>\"")
  }

  /** `cxR.strip()`. */
  function TrainRightText(k: RuleKey): string
  {
    Strip("<.> " + TrainEsc(k.input) + SegmentSep + Join(MapSeq(k.right, TrainArc), SegmentSep))
  }

  /** The rule text of key `k`. */
  function TrainRuleOf(w: Rules, outText: Outputs -> string): RuleKey -> string
  {
    k => if k in w then TrainRuleText(k, w[k], outText) else ""
  }

  /** The list `rules` once the rules `ks` have been appended. */
  function TrainRuleTexts(w: Rules, ks: seq<RuleKey>, outText: Outputs -> string): seq<string>
    requires forall k | k in ks :: k in w
  {
    if ks == [] then []
    else
      var k := ks[|ks| - 1];
      TrainRuleTexts(w, ks[..|ks| - 1], outText) + [TrainRuleText(k, w[k], outText)]
  }

  lemma {:induction false} TrainRuleTextsMap(w: Rules, ks: seq<RuleKey>, outText: Outputs -> string)
    requires forall k | k in ks :: k in w
    ensures TrainRuleTexts(w, ks, outText) == MapSeq(ks, TrainRuleOf(w, outText))
  {
    if ks != [] {
      var init, k := ks[..|ks| - 1], ks[|ks| - 1];
      assert ks == init + [k];
      var f := TrainRuleOf(w, outText);
      TrainRuleTextsMap(w, init, outText);
      MapSnoc(init, k, f);
      assert f(k) == TrainRuleText(k, w[k], outText);
    }
  }

  lemma {:induction false} TrainRuleTextsAt(w: Rules, ks: seq<RuleKey>, outText: Outputs -> string, i: int)
    requires forall k | k in ks :: k in w
    requires 0 <= i < |ks|
    ensures |TrainRuleTexts(w, ks, outText)| == |ks|
    ensures TrainRuleTexts(w, ks, outText)[i] == TrainRuleText(ks[i], w[ks[i]], outText)
  {
    var init := ks[..|ks| - 1];
    if i < |ks| - 1 {
      assert init[i] == ks[i];
      TrainRuleTextsAt(w, init, outText, i);
    } else if |init| > 0 {
      TrainRuleTextsAt(w, init, outText, 0);
    }
  }

  /** `rules` after `rules.sort()`. */
  function TrainSortedRules(w: Rules, keys: seq<RuleKey>, outText: Outputs -> string): seq<string>
    requires forall k | k in keys :: k in w
  {
    Sort(TrainRuleTexts(w, keys, outText), StrLess)
  }

  /** The text that `convert2regex_compressed` returns. */
  function TrainCompressedText(w: Rules, keys: seq<RuleKey>, outText: Outputs -> string): string
    requires forall k | k in keys :: k in w
  {
    Join(TrainSortedRules(w, keys, outText), " ,,\n") + ";"
  }

  /** The loop of `convert2regex_compressed`, which also looks up every rule's negative contexts. */
  method TrainCollectRules(w: Rules, excl: map<RuleKey, Excl>, keys: seq<RuleKey>, outText: Outputs -> string)
    returns (rules: seq<string>)
    requires IsKeyOrder(keys, w) && w.Keys <= excl.Keys
    ensures rules == TrainRuleTexts(w, keys, outText)
  {
    rules := [];
    var i := 0;
    while i < |keys|
      invariant 0 <= i <= |keys|
      invariant rules == TrainRuleTexts(w, keys[..i], outText)
    {
      var k := keys[i];
      assert keys[..i + 1][..i] == keys[..i];
      var e := excl[k];
      rules := rules + [TrainRuleText(k, w[k], outText)];
      i := i + 1;
    }
    assert keys[..|keys|] == keys;
  }

  /** `convert2regex_compressed`: the rule texts, sorted, joined by `' ,,\n'` and terminated by `';'`. */
  method TrainConvertCompressed(w: Rules, excl: map<RuleKey, Excl>, keys: seq<RuleKey>, outText: Outputs -> string)
    returns (regex: string)
    requires IsKeyOrder(keys, w) && w.Keys <= excl.Keys
    ensures regex == TrainCompressedText(w, keys, outText)
  {
    var rules := TrainCollectRules(w, excl, keys, outText);
    rules := Sort(rules, StrLess);
    regex := Join(rules, " ,,\n") + ";";
  }

  /** The text does not depend on the order in which the dictionary lists its rules. */
  lemma TrainConvertOrderFree(w: Rules, keys1: seq<RuleKey>, keys2: seq<RuleKey>, outText: Outputs -> string)
    requires IsKeyOrder(keys1, w) && IsKeyOrder(keys2, w)
    ensures TrainCompressedText(w, keys1, outText) == TrainCompressedText(w, keys2, outText)
  {
    TrainRuleTextsMap(w, keys1, outText);
    TrainRuleTextsMap(w, keys2, outText);
    DistinctPermutation(keys1, keys2);
    MapPermutation(keys1, keys2, TrainRuleOf(w, outText));
    StrLessStrictTotal();
    SortPermutationInvariant(MapSeq(keys1, TrainRuleOf(w, outText)), MapSeq(keys2, TrainRuleOf(w, outText)), StrLess);
  }

  /** One rule text per rule, in sorted order, each rule's own text among them; the text ends in `;`. */
  lemma TrainConvertRules(w: Rules, keys: seq<RuleKey>, outText: Outputs -> string, k: RuleKey)
    requires IsKeyOrder(keys, w)
    ensures |TrainSortedRules(w, keys, outText)| == |w|
    ensures Sorted(TrainSortedRules(w, keys, outText), StrLess)
    ensures k in w ==> TrainRuleText(k, w[k], outText) in TrainSortedRules(w, keys, outText)
    ensures TrainCompressedText(w, keys, outText)[|TrainCompressedText(w, keys, outText)| - 1] == ';'
  {
    var rules := TrainRuleTexts(w, keys, outText);
    assert |TrainSortedRules(w, keys, outText)| == |keys| by {
      if |keys| > 0 {
        TrainRuleTextsAt(w, keys, outText, 0);
      }
    }
    assert |keys| == |w| by {
      DistinctCardinality(keys);
      assert (set x | x in keys) == w.Keys;
    }
    StrLessStrictTotal();
    SortSorted(rules, StrLess);
    if k in w {
      var i :| 0 <= i < |keys| && keys[i] == k;
      TrainRuleTextsAt(w, keys, outText, i);
      assert rules[i] in multiset(rules);
    }
  }

  // ---------------------------------------------------------------------
  // get_rules
  // ---------------------------------------------------------------------

  /** The text `get_rules(features, t)` prints, or the error it raises. */
  ghost function TrainRulesOf(feats: seq<Feature>, t: int, outText: Outputs -> string): Result<string>
  {
    var g := Generalized(Generalized(WeightsOf(feats, t)));
    if !ExcessUnpacks(g.Keys) then Failure(UnpackError)
    else
      var kept := RemoveRetentions(g);
      Success(TrainCompressedText(kept, SetToSeq(kept.Keys), outText))
  }

  /**
   * `get_rules`: the same stages as in bin/features2rules.py, with this
   * file's rule text. The function returns nothing; the model returns the
   * text it prints.
   */
  method TrainGetRules(feats: seq<Feature>, t: int, outText: Outputs -> string) returns (r: Result<string>)
    ensures r == TrainRulesOf(feats, t, outText)
  {
    var weights := GetWeights(feats, t);
    weights := Generalize(weights);
    weights := Generalize(weights);
    var excl := Exclusions(weights);
    if excl.Failure? {
      return Failure(excl.error);
    }
    weights := RemoveRetentions(weights);
    var keys := SetToList(weights.Keys);
    var text := TrainConvertCompressed(weights, excl.value, keys, outText);
    TrainConvertOrderFree(weights, keys, SetToSeq(weights.Keys), outText);
    r := Success(text);
  }
}
