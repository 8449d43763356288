/**
 * Rule induction (bin/features2rules.py): features are counted, pruned by a
 * frequency threshold and grouped by `(input, leftContext, rightContext)`
 * into weighted rules; redundant rules are removed (`generalize`), negative
 * contexts are derived (`excess`, `exclusions`), identity rules are dropped
 * (`remove_retentions`) and the rules are written out as one sorted
 * parallel-replace expression.
 *
 * A rule's weight for output `s2` is `-log10(p)` rounded to three places,
 * where `p` is the share of the rule's survivors that have output `s2`. The
 * model keeps `p` itself as an exact `real`: `-log10` is strictly
 * decreasing, so two rules have equal weight maps exactly when they have
 * equal maps of `p`, and a weight is 0 exactly when `p` is 1.
 */
module FeaturesToRules {
  import opened Symbols
  import opened Strings
  import opened Ordering

  /** The output-to-`p` map of one rule. */
  type Outputs = map<Symbol, real>

  /** The rule table `weights`. */
  type Rules = map<RuleKey, Outputs>

  // ---------------------------------------------------------------------
  // esc
  // ---------------------------------------------------------------------

  /** `esc`: the table `esc_dict`, and `{s}` for every other symbol. */
  function Esc(s: Symbol): string
  {
    if s == "\"" then "%\""
    else if s == Eps then "\"<E>\""
    else if s == Pad then Pad
    else if s == "\\" then "\"\\\\\""
    else "{" + s + "}"
  }

  /** Distinct symbols are escaped to distinct texts. */
  lemma EscInjective(a: Symbol, b: Symbol)
    requires Esc(a) == Esc(b)
    ensures a == b
  {
    var e := Esc(a);
    if e[0] == '{' {
      assert e == "{" + a + "}" == "{" + b + "}";
      assert a == e[1..|e| - 1] == b;
    }
  }

  // ---------------------------------------------------------------------
  // get_weights
  // ---------------------------------------------------------------------

  /** An insertion with both contexts empty, which may not become a rule. */
  predicate ContextFree(f: Feature)
  {
    f.sub.input == Eps && f.left == [] && f.right == []
  }

  /** `f` passes both filters of `get_weights`. */
  predicate Survives(feats: seq<Feature>, t: int, f: Feature)
  {
    Count(feats, f) >= t && !ContextFree(f)
  }

  function KeepSurvivors(fs: seq<Feature>, feats: seq<Feature>, t: int): (r: seq<Feature>)
    ensures forall f | f in r :: f in fs && Survives(feats, t, f)
    ensures forall f | f in fs && Survives(feats, t, f) :: f in r
    ensures Distinct(fs) ==> Distinct(r)
  {
    if fs == [] then []
    else
      var init := KeepSurvivors(fs[..|fs| - 1], feats, t);
      var f := fs[|fs| - 1];
      assert fs == fs[..|fs| - 1] + [f];
      if Survives(feats, t, f) then init + [f] else init
  }

  /**
   * The keys of `freqs` after both filters, in dictionary order: the
   * distinct features, in order of first occurrence, that occur at least `t`
   * times and are not context-free insertions.
   */
  function Survivors(feats: seq<Feature>, t: int): seq<Feature>
  {
    KeepSurvivors(Dedup(feats), feats, t)
  }

  lemma SurvivorsMember(feats: seq<Feature>, t: int, f: Feature)
    ensures f in Survivors(feats, t) <==> f in feats && Survives(feats, t, f)
    ensures Distinct(Survivors(feats, t))
  {
  }

  /** The rule keys of a list of features. */
  function KeysOf(fs: seq<Feature>): set<RuleKey>
  {
    set f | f in fs :: KeyOf(f)
  }

  /** The total count of the features of `fs` that have key `k`: `sums[k]` once `fs` has been added. */
  function KeyTotal(feats: seq<Feature>, fs: seq<Feature>, k: RuleKey): nat
  {
    if fs == [] then 0
    else KeyTotal(feats, fs[..|fs| - 1], k) + (if KeyOf(fs[|fs| - 1]) == k then Count(feats, fs[|fs| - 1]) else 0)
  }

  /** The outputs of the features of `fs` that have key `k`. */
  function GroupOutputs(fs: seq<Feature>, k: RuleKey): set<Symbol>
  {
    set f | f in fs && KeyOf(f) == k :: f.sub.output
  }

  /** `freq / sums[key]` as an exact fraction. */
  function Ratio(c: nat, total: nat): real
  {
    if total == 0 then 0.0 else c as real / total as real
  }

  /** The map of rule `k` once the features `fs` have been entered, `total` being `sums[k]`. */
  function GroupMap(feats: seq<Feature>, fs: seq<Feature>, k: RuleKey, total: nat): Outputs
  {
    map s2 | s2 in GroupOutputs(fs, k) :: Ratio(Count(feats, FeatureOf(k, s2)), total)
  }

  /** The result of `get_weights(feats, t)`. */
  function WeightsOf(feats: seq<Feature>, t: int): Rules
  {
    var surv := Survivors(feats, t);
    map k | k in KeysOf(surv) :: GroupMap(feats, surv, k, KeyTotal(feats, surv, k))
  }

  /** The counting loop of `get_weights`: `freqs[f]` is the number of occurrences of `f`. */
  method CountFeatures(feats: seq<Feature>) returns (freqs: map<Feature, nat>)
    ensures freqs.Keys == set f | f in feats
    ensures forall f | f in freqs :: freqs[f] == Count(feats, f)
  {
    freqs := map f | f in feats :: 0;
    var i := 0;
    while i < |feats|
      invariant 0 <= i <= |feats|
      invariant freqs.Keys == set f | f in feats
      invariant forall f | f in freqs :: freqs[f] == Count(feats[..i], f)
    {
      CountSnocAll(feats[..i], feats[i]);
      assert feats[..i + 1] == feats[..i] + [feats[i]];
      freqs := freqs[feats[i] := freqs[feats[i]] + 1];
      i := i + 1;
    }
    assert feats[..|feats|] == feats;
  }

  /** The loop that fills `sums`: the total count of the kept features of each rule key. */
  method TotalByKey(feats: seq<Feature>, kept: seq<Feature>, freqs: map<Feature, nat>) returns (sums: map<RuleKey, nat>)
    requires forall f | f in kept :: f in freqs && freqs[f] == Count(feats, f)
    ensures sums.Keys == KeysOf(kept)
    ensures forall k | k in sums :: sums[k] == KeyTotal(feats, kept, k)
  {
    sums := map k | k in KeysOf(kept) :: 0;
    var j := 0;
    while j < |kept|
      invariant 0 <= j <= |kept|
      invariant sums.Keys == KeysOf(kept)
      invariant forall k | k in sums :: sums[k] == KeyTotal(feats, kept[..j], k)
    {
      var f := kept[j];
      assert kept[..j + 1] == kept[..j] + [f];
      KeyTotalSnoc(feats, kept[..j], f);
      sums := sums[KeyOf(f) := sums[KeyOf(f)] + freqs[f]];
      j := j + 1;
    }
    assert kept[..|kept|] == kept;
  }

  /** The loop that fills `weights`: every kept feature gets its share of its rule key's total. */
  method ShareByKey(feats: seq<Feature>, kept: seq<Feature>, freqs: map<Feature, nat>, sums: map<RuleKey, nat>)
    returns (weights: Rules)
    requires forall f | f in kept :: f in freqs && freqs[f] == Count(feats, f)
    requires sums.Keys == KeysOf(kept)
    ensures weights.Keys == KeysOf(kept)
    ensures forall k | k in weights :: weights[k] == GroupMap(feats, kept, k, sums[k])
  {
    weights := map k | k in sums :: map[];
    var j := 0;
    while j < |kept|
      invariant 0 <= j <= |kept|
      invariant weights.Keys == KeysOf(kept)
      invariant forall k | k in weights :: weights[k] == GroupMap(feats, kept[..j], k, sums[k])
    {
      var f := kept[j];
      var k := KeyOf(f);
      GroupMapSnoc(feats, kept[..j], f, sums);
      assert kept[..j + 1] == kept[..j] + [f];
      weights := weights[k := weights[k][f.sub.output := Ratio(freqs[f], sums[k])]];
      j := j + 1;
    }
    assert kept[..|kept|] == kept;
  }

  /**
   * `get_weights`: count the features, keep the frequent ones that are not
   * context-free insertions (the two dictionary comprehensions, which keep
   * the order of first occurrence), total the counts per rule key and give
   * every survivor its share of its rule's total.
   */
  method GetWeights(feats: seq<Feature>, t: int) returns (weights: Rules)
    ensures weights == WeightsOf(feats, t)
  {
    var freqs := CountFeatures(feats);
    var kept := Survivors(feats, t);
    var sums := TotalByKey(feats, kept, freqs);
    weights := ShareByKey(feats, kept, freqs, sums);
  }

  lemma KeyTotalSnoc(feats: seq<Feature>, fs: seq<Feature>, f: Feature)
    ensures forall k :: KeyTotal(feats, fs + [f], k)
                        == KeyTotal(feats, fs, k) + (if KeyOf(f) == k then Count(feats, f) else 0)
  {
    assert (fs + [f])[..|fs|] == fs;
  }

  lemma CountSnocAll(s: seq<Feature>, y: Feature)
    ensures forall x :: Count(s + [y], x) == Count(s, x) + (if x == y then 1 else 0)
  {
    forall x ensures Count(s + [y], x) == Count(s, x) + (if x == y then 1 else 0) {
      CountSnoc(s, y, x);
    }
  }

  lemma GroupMapSnoc(feats: seq<Feature>, fs: seq<Feature>, f: Feature, sums: map<RuleKey, nat>)
    requires KeyOf(f) in sums
    ensures forall k | k in sums && k != KeyOf(f) ::
              GroupMap(feats, fs + [f], k, sums[k]) == GroupMap(feats, fs, k, sums[k])
    ensures GroupMap(feats, fs + [f], KeyOf(f), sums[KeyOf(f)])
            == GroupMap(feats, fs, KeyOf(f), sums[KeyOf(f)])[f.sub.output := Ratio(Count(feats, f), sums[KeyOf(f)])]
  {
    forall k | k in sums ensures GroupOutputs(fs + [f], k) == GroupOutputs(fs, k) + (if KeyOf(f) == k then {f.sub.output} else {}) {
    }
    assert FeatureOf(KeyOf(f), f.sub.output) == f;
  }

  /** Every rule comes from a feature that occurs at least `t` times and is not a context-free insertion, and vice versa. */
  lemma WeightsKeys(feats: seq<Feature>, t: int, k: RuleKey)
    ensures k in WeightsOf(feats, t) <==> exists f :: f in feats && Survives(feats, t, f) && KeyOf(f) == k
  {
    if exists f :: f in feats && Survives(feats, t, f) && KeyOf(f) == k {
      var f :| f in feats && Survives(feats, t, f) && KeyOf(f) == k;
      SurvivorsMember(feats, t, f);
    }
    if k in WeightsOf(feats, t) {
      var f :| f in Survivors(feats, t) && KeyOf(f) == k;
      SurvivorsMember(feats, t, f);
    }
  }

  /** No rule has epsilon input with both contexts empty. */
  lemma NoContextFreeRule(feats: seq<Feature>, t: int, k: RuleKey)
    requires k in WeightsOf(feats, t)
    ensures !(k.input == Eps && k.left == [] && k.right == [])
  {
    WeightsKeys(feats, t, k);
  }

  /** Output `s2` appears in rule `k` exactly when the feature `(k.input, s2)` with `k`'s contexts survives. */
  lemma WeightsOutputs(feats: seq<Feature>, t: int, k: RuleKey, s2: Symbol)
    requires k in WeightsOf(feats, t)
    ensures s2 in WeightsOf(feats, t)[k] <==> FeatureOf(k, s2) in feats && Survives(feats, t, FeatureOf(k, s2))
  {
    var surv := Survivors(feats, t);
    SurvivorsMember(feats, t, FeatureOf(k, s2));
    if s2 in GroupOutputs(surv, k) {
      var g :| g in surv && KeyOf(g) == k && g.sub.output == s2;
      assert g == FeatureOf(k, s2);
    }
  }

  lemma {:induction false} KeyTotalZero(feats: seq<Feature>, fs: seq<Feature>, k: RuleKey)
    requires forall g | g in fs :: g in feats
    ensures KeyTotal(feats, fs, k) == 0 <==> forall g | g in fs :: KeyOf(g) != k
  {
    if fs != [] {
      var init, last := fs[..|fs| - 1], fs[|fs| - 1];
      assert fs == init + [last];
      KeyTotalZero(feats, init, k);
      assert last in feats;
    }
  }

  /**
   * Within a rule key's group, the total is at least the count of any one
   * member, and equal to it exactly when that member is the group's only one.
   */
  lemma {:induction false} KeyTotalBounds(feats: seq<Feature>, fs: seq<Feature>, f: Feature)
    requires Distinct(fs) && f in fs
    requires forall g | g in fs :: g in feats
    ensures KeyTotal(feats, fs, KeyOf(f)) >= Count(feats, f)
    ensures KeyTotal(feats, fs, KeyOf(f)) == Count(feats, f) <==> forall g | g in fs && KeyOf(g) == KeyOf(f) :: g == f
  {
    var k := KeyOf(f);
    var init, last := fs[..|fs| - 1], fs[|fs| - 1];
    assert fs == init + [last];
    assert last in feats;
    if last == f {
      assert f !in init;
      KeyTotalZero(feats, init, k);
    } else {
      KeyTotalBounds(feats, init, f);
    }
  }

  lemma RatioBounds(c: nat, total: nat)
    requires 0 < c <= total
    ensures 0.0 < Ratio(c, total) <= 1.0
    ensures Ratio(c, total) == 1.0 <==> c == total
  {
    var r := c as real / total as real;
    assert r * total as real == c as real;
  }

  /**
   * Every share lies in (0, 1], so every weight `-log10(p)` is non-negative;
   * a share is 1, i.e. the weight is 0, exactly when that output is the only
   * one of its rule.
   */
  lemma WeightBounds(feats: seq<Feature>, t: int, k: RuleKey, s2: Symbol)
    requires k in WeightsOf(feats, t) && s2 in WeightsOf(feats, t)[k]
    ensures 0.0 < WeightsOf(feats, t)[k][s2] <= 1.0
    ensures WeightsOf(feats, t)[k][s2] == 1.0 <==> WeightsOf(feats, t)[k].Keys == {s2}
  {
    var surv := Survivors(feats, t);
    var f := FeatureOf(k, s2);
    WeightsOutputs(feats, t, k, s2);
    SurvivorsMember(feats, t, f);
    forall g | g in surv ensures g in feats {
      SurvivorsMember(feats, t, g);
    }
    KeyTotalBounds(feats, surv, f);
    RatioBounds(Count(feats, f), KeyTotal(feats, surv, k));
    var outs := WeightsOf(feats, t)[k].Keys;
    assert outs == GroupOutputs(surv, k);
    if outs == {s2} {
      forall g | g in surv && KeyOf(g) == k ensures g == f {
        assert g.sub.output in outs;
      }
    }
    if KeyTotal(feats, surv, k) == Count(feats, f) {
      forall o | o in outs ensures o == s2 {
        var g :| g in surv && KeyOf(g) == k && g.sub.output == o;
      }
    }
  }

  /**
   * A rule's identity map `{s: 0.0}` is exactly a rule whose only output is
   * its own input: a single output has share 1, i.e. weight 0.
   */
  lemma RetentionIsIdentity(feats: seq<Feature>, t: int, k: RuleKey)
    requires k in WeightsOf(feats, t)
    ensures WeightsOf(feats, t)[k] == map[k.input := 1.0] <==> WeightsOf(feats, t)[k].Keys == {k.input}
  {
    var m := WeightsOf(feats, t)[k];
    if m.Keys == {k.input} {
      WeightBounds(feats, t, k, k.input);
      SingletonMap(m, k.input);
    }
  }

  /** A map with the single key `x` is `{x: m[x]}`. */
  lemma SingletonMap<K, V>(m: map<K, V>, x: K)
    requires m.Keys == {x}
    ensures m == map[x := m[x]]
  {
  }

  // ---------------------------------------------------------------------
  // generalize
  // ---------------------------------------------------------------------

  /** `''.join(cl + ('|', s, '|') + cr)`: the rule's context written around its input. */
  function ContextText(k: RuleKey): string
  {
    Concat(k.left) + "|" + k.input + "|" + Concat(k.right)
  }

  /**
   * Rule `j` makes rule `k` redundant: `j`'s context text lies strictly
   * inside `k`'s and the two rules have the same map.
   */
  predicate Covers(w: Rules, j: RuleKey, k: RuleKey)
  {
    j in w && k in w && StrictlyInside(ContextText(j), ContextText(k)) && w[j] == w[k]
  }

  /** No rule of `w` covers `j`. */
  predicate Uncovered(w: Rules, j: RuleKey)
  {
    !exists i | i in w :: Covers(w, i, j)
  }

  /** The result of `generalize(w)`: the rules with a non-empty map that no rule covers. */
  function Generalized(w: Rules): Rules
  {
    map k | k in w && w[k] != map[] && Uncovered(w, k) :: w[k]
  }

  lemma CoversTransitive(w: Rules, i: RuleKey, j: RuleKey, k: RuleKey)
    requires Covers(w, i, j) && Covers(w, j, k)
    ensures Covers(w, i, k)
  {
    StrictlyInsideTransitive(ContextText(i), ContextText(j), ContextText(k));
  }

  /** A covered rule is covered by an uncovered one: follow covers towards shorter context texts. */
  lemma {:induction false} UncoveredCover(w: Rules, j: RuleKey, k: RuleKey) returns (m: RuleKey)
    requires Covers(w, j, k)
    ensures Covers(w, m, k) && Uncovered(w, m)
    decreases |ContextText(j)|
  {
    if Uncovered(w, j) {
      m := j;
    } else {
      var i :| i in w && Covers(w, i, j);
      StrictlyInsideShorter(ContextText(i), ContextText(j));
      CoversTransitive(w, i, j, k);
      m := UncoveredCover(w, i, k);
    }
  }

  /**
   * The state of `weights2` during the loops: the same keys, every map
   * either the original or emptied, and a non-empty map emptied only when
   * some rule covers it.
   */
  predicate Cleared(w: Rules, w2: Rules)
  {
    && w2.Keys == w.Keys
    && (forall k | k in w2 :: w2[k] == w[k] || w2[k] == map[])
    && (forall k | k in w2 && w2[k] != w[k] :: !Uncovered(w, k))
  }

  /** Every rule of `w2` with an empty map still has one in `w3`. */
  predicate KeepsEmpty(w2: Rules, w3: Rules)
  {
    forall k | k in w2 && w2[k] == map[] :: k in w3 && w3[k] == map[]
  }

  /** Every rule of `done` that `q1` covers has an empty map in `w3`. */
  predicate EmptiedCovered(w: Rules, w3: Rules, q1: RuleKey, done: set<RuleKey>)
  {
    forall k | k in done && Covers(w, q1, k) :: k in w3 && w3[k] == map[]
  }

  /**
   * One step of the inner loop, for the rule `q2`, keeps `Cleared` and
   * `KeepsEmpty`, and empties `q2` when an uncovered `q1` covers it.
   */
  lemma ClearStep(w: Rules, w2: Rules, w3: Rules, q1: RuleKey, q2: RuleKey, dict1: Outputs, done: set<RuleKey>)
    requires Cleared(w, w2) && q1 in w && q2 in w && dict1 == w2[q1]
    requires Cleared(w, w3) && KeepsEmpty(w2, w3)
    requires Uncovered(w, q1) ==> EmptiedCovered(w, w3, q1, done)
    ensures var hit := IsSubstring(ContextText(q1), ContextText(q2)) && dict1 == w3[q2] && ContextText(q2) != ContextText(q1);
            var w4 := if hit then w3[q2 := map[]] else w3;
            && Cleared(w, w4) && KeepsEmpty(w2, w4)
            && (Uncovered(w, q1) ==> EmptiedCovered(w, w4, q1, done + {q2}))
  {
    var hit := IsSubstring(ContextText(q1), ContextText(q2)) && dict1 == w3[q2] && ContextText(q2) != ContextText(q1);
    var w4 := if hit then w3[q2 := map[]] else w3;
    if hit {
      if w3[q2] != map[] {
        assert w3[q2] == w[q2] && w2[q1] == w[q1];
        assert Covers(w, q1, q2);
      }
      ClearedEmptied(w, w3, q2);
      KeepsEmptyEmptied(w2, w3, q2);
    }
    if Uncovered(w, q1) {
      assert w2[q1] == w[q1];
      EmptiedStep(w, w3, w4, q1, q2, done);
    }
  }

  /** Emptying a rule that is covered, or whose map is already empty, keeps `Cleared`. */
  lemma ClearedEmptied(w: Rules, w3: Rules, q: RuleKey)
    requires Cleared(w, w3) && q in w && (w[q] == map[] || w3[q] == map[] || !Uncovered(w, q))
    ensures Cleared(w, w3[q := map[]])
  {
  }

  /** Emptying one more rule keeps the empty maps empty. */
  lemma KeepsEmptyEmptied(w2: Rules, w3: Rules, q: RuleKey)
    requires KeepsEmpty(w2, w3)
    ensures KeepsEmpty(w2, w3[q := map[]])
  {
  }

  /** Emptying `q2` when `q1` covers it extends `EmptiedCovered` to `q2`. */
  lemma EmptiedStep(w: Rules, w3: Rules, w4: Rules, q1: RuleKey, q2: RuleKey, done: set<RuleKey>)
    requires EmptiedCovered(w, w3, q1, done)
    requires w4 == w3 || w4 == w3[q2 := map[]]
    requires Covers(w, q1, q2) ==> q2 in w4 && w4[q2] == map[]
    ensures EmptiedCovered(w, w4, q1, done + {q2})
  {
  }

  /**
   * The inner loop of `generalize` for outer rule `q1`, whose map was
   * `dict1` when the outer loop reached it: every rule whose context text
   * strictly contains `q1`'s and whose current map equals `dict1` is emptied.
   */
  method ClearCoveredBy(w: Rules, w2: Rules, q1: RuleKey, dict1: Outputs) returns (w3: Rules)
    requires Cleared(w, w2) && q1 in w && dict1 == w2[q1]
    ensures Cleared(w, w3)
    ensures forall k | k in w2 && w2[k] == map[] :: w3[k] == map[]
    ensures Uncovered(w, q1) ==> forall k | k in w && Covers(w, q1, k) :: w3[k] == map[]
  {
    w3 := w2;
    var ft1 := ContextText(q1);
    var todo := w.Keys;
    ghost var done: set<RuleKey> := {};
    while todo != {}
      invariant todo <= w.Keys
      invariant forall k | k in w :: k in done || k in todo
      invariant Cleared(w, w3) && KeepsEmpty(w2, w3)
      invariant Uncovered(w, q1) ==> EmptiedCovered(w, w3, q1, done)
      decreases todo
    {
      var q2 :| q2 in todo;
      ClearStep(w, w2, w3, q1, q2, dict1, done);
      var ft2 := ContextText(q2);
      if IsSubstring(ft1, ft2) && dict1 == w3[q2] && ft2 != ft1 {
        w3 := w3[q2 := map[]];
      }
      done := done + {q2};
      todo := todo - {q2};
    }
  }

  /**
   * `generalize`: for every rule `q1`, in any order, empty every rule that
   * `q1`'s current map covers, then drop the emptied rules. The loops write
   * into the dictionary they iterate over; the result is nevertheless the
   * order-free `Generalized(w)`.
   */
  method Generalize(w: Rules) returns (r: Rules)
    ensures r == Generalized(w)
  {
    var w2 := w;
    var todo := w.Keys;
    ghost var done: set<RuleKey> := {};
    while todo != {}
      invariant todo <= w.Keys
      invariant forall k | k in w :: k in done || k in todo
      invariant Cleared(w, w2) && EmptiedByDone(w, w2, done)
      decreases todo
    {
      var q1 :| q1 in todo;
      var w3 := ClearCoveredBy(w, w2, q1, w2[q1]);
      GeneralizeStep(w, w2, w3, q1, done);
      w2 := w3;
      done := done + {q1};
      todo := todo - {q1};
    }
    r := map k | k in w2 && w2[k] != map[] :: w2[k];
    GeneralizeDone(w, w2, done);
  }

  /** Every rule that an uncovered rule of `done` covers has an empty map in `w2`. */
  predicate EmptiedByDone(w: Rules, w2: Rules, done: set<RuleKey>)
  {
    forall j, k | j in done && k in w && Uncovered(w, j) && Covers(w, j, k) :: k in w2 && w2[k] == map[]
  }

  /** One round of the outer loop of `generalize` adds its rule `q1` to `EmptiedByDone`. */
  lemma GeneralizeStep(w: Rules, w2: Rules, w3: Rules, q1: RuleKey, done: set<RuleKey>)
    requires Cleared(w, w2) && Cleared(w, w3) && EmptiedByDone(w, w2, done)
    requires forall k | k in w2 && w2[k] == map[] :: w3[k] == map[]
    requires Uncovered(w, q1) ==> forall k | k in w && Covers(w, q1, k) :: w3[k] == map[]
    ensures EmptiedByDone(w, w3, done + {q1})
  {
  }

  /**
   * Once every rule is done, the rules left with a non-empty map are exactly
   * the uncovered rules of `w` with a non-empty map.
   */
  lemma GeneralizeDone(w: Rules, w2: Rules, done: set<RuleKey>)
    requires Cleared(w, w2) && EmptiedByDone(w, w2, done)
    requires forall k | k in w :: k in done
    ensures (map k | k in w2 && w2[k] != map[] :: w2[k]) == Generalized(w)
  {
    forall k | k in w && w[k] != map[] && !Uncovered(w, k) ensures w2[k] == map[] {
      var j :| j in w && Covers(w, j, k);
      var m := UncoveredCover(w, j, k);
    }
  }

  /** `generalize` only removes rules, keeps the maps of the others and leaves no empty map. */
  lemma GeneralizeOnlyRemoves(w: Rules)
    ensures forall k | k in Generalized(w) :: k in w && Generalized(w)[k] == w[k] && w[k] != map[]
  {
  }

  /**
   * A rule with a non-empty map is removed only when a rule that is kept
   * covers it: a kept rule has a context text strictly inside the removed
   * one's and the same map.
   */
  lemma GeneralizeRemovedIsCovered(w: Rules, k: RuleKey)
    requires k in w && w[k] != map[] && k !in Generalized(w)
    ensures exists j | j in Generalized(w) :: Covers(w, j, k)
  {
    var j :| j in w && Covers(w, j, k);
    var m := UncoveredCover(w, j, k);
    assert m in Generalized(w);
  }

  /** A second `generalize` changes nothing, so `generalize(generalize(w))` equals `generalize(w)`. */
  lemma GeneralizeIdempotent(w: Rules)
    ensures Generalized(Generalized(w)) == Generalized(w)
  {
    var r := Generalized(w);
    forall j, k | j in r && k in r && Covers(r, j, k) ensures Covers(w, j, k) {
    }
  }

  // ---------------------------------------------------------------------
  // excess
  // ---------------------------------------------------------------------

  /** Python's `s.split(sep)` for a non-empty separator: cut at every non-overlapping occurrence, from the left. */
  function PySplit(s: string, sep: string): (r: seq<string>)
    requires |sep| > 0
    ensures |r| >= 1
    ensures IsSubstring(sep, s) <==> |r| >= 2
    decreases |s|
  {
    if IsSubstring(sep, s) then
      var i := FirstIndex(sep, s);
      [s[..i]] + PySplit(s[i + |sep|..], sep)
    else [s]
  }

  /** `sep.join(s.split(sep)) == s`. */
  lemma {:induction false} PySplitJoin(s: string, sep: string)
    requires |sep| > 0
    ensures Join(PySplit(s, sep), sep) == s
    decreases |s|
  {
    if IsSubstring(sep, s) {
      var i := FirstIndex(sep, s);
      var rest := s[i + |sep|..];
      PySplitJoin(rest, sep);
      assert s == s[..i] + sep + rest;
    }
  }

  /** The number of context symbols of a rule. */
  function ContextLength(k: RuleKey): nat
  {
    |k.left| + |k.right|
  }

  /**
   * `excess(q1, q2)`: when `q1`'s context text occurs inside `q2`'s and `q2`
   * has exactly one context symbol more, the pieces of `q2`'s text around
   * the occurrence; otherwise `['', '']`.
   */
  function Excess(q1: RuleKey, q2: RuleKey): (r: seq<string>)
    ensures |r| >= 2
  {
    var ft1, ft2 := ContextText(q1), ContextText(q2);
    if IsSubstring(ft1, ft2) && ContextLength(q2) - ContextLength(q1) == 1 then PySplit(ft2, ft1)
    else ["", ""]
  }

  /** When `excess` gives two pieces, they rebuild `q2`'s context text around `q1`'s. */
  lemma ExcessRebuilds(q1: RuleKey, q2: RuleKey)
    requires |Excess(q1, q2)| == 2
    ensures Excess(q1, q2) == ["", ""]
            || Excess(q1, q2)[0] + ContextText(q1) + Excess(q1, q2)[1] == ContextText(q2)
    ensures Excess(q1, q2) != ["", ""] ==>
              IsSubstring(ContextText(q1), ContextText(q2)) && ContextLength(q2) == ContextLength(q1) + 1
  {
    var ft1, ft2 := ContextText(q1), ContextText(q2);
    if IsSubstring(ft1, ft2) && ContextLength(q2) - ContextLength(q1) == 1 {
      PySplitJoin(ft2, ft1);
      var r := PySplit(ft2, ft1);
      assert Join(r, ft1) == r[0] + ft1 + Join(r[1..], ft1);
    }
  }

  /** No symbol of the rule contains `|`. */
  predicate PipeFree(k: RuleKey)
  {
    && '|' !in k.input
    && (forall s | s in k.left :: '|' !in s)
    && (forall s | s in k.right :: '|' !in s)
  }

  lemma {:induction false} ConcatAvoids(parts: seq<string>, c: char)
    requires forall s | s in parts :: c !in s
    ensures c !in Concat(parts)
  {
    if |parts| > 1 {
      ConcatAvoids(parts[1..], c);
      assert Concat(parts) == parts[0] + "" + Concat(parts[1..]);
    }
  }

  /** A pipe-free rule's context text has `|` exactly at the two places around its input. */
  lemma ContextPipes(k: RuleKey, n: int)
    requires PipeFree(k) && 0 <= n < |ContextText(k)|
    ensures ContextText(k)[n] == '|' <==> n == |Concat(k.left)| || n == |Concat(k.left)| + 1 + |k.input|
  {
    ConcatAvoids(k.left, '|');
    ConcatAvoids(k.right, '|');
    var l, i, rt := Concat(k.left), k.input, Concat(k.right);
    var ct := ContextText(k);
    if n < |l| {
      assert ct[n] == l[n];
    } else if |l| < n < |l| + 1 + |i| {
      assert ct[n] == i[n - |l| - 1];
    } else if n > |l| + 1 + |i| {
      assert ct[n] == rt[n - |l| - 2 - |i|];
    }
  }

  /**
   * If `a` has the marker `c` at `x < y` and `b` has `c` nowhere but at `p`
   * and `q`, then an occurrence of `a` in `b` puts `x` on `p`, and no
   * occurrence follows it.
   */
  lemma OccursOnce(a: string, b: string, c: char, x: nat, y: nat, p: nat, q: nat, i: nat)
    requires x < y < |a| && a[x] == c && a[y] == c
    requires forall n | 0 <= n < |b| && b[n] == c :: n == p || n == q
    requires p < q && OccursAt(a, b, i)
    ensures !IsSubstring(a, b[i + |a|..])
  {
    assert b[i + x] == a[x] && b[i + y] == a[y];
    var rest := b[i + |a|..];
    forall m | 0 <= m <= |rest| - |a| ensures !OccursAt(a, rest, m) {
      assert rest[m + x] == b[i + |a| + m + x];
    }
  }

  /**
   * When no symbol contains `|`, a context text occurs at most once inside
   * another, so `excess` always yields exactly two pieces and the unpacking
   * `[xl, xr] = excess(q1, q2)` cannot fail.
   */
  lemma ExcessTwoPieces(q1: RuleKey, q2: RuleKey)
    requires PipeFree(q1) && PipeFree(q2)
    ensures |Excess(q1, q2)| == 2
  {
    var a, b := ContextText(q1), ContextText(q2);
    if IsSubstring(a, b) && ContextLength(q2) - ContextLength(q1) == 1 {
      ContextOccursOnce(q1, q2, FirstIndex(a, b));
      PySplitTwo(b, a);
    }
  }

  /** A separator that occurs once splits the text into two pieces. */
  lemma PySplitTwo(s: string, sep: string)
    requires |sep| > 0 && IsSubstring(sep, s)
    requires !IsSubstring(sep, s[FirstIndex(sep, s) + |sep|..])
    ensures |PySplit(s, sep)| == 2
  {
    var rest := s[FirstIndex(sep, s) + |sep|..];
    PySplitWhole(rest, sep);
    assert PySplit(s, sep) == [s[..FirstIndex(sep, s)]] + PySplit(rest, sep);
  }

  /** A text without the separator is one piece. */
  lemma PySplitWhole(s: string, sep: string)
    requires |sep| > 0 && !IsSubstring(sep, s)
    ensures PySplit(s, sep) == [s]
  {
  }

  /** An occurrence of one pipe-free rule's context text in another's is the only one. */
  lemma ContextOccursOnce(q1: RuleKey, q2: RuleKey, i: nat)
    requires PipeFree(q1) && PipeFree(q2)
    requires OccursAt(ContextText(q1), ContextText(q2), i)
    ensures !IsSubstring(ContextText(q1), ContextText(q2)[i + |ContextText(q1)|..])
  {
    var a, b := ContextText(q1), ContextText(q2);
    var x := |Concat(q1.left)|;
    var y := x + 1 + |q1.input|;
    var p := |Concat(q2.left)|;
    ContextPipes(q1, x);
    ContextPipes(q1, y);
    forall n | 0 <= n < |b| && b[n] == '|' ensures n == p || n == p + 1 + |q2.input| {
      ContextPipes(q2, n);
    }
    OccursOnce(a, b, '|', x, y, p, p + 1 + |q2.input|, i);
  }

  // ---------------------------------------------------------------------
  // exclusions
  // ---------------------------------------------------------------------

  /** The negative left and right contexts of one rule. */
  datatype Excl = Excl(left: seq<string>, right: seq<string>)

  /** Python's message when `[xl, xr] = ...` meets more than two pieces. */
  const UnpackError: string := "too many values to unpack (expected 2)"

  /** `[xl, xr] = excess(q1, q2)` unpacks for every pair of rules of `keys`. */
  predicate ExcessUnpacks(keys: set<RuleKey>)
  {
    forall q1, q2 | q1 in keys && q2 in keys :: |Excess(q1, q2)| == 2
  }

  /** The pieces on side `side` (0 left, 1 right) that the rules of `keys` leave around `q1`. */
  function Pieces(keys: set<RuleKey>, q1: RuleKey, side: nat): set<string>
    requires side < 2
  {
    set q2 | q2 in keys :: Excess(q1, q2)[side]
  }

  /** `sorted` list of the non-empty pieces on one side of `q`. */
  ghost function ExclSide(keys: set<RuleKey>, q: RuleKey, side: nat): seq<string>
    requires side < 2
  {
    SortedSet(Pieces(keys, q, side) - {""}, StrLess)
  }

  /** The result of `exclusions` when every unpacking succeeds. */
  ghost function ExclusionsOf(keys: set<RuleKey>): map<RuleKey, Excl>
  {
    map q | q in keys :: Excl(ExclSide(keys, q, 0), ExclSide(keys, q, 1))
  }

  /** `sorted([s for s in set(xs) if s != ''])`. */
  method SortedNonEmpty(xs: seq<string>) returns (l: seq<string>)
    ensures l == SortedSet((set z | z in xs) - {""}, StrLess)
  {
    var u := SetToList(set z | z in xs);
    var kept := [];
    var i := 0;
    while i < |u|
      invariant 0 <= i <= |u|
      invariant forall x :: x in kept <==> x in u[..i] && x != ""
      invariant Distinct(kept)
    {
      assert u[..i + 1] == u[..i] + [u[i]];
      assert u[i] !in u[..i];
      if u[i] != "" {
        kept := kept + [u[i]];
      }
      i := i + 1;
    }
    assert u[..|u|] == u;
    l := Sort(kept, StrLess);
    StrLessStrictTotal();
    SortOfSetList(kept, (set z | z in xs) - {""}, StrLess);
  }

  /**
   * The inner loop of `exclusions` for rule `q1`: the left and right pieces
   * of `excess(q1, q2)` for every rule `q2`, or the unpacking error.
   */
  method ExcessLists(keys: set<RuleKey>, q1: RuleKey) returns (r: Result<(seq<string>, seq<string>)>)
    ensures r.Failure? <==> exists q2 | q2 in keys :: |Excess(q1, q2)| != 2
    ensures r.Failure? ==> r.error == UnpackError
    ensures r.Success? ==> (set z | z in r.value.0) == Pieces(keys, q1, 0)
                           && (set z | z in r.value.1) == Pieces(keys, q1, 1)
  {
    var xl, xr := [], [];
    var todo := keys;
    while todo != {}
      invariant todo <= keys
      invariant forall q2 | q2 in keys && q2 !in todo :: |Excess(q1, q2)| == 2
      invariant (set z | z in xl) == Pieces(keys - todo, q1, 0)
      invariant (set z | z in xr) == Pieces(keys - todo, q1, 1)
      decreases todo
    {
      var q2 :| q2 in todo;
      var pieces := Excess(q1, q2);
      if |pieces| != 2 {
        return Failure(UnpackError);
      }
      assert keys - (todo - {q2}) == (keys - todo) + {q2};
      assert (set z | z in xl + [pieces[0]]) == (set z | z in xl) + {pieces[0]};
      assert (set z | z in xr + [pieces[1]]) == (set z | z in xr) + {pieces[1]};
      xl, xr := xl + [pieces[0]], xr + [pieces[1]];
      todo := todo - {q2};
    }
    assert keys - todo == keys;
    r := Success((xl, xr));
  }

  /** The body of the outer loop of `exclusions`: the negative contexts of `q1`, or the unpacking error. */
  method ExclusionsFor(keys: set<RuleKey>, q1: RuleKey) returns (r: Result<Excl>)
    ensures r.Failure? <==> exists q2 | q2 in keys :: |Excess(q1, q2)| != 2
    ensures r.Success? ==> r.value == Excl(ExclSide(keys, q1, 0), ExclSide(keys, q1, 1))
  {
    var lists := ExcessLists(keys, q1);
    if lists.Failure? {
      return Failure(UnpackError);
    }
    var l := SortedNonEmpty(lists.value.0);
    var rt := SortedNonEmpty(lists.value.1);
    r := Success(Excl(l, rt));
  }

  /**
   * `exclusions`: for every rule the sorted, duplicate-free lists of the
   * non-empty left and right pieces; the unpacking error when some `excess`
   * yields more than two pieces.
   */
  method Exclusions(w: Rules) returns (r: Result<map<RuleKey, Excl>>)
    ensures r.Failure? <==> !ExcessUnpacks(w.Keys)
    ensures r.Failure? ==> r.error == UnpackError
    ensures r.Success? ==> r.value == ExclusionsOf(w.Keys)
  {
    var exc: map<RuleKey, Excl> := map[];
    var todo := w.Keys;
    while todo != {}
      invariant todo <= w.Keys
      invariant exc.Keys == w.Keys - todo
      invariant forall q | q in exc :: exc[q] == Excl(ExclSide(w.Keys, q, 0), ExclSide(w.Keys, q, 1))
      invariant forall q1, q2 | q1 in w.Keys && q1 !in todo && q2 in w.Keys :: |Excess(q1, q2)| == 2
      decreases todo
    {
      var q1 :| q1 in todo;
      var e := ExclusionsFor(w.Keys, q1);
      if e.Failure? {
        NotUnpacks(w.Keys, q1);
        return Failure(UnpackError);
      }
      exc := exc[q1 := e.value];
      todo := todo - {q1};
    }
    ExclusionsOfIs(exc, w.Keys);
    r := Success(exc);
  }

  lemma NotUnpacks(keys: set<RuleKey>, q1: RuleKey)
    requires q1 in keys && exists q2 | q2 in keys :: |Excess(q1, q2)| != 2
    ensures !ExcessUnpacks(keys)
  {
  }

  lemma ExclusionsOfIs(exc: map<RuleKey, Excl>, keys: set<RuleKey>)
    requires exc.Keys == keys
    requires forall q | q in exc :: exc[q] == Excl(ExclSide(keys, q, 0), ExclSide(keys, q, 1))
    ensures exc == ExclusionsOf(keys)
  {
  }

  /** One side of a rule's negative contexts, as `sorted` makes it. */
  lemma ExclSideShape(keys: set<RuleKey>, q: RuleKey, side: nat, x: string)
    requires side < 2
    ensures StrictlySorted(ExclSide(keys, q, side), StrLess)
    ensures x in ExclSide(keys, q, side) <==> x != "" && exists q2 | q2 in keys :: Excess(q, q2)[side] == x
  {
    StrLessStrictTotal();
    SortedSetSpec(Pieces(keys, q, side) - {""}, StrLess);
  }

  /**
   * Each rule's negative contexts: both lists strictly increasing (sorted,
   * no duplicates), without `''`, and holding exactly the non-empty pieces
   * that `excess` finds on that side.
   */
  lemma ExclusionsShape(keys: set<RuleKey>, q: RuleKey, x: string)
    requires q in keys
    ensures ExclusionsOf(keys).Keys == keys
    ensures StrictlySorted(ExclusionsOf(keys)[q].left, StrLess)
    ensures StrictlySorted(ExclusionsOf(keys)[q].right, StrLess)
    ensures x in ExclusionsOf(keys)[q].left <==> x != "" && exists q2 | q2 in keys :: Excess(q, q2)[0] == x
    ensures x in ExclusionsOf(keys)[q].right <==> x != "" && exists q2 | q2 in keys :: Excess(q, q2)[1] == x
  {
    ExclSideShape(keys, q, 0, x);
    ExclSideShape(keys, q, 1, x);
  }

  // ---------------------------------------------------------------------
  // remove_retentions
  // ---------------------------------------------------------------------

  /** `remove_retentions`: drop the rules whose map is `{s: 0.0}`, i.e. whose only output is the input with share 1. */
  function RemoveRetentions(w: Rules): (r: Rules)
    ensures r.Keys <= w.Keys
    ensures forall k | k in r :: r[k] == w[k]
  {
    map k | k in w && w[k] != map[k.input := 1.0] :: w[k]
  }

  /**
   * On the rules built by `get_weights` and `generalize`, a rule is dropped
   * exactly when its only output is its own input; every other rule is
   * kept with its map.
   */
  lemma RemoveRetentionsDropsIdentities(feats: seq<Feature>, t: int, k: RuleKey)
    requires k in Generalized(Generalized(WeightsOf(feats, t)))
    ensures var g := Generalized(Generalized(WeightsOf(feats, t)));
            k in RemoveRetentions(g) <==> g[k].Keys != {k.input}
  {
    var w := WeightsOf(feats, t);
    GeneralizeOnlyRemoves(w);
    GeneralizeOnlyRemoves(Generalized(w));
    RetentionIsIdentity(feats, t, k);
  }

  // ---------------------------------------------------------------------
  // excl_regex and convert2regex_compressed
  // ---------------------------------------------------------------------

  /** `excl_regex`: any symbol but the listed ones, or nothing for an empty list. */
  function ExclRegex(excl: seq<string>): (r: string)
    ensures r == "" <==> excl == []
    ensures excl != [] ==> |r| >= 8 && r[..6] == "[? - [" && r[|r| - 2..] == "]]"
  {
    if |excl| == 0 then "" else "[? - [" + Join(MapSeq(excl, Esc), "|") + "]]"
  }

  /** `'%s "<.>" [? - "<S>"]*' % s`: a context symbol followed by the rest of its segment. */
  function Arc(s: string): string
  {
    s + ArcTail
  }

  const ArcTail: string := " \"<.>\" [? - \"<S>\"]*"

  /** The escaped left context, after the negative left context when there is one. */
  function LeftParts(k: RuleKey, e: Excl): seq<string>
  {
    (if e.left != [] then [ExclRegex(e.left)] else []) + MapSeq(k.left, Esc)
  }

  /** The escaped right context, followed by the negative right context when there is one. */
  function RightParts(k: RuleKey, e: Excl): seq<string>
  {
    MapSeq(k.right, Esc) + (if e.right != [] then [ExclRegex(e.right)] else [])
  }

  /**
   * The text of one rule. `outText` renders the output map,
   * `' | '.join('%s::%s' % (esc(s), w) ...)`.
   */
  function RuleText(k: RuleKey, m: Outputs, e: Excl, outText: Outputs -> string): string
  {
    Esc(k.input) + Arrow + outText(m) + Bars + LeftText(k, e) + Focus + RightText(k, e)
  }

  /** `' "<S>" '`, or around an insertion a separator that also lets epsilon segments through. */
  function Joiner(k: RuleKey): string
  {
    if Esc(k.input) == Esc(Eps) then EpsSegmentSep else SegmentSep
  }

  /** `cxl.strip()`: the left context up to the rule's input. */
  function LeftText(k: RuleKey, e: Excl): string
  {
    Strip(Join(MapSeq(LeftParts(k, e), Arc), Joiner(k)) + SegmentSep + Esc(k.input) + DotSpace)
  }

  /** `cxr.strip()`: the right context. */
  function RightText(k: RuleKey, e: Excl): string
  {
    Strip(SegmentSep + Join(MapSeq(RightParts(k, e), Arc), Joiner(k)))
  }

  /** The pieces of the rule template. */
  const SegmentSep: string := " \"<S>\" "
  const EpsSegmentSep: string := " [ \"<S>\" \"<E>\" \"<.>\" \"<E>\" \"<S>\" ] "
  const DotSpace: string := " \"<.>\" "
  const Arrow: string := " -> [ "
  const Bars: string := " ] || "
  const Focus: string := " _ "

  /** The rule text of key `k`. */
  function RuleOf(w: Rules, excl: map<RuleKey, Excl>, outText: Outputs -> string): RuleKey -> string
  {
    k => if k in w && k in excl then RuleText(k, w[k], excl[k], outText) else ""
  }

  /** The list `rules` once the rules `ks` have been appended. */
  function RuleTexts(w: Rules, excl: map<RuleKey, Excl>, ks: seq<RuleKey>, outText: Outputs -> string): seq<string>
    requires forall k | k in ks :: k in w && k in excl
  {
    if ks == [] then []
    else
      var k := ks[|ks| - 1];
      RuleTexts(w, excl, ks[..|ks| - 1], outText) + [RuleText(k, w[k], excl[k], outText)]
  }

  lemma {:induction false} RuleTextsMap(w: Rules, excl: map<RuleKey, Excl>, ks: seq<RuleKey>, outText: Outputs -> string)
    requires forall k | k in ks :: k in w && k in excl
    ensures RuleTexts(w, excl, ks, outText) == MapSeq(ks, RuleOf(w, excl, outText))
  {
    if ks != [] {
      var init, k := ks[..|ks| - 1], ks[|ks| - 1];
      assert ks == init + [k];
      var f := RuleOf(w, excl, outText);
      RuleTextsMap(w, excl, init, outText);
      MapSnoc(init, k, f);
      assert f(k) == RuleText(k, w[k], excl[k], outText);
    }
  }

  /** `rules` after `rules.sort()`, the rules having been appended in the order `keys`. */
  function SortedRules(w: Rules, excl: map<RuleKey, Excl>, keys: seq<RuleKey>, outText: Outputs -> string): seq<string>
    requires forall k | k in keys :: k in w && k in excl
  {
    Sort(RuleTexts(w, excl, keys, outText), StrLess)
  }

  /** The end of a rule's last right context, which the final `replace` removes before a `,,`. */
  const Trail: string := "\"<.>\" [? - \"<S>\"]* ,,"

  /** The text that `convert2regex_compressed` returns. */
  function CompressedText(w: Rules, excl: map<RuleKey, Excl>, keys: seq<RuleKey>, outText: Outputs -> string): string
    requires forall k | k in keys :: k in w && k in excl
  {
    ReplaceAll(Join(SortedRules(w, excl, keys, outText), " ,,\n") + " ;", Trail, ",,")
  }

  /** `keys` is an iteration order of the dictionary `w`. */
  predicate IsKeyOrder<V>(keys: seq<RuleKey>, w: map<RuleKey, V>)
  {
    Distinct(keys) && (forall k | k in keys :: k in w) && (forall k | k in w :: k in keys)
  }

  /** The loop of `convert2regex_compressed`: one rule text per rule, in the dictionary order `keys`. */
  method CollectRules(w: Rules, excl: map<RuleKey, Excl>, keys: seq<RuleKey>, outText: Outputs -> string)
    returns (rules: seq<string>)
    requires IsKeyOrder(keys, w) && w.Keys <= excl.Keys
    ensures rules == RuleTexts(w, excl, keys, outText)
  {
    rules := [];
    var i := 0;
    while i < |keys|
      invariant 0 <= i <= |keys|
      invariant rules == RuleTexts(w, excl, keys[..i], outText)
    {
      var k := keys[i];
      RuleTextsSnoc(w, excl, keys, outText, i);
      rules := rules + [RuleText(k, w[k], excl[k], outText)];
      i := i + 1;
    }
    assert keys[..|keys|] == keys;
  }

  /** Appending the rule text of `ks[i]` extends the list of the rules before it. */
  lemma RuleTextsSnoc(w: Rules, excl: map<RuleKey, Excl>, ks: seq<RuleKey>, outText: Outputs -> string, i: nat)
    requires forall k | k in ks :: k in w && k in excl
    requires i < |ks|
    ensures RuleTexts(w, excl, ks[..i + 1], outText)
            == RuleTexts(w, excl, ks[..i], outText) + [RuleText(ks[i], w[ks[i]], excl[ks[i]], outText)]
  {
    assert ks[..i + 1][..i] == ks[..i];
  }

  /**
   * `convert2regex_compressed`: the rule texts, sorted, joined by `' ,,\n'`,
   * terminated by `' ;'`, and trimmed by the final `replace`.
   */
  method ConvertCompressed(w: Rules, excl: map<RuleKey, Excl>, keys: seq<RuleKey>, outText: Outputs -> string)
    returns (regex: string)
    requires IsKeyOrder(keys, w) && w.Keys <= excl.Keys
    ensures regex == CompressedText(w, excl, keys, outText)
  {
    var rules := CollectRules(w, excl, keys, outText);
    rules := Sort(rules, StrLess);
    regex := Join(rules, " ,,\n") + " ;";
    regex := ReplaceAll(regex, Trail, ",,");
  }

  /** The text does not depend on the order in which the dictionary lists its rules. */
  lemma ConvertOrderFree(w: Rules, excl: map<RuleKey, Excl>, keys1: seq<RuleKey>, keys2: seq<RuleKey>, outText: Outputs -> string)
    requires IsKeyOrder(keys1, w) && IsKeyOrder(keys2, w) && w.Keys <= excl.Keys
    ensures CompressedText(w, excl, keys1, outText) == CompressedText(w, excl, keys2, outText)
  {
    RuleTextsMap(w, excl, keys1, outText);
    RuleTextsMap(w, excl, keys2, outText);
    DistinctPermutation(keys1, keys2);
    MapPermutation(keys1, keys2, RuleOf(w, excl, outText));
    StrLessStrictTotal();
    SortPermutationInvariant(MapSeq(keys1, RuleOf(w, excl, outText)), MapSeq(keys2, RuleOf(w, excl, outText)), StrLess);
  }

  lemma {:induction false} RuleTextsAt(w: Rules, excl: map<RuleKey, Excl>, ks: seq<RuleKey>, outText: Outputs -> string, i: int)
    requires forall k | k in ks :: k in w && k in excl
    requires 0 <= i < |ks|
    ensures |RuleTexts(w, excl, ks, outText)| == |ks|
    ensures RuleTexts(w, excl, ks, outText)[i] == RuleText(ks[i], w[ks[i]], excl[ks[i]], outText)
  {
    var init := ks[..|ks| - 1];
    if i < |ks| - 1 {
      assert init[i] == ks[i];
      RuleTextsAt(w, excl, init, outText, i);
    } else if |init| > 0 {
      RuleTextsAt(w, excl, init, outText, 0);
    }
  }

  /** One rule text per rule, in sorted order, each rule's own text among them. */
  lemma ConvertRules(w: Rules, excl: map<RuleKey, Excl>, keys: seq<RuleKey>, outText: Outputs -> string, k: RuleKey)
    requires IsKeyOrder(keys, w) && w.Keys <= excl.Keys
    ensures |SortedRules(w, excl, keys, outText)| == |w|
    ensures Sorted(SortedRules(w, excl, keys, outText), StrLess)
    ensures k in w ==> RuleText(k, w[k], excl[k], outText) in SortedRules(w, excl, keys, outText)
  {
    var rules := RuleTexts(w, excl, keys, outText);
    assert |SortedRules(w, excl, keys, outText)| == |keys| by {
      if |keys| > 0 {
        RuleTextsAt(w, excl, keys, outText, 0);
      }
    }
    assert |keys| == |w| by {
      DistinctCardinality(keys);
      assert (set x | x in keys) == w.Keys;
    }
    StrLessStrictTotal();
    SortSorted(rules, StrLess);
    if k in w {
      var i :| 0 <= i < |keys| && keys[i] == k;
      RuleTextsAt(w, excl, keys, outText, i);
      assert rules[i] in multiset(rules);
    }
  }

  /** The text always ends with the terminator `' ;'`. */
  lemma ConvertTerminated(w: Rules, excl: map<RuleKey, Excl>, keys: seq<RuleKey>, outText: Outputs -> string)
    requires forall k | k in keys :: k in w && k in excl
    ensures var r := CompressedText(w, excl, keys, outText);
            |r| >= 2 && r[|r| - 2..] == " ;"
  {
    var body := Join(SortedRules(w, excl, keys, outText), " ,,\n");
    ReplaceKeepsTail(body, " ;", Trail, ",,");
    EndsWith(ReplaceAll(body, Trail, ",,"), " ;");
  }

  // ---------------------------------------------------------------------
  // get_rules
  // ---------------------------------------------------------------------

  /** The text `get_rules(features, t)` returns, or the error it raises. */
  ghost function RulesOf(feats: seq<Feature>, t: int, outText: Outputs -> string): Result<string>
  {
    var g := Generalized(Generalized(WeightsOf(feats, t)));
    if !ExcessUnpacks(g.Keys) then Failure(UnpackError)
    else
      var kept := RemoveRetentions(g);
      Success(CompressedText(kept, ExclusionsOf(g.Keys), SetToSeq(kept.Keys), outText))
  }

  /**
   * `get_rules`: weights, two `generalize` passes, the negative contexts of
   * the generalized rules, removal of identity rules, and the rule text.
   * The dictionary order of the rules is any order: the text does not
   * depend on it.
   */
  method GetRules(feats: seq<Feature>, t: int, outText: Outputs -> string) returns (r: Result<string>)
    ensures r == RulesOf(feats, t, outText)
  {
    var weights := GetWeights(feats, t);
    weights := Generalize(weights);
    weights := Generalize(weights);
    var excl := Exclusions(weights);
    if excl.Failure? {
      return Failure(excl.error);
    }
    weights := RemoveRetentions(weights);
    var keys := SetToList(weights.Keys);
    var text := ConvertCompressed(weights, excl.value, keys, outText);
    ConvertOrderFree(weights, excl.value, keys, SetToSeq(weights.Keys), outText);
    r := Success(text);
  }

  /** A feature none of whose symbols contains `|`. */
  predicate PipeFreeFeature(f: Feature)
  {
    PipeFree(KeyOf(f))
  }

  /** When no symbol of the features contains `|`, `get_rules` never meets the unpacking error. */
  lemma RulesOfSucceeds(feats: seq<Feature>, t: int, outText: Outputs -> string)
    requires forall f | f in feats :: PipeFreeFeature(f)
    ensures RulesOf(feats, t, outText).Success?
  {
    var w := WeightsOf(feats, t);
    var g := Generalized(Generalized(w));
    GeneralizeOnlyRemoves(w);
    GeneralizeOnlyRemoves(Generalized(w));
    forall q | q in g ensures PipeFree(q) {
      WeightsKeys(feats, t, q);
    }
    forall q1, q2 | q1 in g && q2 in g ensures |Excess(q1, q2)| == 2 {
      ExcessTwoPieces(q1, q2);
    }
  }
}
