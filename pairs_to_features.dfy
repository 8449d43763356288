/**
 * Feature extraction from aligned string pairs (train/pairs2features.py).
 *
 * An alignment is a list of symbol pairs bracketed by padding pairs. It is
 * first normalised: runs of insertions (pairs whose input is epsilon) are
 * collapsed into one multi-symbol insertion, then an epsilon pair is put
 * between every two neighbouring substitutions. Context windows are then
 * slid over it: at every interior position and for every window shape
 * `(1, lenL, lenR)` that fits, one feature `(pair, leftContext, rightContext)`
 * is emitted whose contexts are the nearest non-epsilon input symbols.
 */
module PairsToFeatures {
  import opened Symbols
  import opened Ordering
  import Strings

  // ---------------------------------------------------------------------
  // collapse_insertions
  // ---------------------------------------------------------------------

  /** Both `pairs[i]` and `pairs[i + 1]` are insertions: the loop folds `pairs[i]` into `prev`. */
  predicate Merges(pairs: seq<Pair>, i: nat)
  {
    i + 1 < |pairs| && IsInsertion(pairs[i]) && IsInsertion(pairs[i + 1])
  }

  /** The value of `prev` when the loop reaches index `i`. */
  function Pending(pairs: seq<Pair>, i: nat): string
    requires i < |pairs|
  {
    if i > 0 && Merges(pairs, i - 1) then Pending(pairs, i - 1) + pairs[i - 1].output + " " else ""
  }

  /** The value of `pairs_new` once the loop has handled `pairs[..n]`. */
  function Emitted(pairs: seq<Pair>, n: nat): seq<Pair>
    requires n < |pairs|
  {
    if n == 0 then []
    else if Merges(pairs, n - 1) then Emitted(pairs, n - 1)
    else Emitted(pairs, n - 1) + [Pair(pairs[n - 1].input, Pending(pairs, n - 1) + pairs[n - 1].output)]
  }

  /** The result of `collapse_insertions(pairs)`. */
  function Collapsed(pairs: seq<Pair>): seq<Pair>
    requires |pairs| > 0
  {
    Emitted(pairs, |pairs| - 1) + [pairs[|pairs| - 1]]
  }

  /**
   * `collapse_insertions`: the source indexes `pairs[-1]`, so it needs a
   * non-empty alignment; the last pair is always appended as it is.
   */
  method CollapseInsertions(pairs: seq<Pair>) returns (r: seq<Pair>)
    requires |pairs| > 0
    ensures r == Collapsed(pairs)
    ensures r[|r| - 1] == pairs[|pairs| - 1]
  {
    r := [];
    var prev := "";
    var i := 0;
    while i < |pairs| - 1
      invariant 0 <= i <= |pairs| - 1
      invariant r == Emitted(pairs, i)
      invariant prev == Pending(pairs, i)
    {
      var pIn, pOut := pairs[i].input, pairs[i].output;
      if pIn == Eps && pairs[i + 1].input == Eps {
        prev := prev + pOut + " ";
      } else {
        pOut := prev + pOut;
        r := r + [Pair(pIn, pOut)];
        prev := "";
      }
      i := i + 1;
    }
    r := r + [pairs[|pairs| - 1]];
  }

  /** The number of indices `j < n` at which the loop merges. */
  function MergeCount(pairs: seq<Pair>, n: nat): nat
    requires n < |pairs|
  {
    if n == 0 then 0 else MergeCount(pairs, n - 1) + (if Merges(pairs, n - 1) then 1 else 0)
  }

  lemma {:induction false} EmittedLength(pairs: seq<Pair>, n: nat)
    requires n < |pairs|
    ensures |Emitted(pairs, n)| == n - MergeCount(pairs, n)
  {
    if n > 0 {
      EmittedLength(pairs, n - 1);
    }
  }

  /** One element is dropped for every index whose pair and successor are both insertions. */
  lemma CollapseLength(pairs: seq<Pair>)
    requires |pairs| > 0
    ensures |Collapsed(pairs)| == |pairs| - MergeCount(pairs, |pairs| - 1)
  {
    EmittedLength(pairs, |pairs| - 1);
  }

  /** No two neighbouring pairs are both insertions. */
  predicate NoAdjacentInsertions(s: seq<Pair>)
  {
    forall j :: 0 <= j < |s| - 1 ==> !(IsInsertion(s[j]) && IsInsertion(s[j + 1]))
  }

  lemma {:induction false} EmittedNoAdjacent(pairs: seq<Pair>, n: nat)
    requires n < |pairs|
    ensures NoAdjacentInsertions(Emitted(pairs, n))
    ensures Emitted(pairs, n) != [] && IsInsertion(Emitted(pairs, n)[|Emitted(pairs, n)| - 1])
            ==> !IsInsertion(pairs[n])
  {
    if n > 0 {
      EmittedNoAdjacent(pairs, n - 1);
    }
  }

  /** After collapsing, no two neighbouring pairs are both insertions. */
  lemma CollapseNoAdjacent(pairs: seq<Pair>)
    requires |pairs| > 0
    ensures NoAdjacentInsertions(Collapsed(pairs))
  {
    EmittedNoAdjacent(pairs, |pairs| - 1);
  }

  /** The pairs of `s` whose input is not epsilon, in order. */
  function Substitutions(s: seq<Pair>): (r: seq<Pair>)
    ensures |r| <= |s|
    ensures forall k :: 0 <= k < |r| ==> !IsInsertion(r[k])
  {
    if s == [] then [] else (if IsInsertion(s[0]) then [] else [s[0]]) + Substitutions(s[1..])
  }

  lemma {:induction false} SubstitutionsAppend(a: seq<Pair>, b: seq<Pair>)
    ensures Substitutions(a + b) == Substitutions(a) + Substitutions(b)
  {
    if a != [] {
      assert (a + b)[1..] == a[1..] + b;
      SubstitutionsAppend(a[1..], b);
    } else {
      assert a + b == b;
    }
  }

  lemma {:induction false} EmittedSubstitutions(pairs: seq<Pair>, n: nat)
    requires n < |pairs|
    ensures Substitutions(Emitted(pairs, n)) == Substitutions(pairs[..n])
  {
    if n > 0 {
      EmittedSubstitutions(pairs, n - 1);
      var e, p := Emitted(pairs, n - 1), pairs[n - 1];
      assert pairs[..n] == pairs[..n - 1] + [p];
      SubstitutionsAppend(pairs[..n - 1], [p]);
      if Merges(pairs, n - 1) {
        assert Substitutions([p]) == [];
      } else {
        var x := Pair(p.input, Pending(pairs, n - 1) + p.output);
        SubstitutionsAppend(e, [x]);
        assert !IsInsertion(p) ==> x == p;
        assert Substitutions([x]) == Substitutions([p]);
      }
    }
  }

  /** Collapsing leaves every non-insertion pair as it was, and in the same order. */
  lemma CollapseKeepsSubstitutions(pairs: seq<Pair>)
    requires |pairs| > 0
    ensures Substitutions(Collapsed(pairs)) == Substitutions(pairs)
  {
    var n := |pairs| - 1;
    Strings.SplitLast(pairs);
    EmittedSubstitutions(pairs, n);
    SubstitutionsAppend(Emitted(pairs, n), [pairs[n]]);
    SubstitutionsAppend(pairs[..n], [pairs[n]]);
  }

  /** The outputs of `s`, each followed by one space. */
  function Spaced(s: seq<Pair>): string
  {
    if s == [] then "" else Spaced(s[..|s| - 1]) + s[|s| - 1].output + " "
  }

  lemma SpacedSnoc(s: seq<Pair>, p: Pair)
    ensures Spaced(s + [p]) == Spaced(s) + p.output + " "
  {
    assert (s + [p])[..|s|] == s;
  }

  lemma SpacedUnfold(s: seq<Pair>)
    requires |s| > 0
    ensures Spaced(s) == Spaced(s[..|s| - 1]) + s[|s| - 1].output + " "
  {
  }

  lemma {:induction false} EmittedSpaced(pairs: seq<Pair>, n: nat)
    requires n < |pairs|
    ensures Spaced(Emitted(pairs, n)) + Pending(pairs, n) == Spaced(pairs[..n])
  {
    if n > 0 {
      EmittedSpaced(pairs, n - 1);
      var p := pairs[n - 1];
      assert Spaced(pairs[..n]) == Spaced(pairs[..n - 1]) + p.output + " " by {
        assert pairs[..n] == pairs[..n - 1] + [p];
        SpacedSnoc(pairs[..n - 1], p);
      }
      if Merges(pairs, n - 1) {
        EmittedSpacedMerge(pairs, n);
      } else {
        EmittedSpacedEmit(pairs, n);
      }
    }
  }

  lemma EmittedSpacedMerge(pairs: seq<Pair>, n: nat)
    requires 0 < n < |pairs| && Merges(pairs, n - 1)
    requires Spaced(Emitted(pairs, n - 1)) + Pending(pairs, n - 1) == Spaced(pairs[..n - 1])
    requires Spaced(pairs[..n]) == Spaced(pairs[..n - 1]) + pairs[n - 1].output + " "
    ensures Spaced(Emitted(pairs, n)) + Pending(pairs, n) == Spaced(pairs[..n])
  {
    var se, pend, o := Spaced(Emitted(pairs, n - 1)), Pending(pairs, n - 1), pairs[n - 1].output;
    assert Emitted(pairs, n) == Emitted(pairs, n - 1);
    assert Pending(pairs, n) == (pend + o) + " ";
    Strings.AppendAssoc(se, pend, o);
    Strings.AppendAssoc(se, pend + o, " ");
  }

  lemma EmittedSpacedEmit(pairs: seq<Pair>, n: nat)
    requires 0 < n < |pairs| && !Merges(pairs, n - 1)
    requires Spaced(Emitted(pairs, n - 1)) + Pending(pairs, n - 1) == Spaced(pairs[..n - 1])
    requires Spaced(pairs[..n]) == Spaced(pairs[..n - 1]) + pairs[n - 1].output + " "
    ensures Spaced(Emitted(pairs, n)) + Pending(pairs, n) == Spaced(pairs[..n])
  {
    var e, pend, p := Emitted(pairs, n - 1), Pending(pairs, n - 1), pairs[n - 1];
    var x := Pair(p.input, pend + p.output);
    assert Emitted(pairs, n) == e + [x];
    SpacedSnoc(e, x);
    assert Pending(pairs, n) == "";
    Strings.AppendAssoc(Spaced(e), pend, p.output);
  }

  lemma CollapseSpacedParts(pairs: seq<Pair>)
    requires |pairs| > 0
    ensures Spaced(pairs)
            == (Spaced(Emitted(pairs, |pairs| - 1)) + Pending(pairs, |pairs| - 1)) + pairs[|pairs| - 1].output + " "
    ensures Spaced(Collapsed(pairs)) == Spaced(Emitted(pairs, |pairs| - 1)) + pairs[|pairs| - 1].output + " "
  {
    var n := |pairs| - 1;
    EmittedSpaced(pairs, n);
    SpacedUnfold(pairs);
    SpacedSnoc(Emitted(pairs, n), pairs[n]);
  }

  /**
   * Collapsing loses no output text, the outputs of a run being joined by
   * single spaces, exactly when the alignment does not end in two
   * insertions; when it does, the outputs of that last run but its final
   * one are dropped.
   */
  lemma CollapseLossless(pairs: seq<Pair>)
    requires |pairs| > 0
    ensures Spaced(Collapsed(pairs)) == Spaced(pairs)
            <==> !(|pairs| >= 2 && IsInsertion(pairs[|pairs| - 2]) && IsInsertion(pairs[|pairs| - 1]))
  {
    var n := |pairs| - 1;
    CollapseSpacedParts(pairs);
    var se, pend, o := Spaced(Emitted(pairs, n)), Pending(pairs, n), pairs[n].output;
    if n > 0 && Merges(pairs, n - 1) {
      assert |pend| > 0;
      assert |Spaced(pairs)| == |se| + |pend| + |o| + 1;
    } else {
      assert pend == "";
      assert se + pend == se;
    }
  }

  /** The first index of the run of merged insertions that ends at `i`. */
  function RunStart(pairs: seq<Pair>, i: nat): (j: nat)
    requires i < |pairs|
    ensures j <= i
  {
    if i > 0 && Merges(pairs, i - 1) then RunStart(pairs, i - 1) else i
  }

  /**
   * The text pending at `i` holds the outputs of the insertions from the
   * start of the run up to `i`, each followed by a space; so the pair
   * emitted at the end of a run carries `o1 + ' ' + ... + ' ' + ok`.
   */
  lemma {:induction false} PendingIsRun(pairs: seq<Pair>, i: nat)
    requires i < |pairs|
    ensures Pending(pairs, i) == Spaced(pairs[RunStart(pairs, i)..i])
    ensures forall j :: RunStart(pairs, i) <= j < i ==> Merges(pairs, j)
    ensures RunStart(pairs, i) == 0 || !Merges(pairs, RunStart(pairs, i) - 1)
  {
    if i > 0 && Merges(pairs, i - 1) {
      PendingIsRun(pairs, i - 1);
      var start := RunStart(pairs, i);
      assert start == RunStart(pairs, i - 1);
      var s := pairs[start..i];
      assert s == pairs[start..i - 1] + [pairs[i - 1]];
      SpacedSnoc(pairs[start..i - 1], pairs[i - 1]);
    }
  }

  // ---------------------------------------------------------------------
  // add_epsilons
  // ---------------------------------------------------------------------

  /** Neither `pairs[i]` nor `pairs[i + 1]` is an insertion: an epsilon pair goes between them. */
  predicate NeedsEps(pairs: seq<Pair>, i: nat)
  {
    i + 1 < |pairs| && !IsInsertion(pairs[i]) && !IsInsertion(pairs[i + 1])
  }

  /** The value of `pairs_new` once the loop has handled `pairs[..n]`. */
  function Built(pairs: seq<Pair>, n: nat): seq<Pair>
    requires n < |pairs|
  {
    if n == 0 then [] else Built(pairs, n - 1) + [pairs[n - 1]] + (if NeedsEps(pairs, n - 1) then [EpsPair] else [])
  }

  /** The result of `add_epsilons(pairs)`. */
  function WithEpsilons(pairs: seq<Pair>): seq<Pair>
    requires |pairs| > 0
  {
    Built(pairs, |pairs| - 1) + [pairs[|pairs| - 1]]
  }

  /** `add_epsilons`; like `collapse_insertions` it needs a non-empty alignment. */
  method AddEpsilons(pairs: seq<Pair>) returns (r: seq<Pair>)
    requires |pairs| > 0
    ensures r == WithEpsilons(pairs)
  {
    r := [];
    var i := 0;
    while i < |pairs| - 1
      invariant 0 <= i <= |pairs| - 1
      invariant r == Built(pairs, i)
    {
      r := r + [pairs[i]];
      if pairs[i + 1].input != Eps && pairs[i].input != Eps {
        r := r + [EpsPair];
      }
      i := i + 1;
    }
    r := r + [pairs[|pairs| - 1]];
  }

  /** The number of epsilon pairs inserted before index `i`. */
  function EpsBefore(pairs: seq<Pair>, i: nat): nat
    requires i < |pairs|
  {
    if i == 0 then 0 else EpsBefore(pairs, i - 1) + (if NeedsEps(pairs, i - 1) then 1 else 0)
  }

  /** Where `pairs[i]` lands in the result of `add_epsilons`. */
  function Position(pairs: seq<Pair>, i: nat): nat
    requires i < |pairs|
  {
    i + EpsBefore(pairs, i)
  }

  lemma {:induction false} BuiltLength(pairs: seq<Pair>, n: nat)
    requires n < |pairs|
    ensures |Built(pairs, n)| == Position(pairs, n)
  {
    if n > 0 {
      BuiltLength(pairs, n - 1);
    }
  }

  lemma {:induction false} BuiltAt(pairs: seq<Pair>, n: nat, i: nat)
    requires i < n < |pairs|
    ensures Position(pairs, i) < |Built(pairs, n)| && Built(pairs, n)[Position(pairs, i)] == pairs[i]
    ensures NeedsEps(pairs, i) ==>
              Position(pairs, i) + 1 < |Built(pairs, n)| && Built(pairs, n)[Position(pairs, i) + 1] == EpsPair
  {
    var b := Built(pairs, n - 1);
    var tail := [pairs[n - 1]] + (if NeedsEps(pairs, n - 1) then [EpsPair] else []);
    assert Built(pairs, n) == b + tail;
    if i < n - 1 {
      BuiltAt(pairs, n - 1, i);
    } else {
      BuiltLength(pairs, n - 1);
    }
  }

  /**
   * `add_epsilons` keeps the pairs in order and inserts exactly one epsilon
   * pair between every two neighbouring non-insertions and nowhere else:
   * `pairs[i]` lands at `Position(pairs, i)`, the next pair one place further
   * on, or two places when an epsilon pair was put between them.
   */
  lemma AddEpsilonsShape(pairs: seq<Pair>)
    requires |pairs| > 0
    ensures |WithEpsilons(pairs)| == Position(pairs, |pairs| - 1) + 1
    ensures forall i :: 0 <= i < |pairs| ==>
              Position(pairs, i) < |WithEpsilons(pairs)| && WithEpsilons(pairs)[Position(pairs, i)] == pairs[i]
    ensures forall i :: 0 <= i < |pairs| - 1 ==>
              Position(pairs, i + 1) == Position(pairs, i) + (if NeedsEps(pairs, i) then 2 else 1)
    ensures forall i :: 0 <= i < |pairs| - 1 && NeedsEps(pairs, i) ==>
              Position(pairs, i) + 1 < |WithEpsilons(pairs)| && WithEpsilons(pairs)[Position(pairs, i) + 1] == EpsPair
  {
    var n := |pairs| - 1;
    var b := Built(pairs, n);
    var w := WithEpsilons(pairs);
    assert w == b + [pairs[n]];
    BuiltLength(pairs, n);
    forall i | 0 <= i < |pairs|
      ensures Position(pairs, i) < |w| && w[Position(pairs, i)] == pairs[i]
    {
      if i < n {
        BuiltAt(pairs, n, i);
      }
    }
    forall i | 0 <= i < n && NeedsEps(pairs, i)
      ensures Position(pairs, i) + 1 < |w| && w[Position(pairs, i) + 1] == EpsPair
    {
      BuiltAt(pairs, n, i);
    }
  }

  /** No two neighbouring pairs are both non-insertions. */
  predicate NoAdjacentSubstitutions(s: seq<Pair>)
  {
    forall j :: 0 <= j < |s| - 1 ==> IsInsertion(s[j]) || IsInsertion(s[j + 1])
  }

  lemma {:induction false} BuiltNoAdjacent(pairs: seq<Pair>, n: nat)
    requires n < |pairs|
    ensures NoAdjacentSubstitutions(Built(pairs, n))
    ensures Built(pairs, n) != [] && !IsInsertion(Built(pairs, n)[|Built(pairs, n)| - 1])
            ==> IsInsertion(pairs[n])
  {
    if n > 0 {
      BuiltNoAdjacent(pairs, n - 1);
    }
  }

  /** After `add_epsilons` no two neighbouring pairs are both non-insertions. */
  lemma AddEpsilonsNoAdjacent(pairs: seq<Pair>)
    requires |pairs| > 0
    ensures NoAdjacentSubstitutions(WithEpsilons(pairs))
  {
    BuiltNoAdjacent(pairs, |pairs| - 1);
  }

  // ---------------------------------------------------------------------
  // get_feats
  // ---------------------------------------------------------------------

  /** A window shape `(n, lenL, lenR)`; the substituted segment is always the single pair at the position. */
  datatype Shape = Shape(n: nat, lenL: nat, lenR: nat)

  /** The active entries of the set `feat_specs`; two more shapes are commented out in the source. */
  const FeatSpecs: multiset<Shape> := multiset{Shape(1, 0, 0), Shape(1, 1, 0), Shape(1, 1, 1), Shape(1, 1, 2)}

  /** `order` is one of the orders in which Python may iterate over the set `feat_specs`. */
  predicate IsSpecOrder(order: seq<Shape>)
  {
    multiset(order) == FeatSpecs
  }

  /** Python's `xs[-n:]`, which is the whole of `xs` when `n` is 0. */
  function PyTail<T>(xs: seq<T>, n: nat): seq<T>
    requires n <= |xs|
  {
    if n == 0 then xs else xs[|xs| - n..]
  }

  lemma InputsSlice(xs: seq<Pair>, a: nat, b: nat)
    requires a <= b <= |xs|
    ensures Inputs(xs[a..b]) == Inputs(xs)[a..b]
  {
  }

  /** The feature that window shape `w` yields at position `i` of `get_feats`' loop, if any. */
  function FeatureAt(pairs: seq<Pair>, i: nat, w: Shape): Option<Feature>
    requires i < |pairs|
  {
    var xL, xR := Substitutions(pairs[..i]), Substitutions(pairs[i + 1..]);
    if |xL| >= w.lenL && |xR| >= w.lenR then
      var cxL := Inputs(PyTail(xL, w.lenL));
      var cxR := Inputs(xR[..w.lenR]);
      Some(Feature(pairs[i], if w.lenL == 0 then [] else cxL, if w.lenR == 0 then [] else cxR))
    else
      None
  }

  /**
   * A window shape yields a feature at `i` exactly when there are at least
   * `lenL` non-insertions before `i` and `lenR` after it. The feature's
   * substitution is `pairs[i]`, and its contexts are the input symbols of the
   * `lenL` nearest non-insertions on the left and of the `lenR` nearest on
   * the right, in text order; none of them is epsilon.
   */
  lemma FeatureAtShape(pairs: seq<Pair>, i: nat, w: Shape)
    requires i < |pairs|
    ensures FeatureAt(pairs, i, w).Some?
            <==> w.lenL <= |Substitutions(pairs[..i])| && w.lenR <= |Substitutions(pairs[i + 1..])|
    ensures FeatureAt(pairs, i, w).Some? ==>
              var f, xL := FeatureAt(pairs, i, w).value, Inputs(Substitutions(pairs[..i]));
              && f.sub == pairs[i]
              && |f.left| == w.lenL && |f.right| == w.lenR
              && f.left == xL[|xL| - w.lenL..]
              && f.right == Inputs(Substitutions(pairs[i + 1..]))[..w.lenR]
              && Eps !in f.left && Eps !in f.right
  {
    var xL, xR := Substitutions(pairs[..i]), Substitutions(pairs[i + 1..]);
    if |xL| >= w.lenL && |xR| >= w.lenR {
      LeftContext(xL, w.lenL);
      RightContext(xR, w.lenR);
    }
  }

  /** The left context: the inputs of the last `n` non-insertions, none of them epsilon. */
  lemma LeftContext(xL: seq<Pair>, n: nat)
    requires n <= |xL| && forall k :: 0 <= k < |xL| ==> !IsInsertion(xL[k])
    ensures var c := if n == 0 then [] else Inputs(PyTail(xL, n));
            && |c| == n && c == Inputs(xL)[|xL| - n..] && Eps !in c
  {
    if n > 0 {
      var c := Inputs(xL[|xL| - n..]);
      InputsSlice(xL, |xL| - n, |xL|);
      assert xL[|xL| - n..|xL|] == xL[|xL| - n..];
      forall k | 0 <= k < n ensures c[k] != Eps {
        assert c[k] == xL[|xL| - n + k].input;
      }
    }
  }

  /** The right context: the inputs of the first `n` non-insertions, none of them epsilon. */
  lemma RightContext(xR: seq<Pair>, n: nat)
    requires n <= |xR| && forall k :: 0 <= k < |xR| ==> !IsInsertion(xR[k])
    ensures var c := if n == 0 then [] else Inputs(xR[..n]);
            && |c| == n && c == Inputs(xR)[..n] && Eps !in c
  {
    if n > 0 {
      var c := Inputs(xR[..n]);
      InputsSlice(xR, 0, n);
      assert xR[0..n] == xR[..n];
      forall k | 0 <= k < n ensures c[k] != Eps {
        assert c[k] == xR[k].input;
      }
    }
  }

  function OptSeq<T>(o: Option<T>): seq<T>
  {
    if o.Some? then [o.value] else []
  }

  /** The values `g` yields over `order`, in order, the `None`s skipped. */
  function Collect<A, B>(order: seq<A>, g: A -> Option<B>): (r: seq<B>)
    ensures |r| <= |order|
  {
    if order == [] then [] else Collect(order[..|order| - 1], g) + OptSeq(g(order[|order| - 1]))
  }

  /** What each window shape yields at position `i`. */
  function ShapeFeature(pairs: seq<Pair>, i: nat): Shape -> Option<Feature>
  {
    w => if i < |pairs| then FeatureAt(pairs, i, w) else None
  }

  /** The features of position `i` for the window shapes in `order`, in that order. */
  function FeaturesAt(pairs: seq<Pair>, i: nat, order: seq<Shape>): seq<Feature>
    requires i < |pairs|
  {
    Collect(order, ShapeFeature(pairs, i))
  }

  /** The values `h` gives for the positions `1 .. n - 1`, concatenated in order. */
  function Gather<B>(n: nat, h: nat -> seq<B>): seq<B>
  {
    if n <= 1 then [] else Gather(n - 1, h) + h(n - 1)
  }

  /** The features of each position, in the iteration order `order`. */
  function PositionFeatures(pairs: seq<Pair>, order: seq<Shape>): nat -> seq<Feature>
  {
    (i: nat) => if i < |pairs| then FeaturesAt(pairs, i, order) else []
  }

  /** The features of the positions `1 .. n - 1`. */
  function FeaturesBefore(pairs: seq<Pair>, n: nat, order: seq<Shape>): seq<Feature>
    requires n <= |pairs|
  {
    Gather(n, PositionFeatures(pairs, order))
  }

  lemma FeaturesBeforeStep(pairs: seq<Pair>, n: nat, order: seq<Shape>)
    requires 1 <= n < |pairs|
    ensures FeaturesBefore(pairs, n + 1, order) == FeaturesBefore(pairs, n, order) + FeaturesAt(pairs, n, order)
  {
    assert PositionFeatures(pairs, order)(n) == FeaturesAt(pairs, n, order);
  }

  /** The result of `get_feats(pairs)`: the features of every interior position. */
  function Features(pairs: seq<Pair>, order: seq<Shape>): seq<Feature>
  {
    if |pairs| < 2 then [] else FeaturesBefore(pairs, |pairs| - 1, order)
  }

  /**
   * `get_feats`: for every interior position and every window shape, in the
   * iteration order `order`, append the feature the shape yields there.
   */
  method GetFeats(pairs: seq<Pair>, order: seq<Shape>) returns (feats: seq<Feature>)
    ensures feats == Features(pairs, order)
  {
    feats := [];
    var i := 1;
    while i < |pairs| - 1
      invariant 1 <= i && (|pairs| >= 2 ==> i <= |pairs| - 1)
      invariant |pairs| < 2 ==> feats == []
      invariant |pairs| >= 2 ==> feats == FeaturesBefore(pairs, i, order)
    {
      feats := AppendFeaturesAt(pairs, i, order, feats);
      FeaturesBeforeStep(pairs, i, order);
      i := i + 1;
    }
  }

  /** The inner loop of `get_feats`: append the feature of every window shape at position `i`. */
  method AppendFeaturesAt(pairs: seq<Pair>, i: nat, order: seq<Shape>, before: seq<Feature>) returns (feats: seq<Feature>)
    requires i < |pairs|
    ensures feats == before + FeaturesAt(pairs, i, order)
  {
    feats := AppendCollected(order, ShapeFeature(pairs, i), before);
  }

  /** Append what `g` yields for each element of `order`, in order, the `None`s skipped. */
  method AppendCollected<A, B>(order: seq<A>, g: A -> Option<B>, before: seq<B>) returns (r: seq<B>)
    ensures r == before + Collect(order, g)
  {
    r := before;
    var k := 0;
    while k < |order|
      invariant 0 <= k <= |order|
      invariant r == before + Collect(order[..k], g)
    {
      var y := g(order[k]);
      CollectStep(order, g, k);
      if y.Some? {
        Strings.AppendAssoc(before, Collect(order[..k], g), [y.value]);
        r := r + [y.value];
      }
      k := k + 1;
    }
    assert order[..|order|] == order;
  }

  lemma CollectStep<A, B>(order: seq<A>, g: A -> Option<B>, k: nat)
    requires k < |order|
    ensures Collect(order[..k + 1], g) == Collect(order[..k], g) + OptSeq(g(order[k]))
  {
    assert order[..k + 1][..k] == order[..k];
  }

  /** A value is collected exactly when `g` yields it for some element of `order`. */
  lemma {:induction false} CollectSource<A, B>(order: seq<A>, g: A -> Option<B>, y: B) returns (x: A)
    requires y in Collect(order, g)
    ensures x in order && g(x) == Some(y)
  {
    var init, last := order[..|order| - 1], order[|order| - 1];
    assert Collect(order, g) == Collect(init, g) + OptSeq(g(last));
    if y in Collect(init, g) {
      x := CollectSource(init, g, y);
      assert x in order;
    } else {
      x := last;
    }
  }

  lemma {:induction false} CollectComplete<A, B>(order: seq<A>, g: A -> Option<B>, x: A, y: B)
    requires x in order && g(x) == Some(y)
    ensures y in Collect(order, g)
  {
    var init, last := order[..|order| - 1], order[|order| - 1];
    assert Collect(order, g) == Collect(init, g) + OptSeq(g(last));
    if x != last {
      Strings.SplitLast(order);
      assert x in init;
      CollectComplete(init, g, x, y);
    }
  }

  /** Every feature listed for position `i` is what some shape in `order` yields there. */
  lemma FeaturesAtSource(pairs: seq<Pair>, i: nat, order: seq<Shape>, f: Feature) returns (w: Shape)
    requires i < |pairs| && f in FeaturesAt(pairs, i, order)
    ensures w in order && FeatureAt(pairs, i, w) == Some(f)
  {
    var g := ShapeFeature(pairs, i);
    w := CollectSource(order, g, f);
    assert g(w) == FeatureAt(pairs, i, w);
  }

  /** What a shape in `order` yields at position `i` is listed for position `i`. */
  lemma FeaturesAtComplete(pairs: seq<Pair>, i: nat, order: seq<Shape>, w: Shape, f: Feature)
    requires i < |pairs| && w in order && FeatureAt(pairs, i, w) == Some(f)
    ensures f in FeaturesAt(pairs, i, order)
  {
    var g := ShapeFeature(pairs, i);
    assert g(w) == Some(f);
    CollectComplete(order, g, w, f);
  }

  /**
   * The shape `(1, 0, 0)` fits everywhere, so every interior position yields
   * at least one feature and at most one per active shape, four.
   */
  lemma FeaturesAtCount(pairs: seq<Pair>, i: nat, order: seq<Shape>)
    requires i < |pairs|
    requires IsSpecOrder(order)
    ensures 1 <= |FeaturesAt(pairs, i, order)| <= 4
  {
    assert |order| == |multiset(order)| == 4;
    var w := Shape(1, 0, 0);
    assert w in multiset(order);
    var f := FeatureAt(pairs, i, w).value;
    FeaturesAtComplete(pairs, i, order, w, f);
  }

  /** When each position gives between `lo` and `hi` values, the `n - 1` positions give between `(n - 1) * lo` and `(n - 1) * hi`. */
  lemma {:induction false} GatherCount<B>(n: nat, h: nat -> seq<B>, lo: nat, hi: nat)
    requires forall i :: 0 < i < n ==> lo <= |h(i)| <= hi
    ensures n <= 1 ==> |Gather(n, h)| == 0
    ensures n > 1 ==> (n - 1) * lo <= |Gather(n, h)| <= (n - 1) * hi
  {
    if n > 1 {
      GatherCount(n - 1, h, lo, hi);
      assert |Gather(n, h)| == |Gather(n - 1, h)| + |h(n - 1)|;
      assert (n - 1) * lo == (n - 2) * lo + lo;
      assert (n - 1) * hi == (n - 2) * hi + hi;
    }
  }

  lemma FeaturesBeforeCount(pairs: seq<Pair>, n: nat, order: seq<Shape>)
    requires n <= |pairs|
    requires IsSpecOrder(order)
    ensures n <= 1 ==> |FeaturesBefore(pairs, n, order)| == 0
    ensures n > 1 ==> n - 1 <= |FeaturesBefore(pairs, n, order)| <= 4 * (n - 1)
  {
    var h := PositionFeatures(pairs, order);
    forall i | 0 < i < n ensures 1 <= |h(i)| <= 4 {
      assert h(i) == FeaturesAt(pairs, i, order);
      FeaturesAtCount(pairs, i, order);
    }
    GatherCount(n, h, 1, 4);
  }

  /** `get_feats` yields between one and four features for each of the `|pairs| - 2` interior positions. */
  lemma FeaturesCount(pairs: seq<Pair>, order: seq<Shape>)
    requires IsSpecOrder(order)
    ensures |pairs| <= 2 ==> Features(pairs, order) == []
    ensures |pairs| > 2 ==> |pairs| - 2 <= |Features(pairs, order)| <= 4 * (|pairs| - 2)
  {
    if |pairs| < 2 {
      assert Features(pairs, order) == [];
    } else {
      var n := |pairs| - 1;
      assert Features(pairs, order) == FeaturesBefore(pairs, n, order);
      FeaturesBeforeCount(pairs, n, order);
    }
  }

  lemma SpecOrderMember(order: seq<Shape>, w: Shape)
    requires IsSpecOrder(order)
    ensures w in order <==> w in FeatSpecs
  {
    assert w in order <==> w in multiset(order);
  }

  /** Feature `f` is what shape `w` yields at position `i`. */
  predicate Yields(pairs: seq<Pair>, i: nat, w: Shape, f: Feature)
    requires i < |pairs|
  {
    FeatureAt(pairs, i, w) == Some(f)
  }

  /** Every value gathered before position `n` comes from some position in `1 .. n - 1`. */
  lemma {:induction false} GatherSource<B>(n: nat, h: nat -> seq<B>, y: B) returns (i: nat)
    requires y in Gather(n, h)
    ensures 0 < i < n && y in h(i)
  {
    if n <= 1 {
      assert false;
    }
    if y in Gather(n - 1, h) {
      i := GatherSource(n - 1, h, y);
    } else {
      i := n - 1;
    }
  }

  /** What a position in `1 .. n - 1` gives is gathered before position `n`. */
  lemma {:induction false} GatherComplete<B>(n: nat, h: nat -> seq<B>, i: nat, y: B)
    requires 0 < i < n && y in h(i)
    ensures y in Gather(n, h)
  {
    assert Gather(n, h) == Gather(n - 1, h) + h(n - 1);
    if i < n - 1 {
      GatherComplete(n - 1, h, i, y);
    }
  }

  /**
   * A feature is extracted exactly when it is the feature of some active
   * window shape at some interior position `0 < i < |pairs| - 1`; so its
   * substitution is that position's pair, never a padding end.
   */
  lemma FeaturesMember(pairs: seq<Pair>, order: seq<Shape>, f: Feature)
    requires IsSpecOrder(order)
    ensures f in Features(pairs, order)
            <==> exists i, w :: 0 < i < |pairs| - 1 && w in FeatSpecs && Yields(pairs, i, w, f)
  {
    if f in Features(pairs, order) {
      var i, w := FeaturesSource(pairs, order, f);
    }
    if exists i, w :: 0 < i < |pairs| - 1 && w in FeatSpecs && Yields(pairs, i, w, f) {
      var i, w :| 0 < i < |pairs| - 1 && w in FeatSpecs && Yields(pairs, i, w, f);
      FeaturesComplete(pairs, order, i, w, f);
    }
  }

  lemma FeaturesSource(pairs: seq<Pair>, order: seq<Shape>, f: Feature) returns (i: nat, w: Shape)
    requires IsSpecOrder(order) && f in Features(pairs, order)
    ensures 0 < i < |pairs| - 1 && w in FeatSpecs && Yields(pairs, i, w, f)
  {
    i := FeaturesPosition(pairs, order, f);
    w := FeaturesAtSource(pairs, i, order, f);
    SpecOrderMember(order, w);
  }

  lemma FeaturesComplete(pairs: seq<Pair>, order: seq<Shape>, i: nat, w: Shape, f: Feature)
    requires IsSpecOrder(order)
    requires 0 < i < |pairs| - 1 && w in FeatSpecs && Yields(pairs, i, w, f)
    ensures f in Features(pairs, order)
  {
    SpecOrderMember(order, w);
    FeaturesAtComplete(pairs, i, order, w, f);
    FeaturesOfPosition(pairs, order, i, f);
  }

  /** Every extracted feature is listed for some interior position. */
  lemma FeaturesPosition(pairs: seq<Pair>, order: seq<Shape>, f: Feature) returns (i: nat)
    requires f in Features(pairs, order)
    ensures 0 < i < |pairs| - 1 && f in FeaturesAt(pairs, i, order)
  {
    var h := PositionFeatures(pairs, order);
    assert |pairs| >= 2;
    assert Features(pairs, order) == Gather(|pairs| - 1, h);
    i := GatherSource(|pairs| - 1, h, f);
    assert h(i) == FeaturesAt(pairs, i, order);
  }

  /** What is listed for an interior position is extracted. */
  lemma FeaturesOfPosition(pairs: seq<Pair>, order: seq<Shape>, i: nat, f: Feature)
    requires 0 < i < |pairs| - 1 && f in FeaturesAt(pairs, i, order)
    ensures f in Features(pairs, order)
  {
    var h := PositionFeatures(pairs, order);
    assert Features(pairs, order) == Gather(|pairs| - 1, h);
    assert h(i) == FeaturesAt(pairs, i, order);
    GatherComplete(|pairs| - 1, h, i, f);
  }

  lemma {:induction false} CollectAppend<A, B>(a: seq<A>, b: seq<A>, g: A -> Option<B>)
    ensures Collect(a + b, g) == Collect(a, g) + Collect(b, g)
    decreases |b|
  {
    if b == [] {
      assert a + b == a;
    } else {
      assert (a + b)[..|a + b| - 1] == a + b[..|b| - 1];
      CollectAppend(a, b[..|b| - 1], g);
    }
  }

  lemma CollectCons<A, B>(a: seq<A>, g: A -> Option<B>)
    requires |a| > 0
    ensures multiset(Collect(a, g)) == multiset(OptSeq(g(a[0]))) + multiset(Collect(a[1..], g))
  {
    assert a == [a[0]] + a[1..];
    CollectAppend([a[0]], a[1..], g);
    assert [a[0]][..0] == [];
  }

  lemma CollectAround<A, B>(b: seq<A>, j: int, g: A -> Option<B>)
    requires 0 <= j < |b|
    ensures multiset(Collect(b, g)) == multiset(Collect(b[..j] + b[j + 1..], g)) + multiset(OptSeq(g(b[j])))
  {
    var u, x, v := b[..j], b[j], b[j + 1..];
    Strings.SplitAt(b, j);
    CollectAppend(u + [x], v, g);
    CollectAppend(u, [x], g);
    CollectAppend(u, v, g);
    assert [x][..0] == [];
    var cu, cx, cv := Collect(u, g), OptSeq(g(x)), Collect(v, g);
    assert Collect(b, g) == cu + cx + cv;
    assert multiset(Collect(b, g)) == multiset(cu) + multiset(cx) + multiset(cv);
    assert multiset(Collect(u + v, g)) == multiset(cu) + multiset(cv);
  }

  /** What is collected does not depend on the order of `order`, only on its multiset. */
  lemma {:induction false} CollectPermutation<A, B>(a: seq<A>, b: seq<A>, g: A -> Option<B>)
    requires multiset(a) == multiset(b)
    ensures multiset(Collect(a, g)) == multiset(Collect(b, g))
    decreases |a|
  {
    if a == [] {
      assert |b| == |multiset(b)| == 0;
    } else {
      var j := PermutationIndex(a, b);
      RestPermutation(a, b, j);
      CollectPermutation(a[1..], b[..j] + b[j + 1..], g);
      CollectAround(b, j, g);
      CollectCons(a, g);
    }
  }

  /** The features of a position do not depend on the order of the shapes, only on their multiset. */
  lemma FeaturesAtPermutation(pairs: seq<Pair>, i: nat, a: seq<Shape>, b: seq<Shape>)
    requires i < |pairs|
    requires multiset(a) == multiset(b)
    ensures multiset(FeaturesAt(pairs, i, a)) == multiset(FeaturesAt(pairs, i, b))
  {
    CollectPermutation(a, b, ShapeFeature(pairs, i));
  }

  /** Gathering from position functions that agree up to order agrees up to order. */
  lemma {:induction false} GatherPermutation<B>(n: nat, h1: nat -> seq<B>, h2: nat -> seq<B>)
    requires forall i :: 0 < i < n ==> multiset(h1(i)) == multiset(h2(i))
    ensures multiset(Gather(n, h1)) == multiset(Gather(n, h2))
  {
    if n > 1 {
      GatherPermutation(n - 1, h1, h2);
      assert Gather(n, h1) == Gather(n - 1, h1) + h1(n - 1);
      assert Gather(n, h2) == Gather(n - 1, h2) + h2(n - 1);
    }
  }

  // ---------------------------------------------------------------------
  // get_features
  // ---------------------------------------------------------------------

  /** Python's order on feature tuples `((s1, s2), cl, cr)`, written as a sequence of string tuples. */
  function FeatureKey(f: Feature): seq<seq<string>>
  {
    [[f.sub.input, f.sub.output], f.left, f.right]
  }

  predicate FeatureLess(a: Feature, b: Feature)
  {
    LexLess(FeatureKey(a), FeatureKey(b), StrTupleLess)
  }

  /** Python's order on feature tuples is a strict total order, so `sort` has one possible result. */
  lemma FeatureLessStrictTotal()
    ensures StrictTotalOrder(FeatureLess)
  {
    StrTupleLessStrictTotal();
    forall a: Feature ensures !FeatureLess(a, a) {
      LexIrreflexive(FeatureKey(a), StrTupleLess);
    }
    forall a: Feature, b: Feature, c: Feature | FeatureLess(a, b) && FeatureLess(b, c)
      ensures FeatureLess(a, c)
    {
      LexTransitive(FeatureKey(a), FeatureKey(b), FeatureKey(c), StrTupleLess);
    }
    forall a: Feature, b: Feature | a != b ensures FeatureLess(a, b) || FeatureLess(b, a) {
      var ka, kb := FeatureKey(a), FeatureKey(b);
      assert a == Feature(Pair(ka[0][0], ka[0][1]), ka[1], ka[2]);
      assert b == Feature(Pair(kb[0][0], kb[0][1]), kb[1], kb[2]);
      LexConnected(ka, kb, StrTupleLess);
    }
  }

  /** The normalisation `add_epsilons(collapse_insertions(pairs))`. */
  function Normalised(pairs: seq<Pair>): seq<Pair>
    requires |pairs| > 0
  {
    WithEpsilons(Collapsed(pairs))
  }

  /** Every alignment of the list is non-empty, as the normalisation needs. */
  predicate AllNonEmpty(plist: seq<seq<Pair>>)
  {
    forall k :: 0 <= k < |plist| ==> |plist[k]| > 0
  }

  /** The features of every alignment of `plist`, concatenated in list order, before sorting. */
  function Extracted(plist: seq<seq<Pair>>, order: seq<Shape>): seq<Feature>
    requires AllNonEmpty(plist)
  {
    if plist == [] then []
    else Extracted(plist[..|plist| - 1], order) + Features(Normalised(plist[|plist| - 1]), order)
  }

  /**
   * `get_features`: normalise each alignment, extract its features, and sort
   * them all. The result is sorted and holds exactly the extracted features.
   */
  method GetFeatures(plist: seq<seq<Pair>>, order: seq<Shape>) returns (feats: seq<Feature>)
    requires AllNonEmpty(plist)
    ensures feats == Sort(Extracted(plist, order), FeatureLess)
    ensures Sorted(feats, FeatureLess)
    ensures multiset(feats) == multiset(Extracted(plist, order))
  {
    feats := [];
    var k := 0;
    while k < |plist|
      invariant 0 <= k <= |plist|
      invariant feats == Extracted(plist[..k], order)
    {
      var pairs := CollapseInsertions(plist[k]);
      pairs := AddEpsilons(pairs);
      var fs := GetFeats(pairs, order);
      assert plist[..k + 1][..k] == plist[..k];
      feats := feats + fs;
      k := k + 1;
    }
    assert plist[..|plist|] == plist;
    feats := Sort(feats, FeatureLess);
    FeatureLessStrictTotal();
    TotalIsWeak(FeatureLess);
    SortSorted(Extracted(plist, order), FeatureLess);
  }

  /** The features of an alignment do not depend on the order of the shapes, only on their multiset. */
  lemma FeaturesPermutation(pairs: seq<Pair>, a: seq<Shape>, b: seq<Shape>)
    requires multiset(a) == multiset(b)
    ensures multiset(Features(pairs, a)) == multiset(Features(pairs, b))
  {
    if |pairs| >= 2 {
      var n, ha, hb := |pairs| - 1, PositionFeatures(pairs, a), PositionFeatures(pairs, b);
      assert Features(pairs, a) == Gather(n, ha);
      assert Features(pairs, b) == Gather(n, hb);
      forall i | 0 < i < n ensures multiset(ha(i)) == multiset(hb(i)) {
        assert ha(i) == FeaturesAt(pairs, i, a);
        assert hb(i) == FeaturesAt(pairs, i, b);
        FeaturesAtPermutation(pairs, i, a, b);
      }
      GatherPermutation(n, ha, hb);
    }
  }

  lemma {:induction false} ExtractedPermutation(plist: seq<seq<Pair>>, a: seq<Shape>, b: seq<Shape>)
    requires AllNonEmpty(plist)
    requires multiset(a) == multiset(b)
    ensures multiset(Extracted(plist, a)) == multiset(Extracted(plist, b))
  {
    if plist != [] {
      var init, pairs := plist[..|plist| - 1], Normalised(plist[|plist| - 1]);
      assert Extracted(plist, a) == Extracted(init, a) + Features(pairs, a);
      assert Extracted(plist, b) == Extracted(init, b) + Features(pairs, b);
      ExtractedPermutation(init, a, b);
      FeaturesPermutation(pairs, a, b);
    }
  }

  /** The result of `get_features` does not depend on the order Python iterates over `feat_specs`. */
  lemma GetFeaturesOrderFree(plist: seq<seq<Pair>>, a: seq<Shape>, b: seq<Shape>)
    requires AllNonEmpty(plist)
    requires IsSpecOrder(a) && IsSpecOrder(b)
    ensures Sort(Extracted(plist, a), FeatureLess) == Sort(Extracted(plist, b), FeatureLess)
  {
    ExtractedPermutation(plist, a, b);
    FeatureLessStrictTotal();
    SortPermutationInvariant(Extracted(plist, a), Extracted(plist, b), FeatureLess);
  }
}
