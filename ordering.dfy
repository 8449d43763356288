/**
 * Python's ordering of strings and tuples, and its `sorted` / `list.sort`.
 *
 * Python compares strings code point by code point and tuples element by
 * element, a proper prefix coming first. `LexLess` is that comparison for any
 * element order. The sort is an insertion sort; `SortedUnique` shows that for
 * a strict total order every sorting algorithm (Python's Timsort included)
 * yields the same list, so the choice of algorithm does not matter.
 */
module Ordering {
  import opened Symbols
  import Strings

  /** `lt` is a strict total order: irreflexive, transitive and connected. */
  ghost predicate StrictTotalOrder<T(!new)>(lt: (T, T) -> bool)
  {
    && (forall x :: !lt(x, x))
    && (forall x, y, z :: lt(x, y) && lt(y, z) ==> lt(x, z))
    && (forall x, y :: x != y ==> lt(x, y) || lt(y, x))
  }

  /**
   * `lt` is a strict weak order, the kind of order a sort by key uses:
   * irreflexive and transitive, and so is "not smaller than".
   */
  ghost predicate StrictWeakOrder<T(!new)>(lt: (T, T) -> bool)
  {
    && (forall x :: !lt(x, x))
    && (forall x, y, z :: lt(x, y) && lt(y, z) ==> lt(x, z))
    && (forall x, y, z :: !lt(x, y) && !lt(y, z) ==> !lt(x, z))
  }

  lemma TotalIsWeak<T(!new)>(lt: (T, T) -> bool)
    requires StrictTotalOrder(lt)
    ensures StrictWeakOrder(lt)
  {
    forall x, y, z | !lt(x, y) && !lt(y, z) ensures !lt(x, z) {
      if x != y {
        assert lt(y, x);
      }
    }
  }

  predicate CharLess(a: char, b: char)
  {
    a < b
  }

  /** Lexicographic comparison of two sequences; a proper prefix comes first. */
  predicate LexLess<T(==)>(a: seq<T>, b: seq<T>, lt: (T, T) -> bool)
  {
    if |a| == 0 then |b| > 0
    else if |b| == 0 then false
    else if a[0] == b[0] then LexLess(a[1..], b[1..], lt)
    else lt(a[0], b[0])
  }

  /** Python's `a < b` on strings. */
  predicate StrLess(a: string, b: string)
  {
    LexLess(a, b, CharLess)
  }

  /** Python's `a < b` on tuples of strings. */
  predicate StrTupleLess(a: seq<string>, b: seq<string>)
  {
    LexLess(a, b, StrLess)
  }

  lemma {:induction false} LexIrreflexive<T(!new)>(a: seq<T>, lt: (T, T) -> bool)
    requires StrictTotalOrder(lt)
    ensures !LexLess(a, a, lt)
  {
    if |a| > 0 {
      LexIrreflexive(a[1..], lt);
    }
  }

  lemma {:induction false} LexTransitive<T(!new)>(a: seq<T>, b: seq<T>, c: seq<T>, lt: (T, T) -> bool)
    requires StrictTotalOrder(lt)
    requires LexLess(a, b, lt) && LexLess(b, c, lt)
    ensures LexLess(a, c, lt)
  {
    if |a| > 0 && |b| > 0 && |c| > 0 {
      if a[0] == b[0] && b[0] == c[0] {
        LexTransitive(a[1..], b[1..], c[1..], lt);
      }
    }
  }

  lemma {:induction false} LexConnected<T(!new)>(a: seq<T>, b: seq<T>, lt: (T, T) -> bool)
    requires StrictTotalOrder(lt)
    requires a != b
    ensures LexLess(a, b, lt) || LexLess(b, a, lt)
  {
    if |a| > 0 && |b| > 0 && a[0] == b[0] {
      assert a == [a[0]] + a[1..] && b == [b[0]] + b[1..];
      LexConnected(a[1..], b[1..], lt);
    }
  }

  lemma StrLessStrictTotal()
    ensures StrictTotalOrder(StrLess)
    ensures StrictWeakOrder(StrLess)
  {
    forall a: string ensures !StrLess(a, a) {
      LexIrreflexive(a, CharLess);
    }
    forall a: string, b: string, c: string | StrLess(a, b) && StrLess(b, c) ensures StrLess(a, c) {
      LexTransitive(a, b, c, CharLess);
    }
    forall a: string, b: string | a != b ensures StrLess(a, b) || StrLess(b, a) {
      LexConnected(a, b, CharLess);
    }
    TotalIsWeak(StrLess);
  }

  lemma StrTupleLessStrictTotal()
    ensures StrictTotalOrder(StrTupleLess)
    ensures StrictWeakOrder(StrTupleLess)
  {
    StrLessStrictTotal();
    forall a: seq<string> ensures !StrTupleLess(a, a) {
      LexIrreflexive(a, StrLess);
    }
    forall a: seq<string>, b: seq<string>, c: seq<string> | StrTupleLess(a, b) && StrTupleLess(b, c)
      ensures StrTupleLess(a, c)
    {
      LexTransitive(a, b, c, StrLess);
    }
    forall a: seq<string>, b: seq<string> | a != b ensures StrTupleLess(a, b) || StrTupleLess(b, a) {
      LexConnected(a, b, StrLess);
    }
    TotalIsWeak(StrTupleLess);
  }

  /** No element is smaller than an element before it. */
  predicate Sorted<T>(s: seq<T>, lt: (T, T) -> bool)
  {
    forall i, j :: 0 <= i < j < |s| ==> !lt(s[j], s[i])
  }

  /** Every element is smaller than the elements after it. */
  predicate StrictlySorted<T>(s: seq<T>, lt: (T, T) -> bool)
  {
    forall i, j :: 0 <= i < j < |s| ==> lt(s[i], s[j])
  }

  function Insert<T>(x: T, s: seq<T>, lt: (T, T) -> bool): (r: seq<T>)
    ensures multiset(r) == multiset(s) + multiset{x}
    ensures |r| == |s| + 1
  {
    if s == [] then [x]
    else if lt(s[0], x) then
      assert s == [s[0]] + s[1..];
      [s[0]] + Insert(x, s[1..], lt)
    else [x] + s
  }

  /** `sorted(s)` / `s.sort()`. */
  function Sort<T>(s: seq<T>, lt: (T, T) -> bool): (r: seq<T>)
    ensures multiset(r) == multiset(s)
    ensures |r| == |s|
  {
    if s == [] then []
    else
      assert s == [s[0]] + s[1..];
      Insert(s[0], Sort(s[1..], lt), lt)
  }

  lemma SortedCons<T>(h: T, t: seq<T>, lt: (T, T) -> bool)
    requires Sorted(t, lt)
    requires forall e | e in t :: !lt(e, h)
    ensures Sorted([h] + t, lt)
  {
    var s := [h] + t;
    forall i, j | 0 <= i < j < |s| ensures !lt(s[j], s[i]) {
      assert s[j] == t[j - 1];
      if i > 0 {
        assert s[i] == t[i - 1];
      }
    }
  }

  lemma {:induction false} InsertSorted<T(!new)>(x: T, s: seq<T>, lt: (T, T) -> bool)
    requires StrictWeakOrder(lt)
    requires Sorted(s, lt)
    ensures Sorted(Insert(x, s, lt), lt)
  {
    if s == [] {
    } else if lt(s[0], x) {
      var t := Insert(x, s[1..], lt);
      InsertSorted(x, s[1..], lt);
      forall e | e in t ensures !lt(e, s[0]) {
        assert e in multiset(t);
        if e != x {
          assert e in multiset(s[1..]);
          var j :| 0 <= j < |s[1..]| && s[1..][j] == e;
          assert s[j + 1] == e;
        }
      }
      SortedCons(s[0], t, lt);
    } else {
      forall e | e in s ensures !lt(e, x) {
        var j :| 0 <= j < |s| && s[j] == e;
        assert !lt(s[j], s[0]);
      }
      SortedCons(x, s, lt);
    }
  }

  /** The sort yields a sorted list. */
  lemma {:induction false} SortSorted<T(!new)>(s: seq<T>, lt: (T, T) -> bool)
    requires StrictWeakOrder(lt)
    ensures Sorted(Sort(s, lt), lt)
  {
    if s != [] {
      SortSorted(s[1..], lt);
      InsertSorted(s[0], Sort(s[1..], lt), lt);
    }
  }

  lemma SortedTail<T>(s: seq<T>, lt: (T, T) -> bool)
    requires Sorted(s, lt) && |s| > 0
    ensures Sorted(s[1..], lt)
  {
    forall i, j | 0 <= i < j < |s| - 1 ensures !lt(s[1..][j], s[1..][i]) {
      assert s[1..][j] == s[j + 1] && s[1..][i] == s[i + 1];
    }
  }

  lemma SortedHeadLeast<T>(s: seq<T>, e: T, lt: (T, T) -> bool)
    requires Sorted(s, lt) && |s| > 0
    requires !lt(s[0], s[0])
    requires e in multiset(s)
    ensures !lt(e, s[0])
  {
    var j :| 0 <= j < |s| && s[j] == e;
    if j > 0 {
      assert !lt(s[j], s[0]);
    }
  }

  lemma TailsSameElements<T>(a: seq<T>, b: seq<T>)
    requires |a| > 0 && |b| > 0 && a[0] == b[0]
    requires multiset(a) == multiset(b)
    ensures multiset(a[1..]) == multiset(b[1..])
  {
    assert a == [a[0]] + a[1..] && b == [b[0]] + b[1..];
    assert multiset(a[1..]) == multiset(a) - multiset{a[0]};
    assert multiset(b[1..]) == multiset(b) - multiset{b[0]};
  }

  /** Two sorted lists with the same elements are equal. */
  lemma {:induction false} SortedUnique<T(!new)>(a: seq<T>, b: seq<T>, lt: (T, T) -> bool)
    requires StrictTotalOrder(lt)
    requires Sorted(a, lt) && Sorted(b, lt)
    requires multiset(a) == multiset(b)
    ensures a == b
  {
    if a == [] {
      assert |b| == |multiset(b)| == 0;
    } else {
      assert |b| == |multiset(b)| == |a| > 0;
      SortedHeadLeast(a, b[0], lt);
      SortedHeadLeast(b, a[0], lt);
      assert a[0] == b[0];
      TailsSameElements(a, b);
      SortedTail(a, lt);
      SortedTail(b, lt);
      SortedUnique(a[1..], b[1..], lt);
      assert a == [a[0]] + a[1..] && b == [b[0]] + b[1..];
    }
  }

  /** Sorting two arrangements of the same elements gives the same list. */
  lemma SortPermutationInvariant<T(!new)>(a: seq<T>, b: seq<T>, lt: (T, T) -> bool)
    requires StrictTotalOrder(lt)
    requires multiset(a) == multiset(b)
    ensures Sort(a, lt) == Sort(b, lt)
  {
    TotalIsWeak(lt);
    SortSorted(a, lt);
    SortSorted(b, lt);
    SortedUnique(Sort(a, lt), Sort(b, lt), lt);
  }

  /** A sorted list without repetitions is strictly sorted. */
  lemma SortedDistinctStrict<T(!new)>(s: seq<T>, lt: (T, T) -> bool)
    requires StrictTotalOrder(lt)
    requires Sorted(s, lt)
    requires Distinct(s)
    ensures StrictlySorted(s, lt)
  {
    forall i, j | 0 <= i < j < |s| ensures lt(s[i], s[j]) {
      assert !lt(s[j], s[i]);
    }
  }

  /** The elements of a set, listed in some order: `list(S)`. */
  ghost function SetToSeq<T(!new)>(S: set<T>): (r: seq<T>)
    ensures Distinct(r)
    ensures forall x :: x in r <==> x in S
  {
    if S == {} then []
    else
      var x :| x in S;
      var t := SetToSeq(S - {x});
      assert forall j :: 0 <= j < |t| ==> ([x] + t)[j + 1] == t[j];
      [x] + t
  }

  /** `sorted(S)` for a set `S`. */
  ghost function SortedSet<T(!new)>(S: set<T>, lt: (T, T) -> bool): seq<T>
  {
    Sort(SetToSeq(S), lt)
  }

  /** In a list without repetitions every element occurs once. */
  lemma {:induction false} DistinctCount<T>(s: seq<T>, x: T)
    requires Distinct(s)
    ensures multiset(s)[x] == if x in s then 1 else 0
  {
    if s != [] {
      var init := s[..|s| - 1];
      assert s == init + [s[|s| - 1]];
      DistinctCount(init, x);
      assert multiset(s) == multiset(init) + multiset{s[|s| - 1]};
    }
  }

  /** An element that occurs twice is counted at least twice. */
  lemma RepeatCount<T>(s: seq<T>, i: int, j: int)
    requires 0 <= i < j < |s| && s[i] == s[j]
    ensures multiset(s)[s[i]] >= 2
  {
    assert s == s[..i] + [s[i]] + s[i + 1..j] + [s[j]] + s[j + 1..];
  }

  /** Two lists without repetitions and with the same elements are permutations of each other. */
  lemma DistinctPermutation<T>(a: seq<T>, b: seq<T>)
    requires Distinct(a) && Distinct(b)
    requires forall x :: x in a <==> x in b
    ensures multiset(a) == multiset(b)
  {
    forall x ensures multiset(a)[x] == multiset(b)[x] {
      DistinctCount(a, x);
      DistinctCount(b, x);
    }
  }

  /** A permutation of a list without repetitions has none either. */
  lemma PermutationDistinct<T>(a: seq<T>, b: seq<T>)
    requires Distinct(b) && multiset(a) == multiset(b)
    ensures Distinct(a)
  {
    forall i, j | 0 <= i < j < |a| ensures a[i] != a[j] {
      if a[i] == a[j] {
        RepeatCount(a, i, j);
        DistinctCount(b, a[i]);
      }
    }
  }

  /**
   * `sorted(S)` lists each element of `S` once, in strictly increasing
   * order, and it is the only such list.
   */
  lemma SortedSetSpec<T(!new)>(S: set<T>, lt: (T, T) -> bool)
    requires StrictTotalOrder(lt)
    ensures StrictlySorted(SortedSet(S, lt), lt)
    ensures forall x :: x in SortedSet(S, lt) <==> x in S
  {
    var r := SortedSet(S, lt);
    TotalIsWeak(lt);
    SortSorted(SetToSeq(S), lt);
    PermutationDistinct(r, SetToSeq(S));
    SortedDistinctStrict(r, lt);
    forall x ensures x in r <==> x in S {
      assert x in r <==> x in multiset(r);
      assert x in SetToSeq(S) <==> x in multiset(SetToSeq(S));
    }
  }

  /** Sorting any list of the elements of `S`, each listed once, gives `sorted(S)`. */
  lemma SortOfSetList<T(!new)>(l: seq<T>, S: set<T>, lt: (T, T) -> bool)
    requires StrictTotalOrder(lt)
    requires Distinct(l) && forall x :: x in l <==> x in S
    ensures Sort(l, lt) == SortedSet(S, lt)
  {
    DistinctPermutation(l, SetToSeq(S));
    SortPermutationInvariant(l, SetToSeq(S), lt);
  }

  /** `[f(x) for x in s]`. */
  function MapSeq<A, B>(s: seq<A>, f: A -> B): (r: seq<B>)
    ensures |r| == |s|
  {
    if s == [] then [] else [f(s[0])] + MapSeq(s[1..], f)
  }

  /** `{f(x) for x in s}`. */
  function Image<A(==), B>(s: seq<A>, f: A -> B): set<B>
  {
    set x | x in s :: f(x)
  }

  lemma ImageSnoc<A, B>(s: seq<A>, i: int, f: A -> B)
    requires 0 <= i < |s|
    ensures Image(s[..i + 1], f) == Image(s[..i], f) + {f(s[i])}
  {
    assert s[..i + 1] == s[..i] + [s[i]];
  }

  lemma {:induction false} MapAt<A, B>(s: seq<A>, f: A -> B, i: int)
    requires 0 <= i < |s|
    ensures MapSeq(s, f)[i] == f(s[i])
  {
    if i > 0 {
      MapAt(s[1..], f, i - 1);
    }
  }

  lemma {:induction false} MapAppend<A, B>(x: seq<A>, y: seq<A>, f: A -> B)
    ensures MapSeq(x + y, f) == MapSeq(x, f) + MapSeq(y, f)
  {
    if x != [] {
      assert (x + y)[1..] == x[1..] + y;
      MapAppend(x[1..], y, f);
    } else {
      assert x + y == y;
    }
  }

  lemma MapSnoc<A, B>(s: seq<A>, x: A, f: A -> B)
    ensures MapSeq(s + [x], f) == MapSeq(s, f) + [f(x)]
  {
    MapAppend(s, [x], f);
    assert MapSeq([x], f) == [f(x)] by {
      assert [x][1..] == [];
    }
  }

  lemma RemoveAtCount<T>(b: seq<T>, j: int)
    requires 0 <= j < |b|
    ensures multiset(b) == multiset(b[..j] + b[j + 1..]) + multiset{b[j]}
  {
    var pre, post := b[..j], b[j + 1..];
    Strings.SplitAt(b, j);
    assert multiset(b) == multiset(pre) + multiset{b[j]} + multiset(post);
  }

  lemma MapAround<A, B>(b: seq<A>, j: int, f: A -> B)
    requires 0 <= j < |b|
    ensures multiset(MapSeq(b, f)) == multiset(MapSeq(b[..j] + b[j + 1..], f)) + multiset{f(b[j])}
  {
    var pre, x, post := b[..j], b[j], b[j + 1..];
    Strings.SplitAt(b, j);
    Strings.AppendAssoc(pre, [x], post);
    MapAppend(pre, [x] + post, f);
    MapAppend([x], post, f);
    MapAppend(pre, post, f);
    assert MapSeq([x], f) == [f(x)] by {
      assert [x][1..] == [];
    }
    var mp, mq := MapSeq(pre, f), MapSeq(post, f);
    assert MapSeq(b, f) == mp + ([f(x)] + mq);
    assert multiset(MapSeq(b, f)) == multiset(mp) + multiset{f(x)} + multiset(mq);
    assert multiset(MapSeq(pre + post, f)) == multiset(mp) + multiset(mq);
  }

  /** Applying a function to two arrangements of the same elements gives two arrangements of the same results. */
  lemma {:induction false} MapPermutation<A, B>(a: seq<A>, b: seq<A>, f: A -> B)
    requires multiset(a) == multiset(b)
    ensures multiset(MapSeq(a, f)) == multiset(MapSeq(b, f))
    decreases |a|
  {
    if a == [] {
      assert |b| == |multiset(b)| == 0;
    } else {
      var x := a[0];
      var j := PermutationIndex(a, b);
      var b' := b[..j] + b[j + 1..];
      RestPermutation(a, b, j);
      MapPermutation(a[1..], b', f);
      MapAround(b, j, f);
      MapCons(a, f);
    }
  }

  lemma MapCons<A, B>(a: seq<A>, f: A -> B)
    requires |a| > 0
    ensures multiset(MapSeq(a, f)) == multiset{f(a[0])} + multiset(MapSeq(a[1..], f))
  {
    assert MapSeq(a, f) == [f(a[0])] + MapSeq(a[1..], f);
  }

  /** Removing the first element of `a` and a copy of it from `b` keeps them permutations. */
  lemma RestPermutation<T>(a: seq<T>, b: seq<T>, j: int)
    requires |a| > 0 && multiset(a) == multiset(b)
    requires 0 <= j < |b| && b[j] == a[0]
    ensures multiset(a[1..]) == multiset(b[..j] + b[j + 1..])
  {
    assert a == [a[0]] + a[1..];
    var x, ra, rb := a[0], multiset(a[1..]), multiset(b[..j] + b[j + 1..]);
    assert multiset(a) == ra + multiset{x};
    RemoveAtCount(b, j);
    assert ra == (ra + multiset{x}) - multiset{x};
    assert rb == (rb + multiset{x}) - multiset{x};
  }

  lemma PermutationIndex<T>(a: seq<T>, b: seq<T>) returns (j: int)
    requires |a| > 0 && multiset(a) == multiset(b)
    ensures 0 <= j < |b| && b[j] == a[0]
  {
    assert a[0] in multiset(a);
    j :| 0 <= j < |b| && b[j] == a[0];
  }

  /** A list without repetitions is as long as the set of its elements. */
  lemma {:induction false} DistinctCardinality<T>(s: seq<T>)
    requires Distinct(s)
    ensures |set x | x in s| == |s|
  {
    if s != [] {
      var init := s[..|s| - 1];
      assert s == init + [s[|s| - 1]];
      DistinctCardinality(init);
      assert (set x | x in s) == (set x | x in init) + {s[|s| - 1]};
    }
  }

  /** `list(S)`: the elements of a set in some order. */
  method SetToList<T>(S: set<T>) returns (l: seq<T>)
    ensures Distinct(l) && forall x :: x in l <==> x in S
  {
    l := [];
    var rest := S;
    while rest != {}
      invariant Distinct(l)
      invariant forall x :: x in l <==> x in S && x !in rest
      invariant rest <= S
      decreases rest
    {
      var x :| x in rest;
      l := l + [x];
      rest := rest - {x};
    }
  }
}
