/**
 * The rule compiler's own logic (bin/compile-rules.py): escaping a
 * space-separated symbol string token by token, collecting the known
 * symbols, splitting the rule list into the rules for epsilon input and
 * the others, and the order in which the rule automata are composed.
 *
 * An automaton is the abstract `Fst` value; the number of states the
 * library reports for it is the parameter `states`.
 */
module CompileRules {
  import opened Symbols
  import opened Strings
  import opened Ordering

  // ---------------------------------------------------------------------
  // esc
  // ---------------------------------------------------------------------

  /** The escape of one token: the table `esc_dict`, and `{t}` for every other token. */
  function TokenEsc(t: string): string
  {
    if t == "\"" then "%\""
    else if t == Eps then "\"<E>\""
    else if t == Pad then Pad
    else if t == "\\" then "\"\\\\\""
    else "{" + t + "}"
  }

  /** The text `esc(chars)` returns: every space-separated token escaped, joined by spaces. */
  function EscText(chars: string): string
  {
    Join(MapSeq(Split(chars, ' '), TokenEsc), " ")
  }

  /** `esc`: split on single spaces, escape each token into `S`, join `S` by spaces. */
  method Esc(chars: string) returns (r: string)
    ensures r == EscText(chars)
  {
    var tokens := Split(chars, ' ');
    var escaped: seq<string> := [];
    var i := 0;
    while i < |tokens|
      invariant 0 <= i <= |tokens|
      invariant escaped == MapSeq(tokens[..i], TokenEsc)
    {
      assert tokens[..i + 1] == tokens[..i] + [tokens[i]];
      MapAppend(tokens[..i], [tokens[i]], TokenEsc);
      escaped := escaped + [TokenEsc(tokens[i])];
      i := i + 1;
    }
    assert tokens[..|tokens|] == tokens;
    r := Join(escaped, " ");
  }

  /** Escaping a token that holds no space gives a text that holds none. */
  lemma TokenEscNoSpace(t: string)
    requires ' ' !in t
    ensures ' ' !in TokenEsc(t)
  {
    if TokenEsc(t) == "{" + t + "}" {
      assert forall k | 0 <= k < |t| :: TokenEsc(t)[k + 1] == t[k];
    }
  }

  /** Distinct tokens are escaped to distinct texts. */
  lemma TokenEscInjective(a: string, b: string)
    requires TokenEsc(a) == TokenEsc(b)
    ensures a == b
  {
    var e := TokenEsc(a);
    if e[0] == '{' {
      assert e == "{" + a + "}" == "{" + b + "}";
      assert a == e[1..|e| - 1] == b;
    }
  }

  /**
   * `esc` keeps the token structure: splitting its result on spaces gives
   * exactly the escaped tokens, as many as `chars` has.
   */
  lemma EscTokens(chars: string)
    ensures Split(EscText(chars), ' ') == MapSeq(Split(chars, ' '), TokenEsc)
    ensures |Split(EscText(chars), ' ')| == |Split(chars, ' ')|
  {
    var tokens := Split(chars, ' ');
    var escaped := MapSeq(tokens, TokenEsc);
    JoinSplit(chars, ' ');
    forall k | 0 <= k < |escaped| ensures ' ' !in escaped[k] {
      MapAt(tokens, TokenEsc, k);
      TokenEscNoSpace(tokens[k]);
    }
    assert " " == [' '];
    SplitJoin(escaped, ' ');
  }

  /** Joining pieces that hold no separator and splitting again gives back the pieces. */
  lemma {:induction false} SplitJoin(parts: seq<string>, c: char)
    requires |parts| > 0
    requires forall k | 0 <= k < |parts| :: c !in parts[k]
    ensures Split(Join(parts, [c]), c) == parts
  {
    if |parts| == 1 {
      SplitNoSeparator(parts[0], c);
    } else {
      SplitJoin(parts[1..], c);
      SplitPrefix(parts[0], Join(parts[1..], [c]), c);
    }
  }

  lemma {:induction false} SplitNoSeparator(a: string, c: char)
    requires c !in a
    ensures Split(a, c) == [a]
  {
    if a != [] {
      SplitNoSeparator(a[1..], c);
      assert [a[0]] + a[1..] == a;
    }
  }

  lemma {:induction false} SplitPrefix(a: string, b: string, c: char)
    requires c !in a
    ensures Split(a + [c] + b, c) == [a] + Split(b, c)
  {
    var s := a + [c] + b;
    if a == [] {
      assert s[1..] == b;
    } else {
      assert s[0] == a[0] && s[1..] == a[1..] + [c] + b;
      SplitPrefix(a[1..], b, c);
      assert [a[0]] + a[1..] == a;
    }
  }

  // ---------------------------------------------------------------------
  // get_chars
  // ---------------------------------------------------------------------

  /**
   * `get_chars`, once the features are read: the escaped padding symbol and
   * the escaped input of every feature.
   */
  method GetChars(feats: seq<Feature>) returns (chars: set<string>)
    ensures chars == {EscText(Pad)} + Image(feats, InputText)
  {
    chars := {EscText(Pad)};
    var i := 0;
    while i < |feats|
      invariant 0 <= i <= |feats|
      invariant chars == {EscText(Pad)} + Image(feats[..i], InputText)
    {
      ImageSnoc(feats, i, InputText);
      chars := chars + {InputText(feats[i])};
      i := i + 1;
    }
    assert feats[..|feats|] == feats;
  }

  /** The escaped input of a feature. */
  function InputText(f: Feature): string
  {
    EscText(f.sub.input)
  }

  // ---------------------------------------------------------------------
  // string2string
  // ---------------------------------------------------------------------

  /** The escaped epsilon that opens every rule for epsilon input. */
  const EpsText: string := "\"<E>\""

  predicate StartsWith(s: string, p: string)
  {
    |p| <= |s| && s[..|p|] == p
  }

  /** The rules that satisfy, or fail, the prefix test, in order. */
  function ByPrefix(rlist: seq<string>, wanted: bool): (r: seq<string>)
    ensures forall x | x in r :: x in rlist && StartsWith(x, EpsText) == wanted
  {
    if rlist == [] then []
    else
      var x := rlist[|rlist| - 1];
      ByPrefix(rlist[..|rlist| - 1], wanted) + (if StartsWith(x, EpsText) == wanted then [x] else [])
  }

  /** `eregex`: the rules starting with `"<E>"`. */
  function ERegex(rlist: seq<string>): seq<string>
  {
    ByPrefix(rlist, true)
  }

  /** The rules of `l` that are not in `excl`, in order. */
  function NotIn(l: seq<string>, excl: seq<string>): (r: seq<string>)
    ensures forall x | x in r :: x in l && x !in excl
  {
    if l == [] then []
    else
      var x := l[|l| - 1];
      NotIn(l[..|l| - 1], excl) + (if x !in excl then [x] else [])
  }

  /** `nregex`: the rules that are not in `eregex`. */
  function NRegex(rlist: seq<string>): seq<string>
  {
    NotIn(rlist, ERegex(rlist))
  }

  /** A rule is in `eregex` exactly when it starts with `"<E>"`. */
  lemma {:induction false} ERegexMember(rlist: seq<string>, x: string)
    requires x in rlist
    ensures x in ERegex(rlist) <==> StartsWith(x, EpsText)
  {
    var init := rlist[..|rlist| - 1];
    if x != rlist[|rlist| - 1] {
      assert rlist == init + [rlist[|rlist| - 1]];
      ERegexMember(init, x);
    }
  }

  lemma {:induction false} NotInIsByPrefix(l: seq<string>, rlist: seq<string>)
    requires forall x | x in l :: x in rlist
    ensures NotIn(l, ERegex(rlist)) == ByPrefix(l, false)
  {
    if l != [] {
      var x := l[|l| - 1];
      NotInIsByPrefix(l[..|l| - 1], rlist);
      ERegexMember(rlist, x);
    }
  }

  lemma {:induction false} ByPrefixSplits(l: seq<string>)
    ensures multiset(ByPrefix(l, true)) + multiset(ByPrefix(l, false)) == multiset(l)
  {
    if l != [] {
      var init, x := l[..|l| - 1], l[|l| - 1];
      ByPrefixSplits(init);
      assert l == init + [x];
      SplitSnoc(ByPrefix(init, true), ByPrefix(init, false), init, x, StartsWith(x, EpsText));
    }
  }

  /** Adding `x` to one of two lists that split `l` splits `l + [x]`. */
  lemma SplitSnoc<T>(a: seq<T>, b: seq<T>, l: seq<T>, x: T, left: bool)
    requires multiset(a) + multiset(b) == multiset(l)
    ensures var a', b' := if left then a + [x] else a, if left then b else b + [x];
            multiset(a') + multiset(b') == multiset(l + [x])
  {
  }

  /**
   * The two lists split the rules: `nregex` is the rules not starting with
   * `"<E>"`, so every rule lands in exactly one list, and none is lost or
   * repeated.
   */
  lemma Partition(rlist: seq<string>)
    ensures NRegex(rlist) == ByPrefix(rlist, false)
    ensures multiset(ERegex(rlist)) + multiset(NRegex(rlist)) == multiset(rlist)
  {
    NotInIsByPrefix(rlist, rlist);
    ByPrefixSplits(rlist);
  }

  /** The membership reading of the partition. */
  lemma PartitionMember(rlist: seq<string>, x: string)
    requires x in rlist
    ensures x in ERegex(rlist) <==> StartsWith(x, EpsText)
    ensures x in NRegex(rlist) <==> !StartsWith(x, EpsText)
  {
    Partition(rlist);
    assert x in multiset(rlist);
    if StartsWith(x, EpsText) {
      assert x !in NRegex(rlist);
      assert x in multiset(ERegex(rlist));
    } else {
      assert x !in ERegex(rlist);
      assert x in multiset(NRegex(rlist));
    }
  }

  /** `expand`: every separator becomes the slot in which an epsilon rule may insert. */
  const ExpandRegex: string := "\"<S>\" -> [ \"<S>\" \"<E>\" \"<.>\" \"<E>\" \"<S>\" ]"

  /** `f` composed with the serially compiled `regexs`, or `f` itself when there are none. */
  function ThenSerial(f: Fst, regexs: seq<string>, states: Fst -> nat): Fst
  {
    if regexs != [] then Composed(f, SerialCompiled(regexs, states)) else f
  }

  /** The automaton after `string2string(fst, rlist)`. */
  function String2StringOf(fst: Fst, rlist: seq<string>, states: Fst -> nat): Fst
  {
    var a := ThenSerial(fst, NRegex(rlist), states);
    if ERegex(rlist) != [] then ThenSerial(Composed(a, Compiled(ExpandRegex)), ERegex(rlist), states) else a
  }

  /**
   * `string2string`: compose with the other rules, then, when there are
   * epsilon rules, expand the separators and compose with those.
   */
  method String2String(fst: Fst, rlist: seq<string>, states: Fst -> nat) returns (r: Fst)
    ensures r == String2StringOf(fst, rlist, states)
  {
    var eregex := ByPrefix(rlist, true);
    var nregex := NRegex(rlist);
    r := fst;
    if nregex != [] {
      var n := SerialCompile(nregex, states);
      r := Composed(r, n);
    }
    if eregex != [] {
      r := Composed(r, Compiled(ExpandRegex));
      var e := SerialCompile(eregex, states);
      r := Composed(r, e);
    }
  }

  /** Every rule is compiled into the result exactly once, on top of what `fst` already held. */
  lemma String2StringRegexes(fst: Fst, rlist: seq<string>, states: Fst -> nat)
    ensures var r := String2StringOf(fst, rlist, states);
            Regexes(r) == Regexes(fst) + multiset(rlist)
                          + (if ERegex(rlist) != [] then multiset{ExpandRegex} else multiset{})
  {
    Partition(rlist);
    ThenSerialRegexes(fst, NRegex(rlist), states);
    var mf, mn, me := Regexes(fst), multiset(NRegex(rlist)), multiset(ERegex(rlist));
    if ERegex(rlist) != [] {
      ExpandedRegexes(fst, rlist, states);
      Regroup(mf, mn, me, multiset{ExpandRegex});
    } else {
      assert me == multiset{};
      Regroup(mf, mn, me, multiset{});
    }
  }

  lemma Regroup<T>(a: multiset<T>, n: multiset<T>, e: multiset<T>, x: multiset<T>)
    ensures a + n + x + e == a + (e + n) + x
  {
  }

  /** With epsilon rules, the expansion and every epsilon rule come after the other rules. */
  lemma ExpandedRegexes(fst: Fst, rlist: seq<string>, states: Fst -> nat)
    requires ERegex(rlist) != []
    ensures var a := ThenSerial(fst, NRegex(rlist), states);
            Regexes(String2StringOf(fst, rlist, states)) == Regexes(a) + multiset{ExpandRegex} + multiset(ERegex(rlist))
  {
    var a := ThenSerial(fst, NRegex(rlist), states);
    var b := Composed(a, Compiled(ExpandRegex));
    assert String2StringOf(fst, rlist, states) == ThenSerial(b, ERegex(rlist), states);
    ThenSerialRegexes(b, ERegex(rlist), states);
  }

  lemma ThenSerialRegexes(f: Fst, regexs: seq<string>, states: Fst -> nat)
    ensures Regexes(ThenSerial(f, regexs, states)) == Regexes(f) + multiset(regexs)
  {
    if regexs != [] {
      SerialCompiledRegexes(regexs, states);
    }
  }

  // ---------------------------------------------------------------------
  // serial_compile
  // ---------------------------------------------------------------------

  /** The order of `queue.sort(key=number_of_states)`. */
  function ByStates(states: Fst -> nat): (Fst, Fst) -> bool
  {
    (a: Fst, b: Fst) => states(a) < states(b)
  }

  lemma ByStatesWeak(states: Fst -> nat)
    ensures StrictWeakOrder(ByStates(states))
  {
  }

  /** The regular expressions compiled into an automaton, with repetitions. */
  function Regexes(f: Fst): multiset<string>
  {
    match f
    case Compiled(r) => multiset{r}
    case Composed(a, b) => Regexes(a) + Regexes(b)
  }

  /** The regular expressions compiled into the automata of a queue. */
  function QueueRegexes(q: seq<Fst>): multiset<string>
  {
    if q == [] then multiset{} else Regexes(q[0]) + QueueRegexes(q[1..])
  }

  /** One round of the loop: compose the first two, append the result, and sort again. */
  function Merge(q: seq<Fst>, states: Fst -> nat): (r: seq<Fst>)
    requires |q| >= 2
    ensures |r| == |q| - 1
  {
    Sort(q[2..] + [Composed(q[0], q[1])], ByStates(states))
  }

  /** The queue after `k` rounds. */
  function Schedule(q: seq<Fst>, k: nat, states: Fst -> nat): (r: seq<Fst>)
    requires k < |q|
    ensures |r| == |q| - k
    decreases k
  {
    if k == 0 then q else Schedule(Merge(q, states), k - 1, states)
  }

  /** The automata compiled from the rules, in rule order. */
  function CompiledAll(regexs: seq<string>): (r: seq<Fst>)
    ensures |r| == |regexs|
  {
    MapSeq(regexs, (x: string) => Compiled(x))
  }

  /** The automaton `serial_compile(regexs)` returns. */
  function SerialCompiled(regexs: seq<string>, states: Fst -> nat): Fst
    requires |regexs| > 0
  {
    Schedule(StartQueue(regexs, states), |regexs| - 1, states)[0]
  }

  /**
   * `serial_compile`: compile every rule, sort by state count, then merge
   * the two smallest automata `n - 1` times, sorting again after each merge.
   */
  method SerialCompile(regexs: seq<string>, states: Fst -> nat) returns (r: Fst)
    requires |regexs| > 0
    ensures r == SerialCompiled(regexs, states)
  {
    var queue: seq<Fst> := [];
    var i := 0;
    while i < |regexs|
      invariant 0 <= i <= |regexs|
      invariant queue == CompiledAll(regexs[..i])
    {
      assert regexs[..i + 1] == regexs[..i] + [regexs[i]];
      MapAppend(regexs[..i], [regexs[i]], (x: string) => Compiled(x));
      queue := queue + [Compiled(regexs[i])];
      i := i + 1;
    }
    assert regexs[..|regexs|] == regexs;
    queue := Sort(queue, ByStates(states));
    ghost var start := queue;
    var n := |queue|;
    var k := 0;
    while k < n - 1
      invariant 0 <= k <= n - 1
      invariant k < |start| && queue == Schedule(start, k, states)
    {
      ScheduleStep(start, k, states);
      var fst1, fst2 := queue[0], queue[1];
      queue := queue[2..] + [Composed(fst1, fst2)];
      queue := Sort(queue, ByStates(states));
      k := k + 1;
    }
    r := queue[0];
  }

  lemma {:induction false} ScheduleStep(q: seq<Fst>, k: nat, states: Fst -> nat)
    requires k + 1 < |q|
    ensures Schedule(q, k + 1, states) == Merge(Schedule(q, k, states), states)
    decreases k
  {
    if k > 0 {
      ScheduleStep(Merge(q, states), k - 1, states);
    }
  }

  /**
   * Each round composes the two automata with the fewest states, the
   * smaller one first, and the composed automaton joins the queue.
   */
  lemma MergeSmallest(q: seq<Fst>, states: Fst -> nat)
    requires |q| >= 2 && Sorted(q, ByStates(states))
    ensures states(q[0]) <= states(q[1])
    ensures forall g | g in q[2..] :: states(q[1]) <= states(g)
    ensures Composed(q[0], q[1]) in Merge(q, states)
  {
    var lt := ByStates(states);
    assert !lt(q[1], q[0]);
    forall g | g in q[2..] ensures states(q[1]) <= states(g) {
      var j :| 0 <= j < |q[2..]| && q[2..][j] == g;
      assert !lt(q[j + 2], q[1]);
    }
    var pre := q[2..] + [Composed(q[0], q[1])];
    assert Composed(q[0], q[1]) in multiset(pre);
  }

  /** A round leaves the queue sorted by state count. */
  lemma MergeSorted(q: seq<Fst>, states: Fst -> nat)
    requires |q| >= 2
    ensures Sorted(Merge(q, states), ByStates(states))
  {
    ByStatesWeak(states);
    SortSorted(q[2..] + [Composed(q[0], q[1])], ByStates(states));
  }

  /** A round loses no rule and adds none. */
  lemma MergeKeeps(q: seq<Fst>, states: Fst -> nat)
    requires |q| >= 2
    ensures QueueRegexes(Merge(q, states)) == QueueRegexes(q)
  {
    var c := Composed(q[0], q[1]);
    var pre := q[2..] + [c];
    QueueRegexesPermutation(Merge(q, states), pre);
    QueueRegexesAppend(q[2..], [c]);
    QueueRegexesTwo(q);
    assert QueueRegexes([c]) == Regexes(c) by {
      assert [c][1..] == [];
    }
  }

  lemma QueueRegexesTwo(q: seq<Fst>)
    requires |q| >= 2
    ensures QueueRegexes(q) == Regexes(q[0]) + Regexes(q[1]) + QueueRegexes(q[2..])
  {
    assert q[1..][1..] == q[2..];
    assert q[1..][0] == q[1];
  }

  /** The queue `serial_compile` starts its rounds with. */
  function StartQueue(regexs: seq<string>, states: Fst -> nat): (r: seq<Fst>)
    ensures |r| == |regexs|
  {
    Sort(CompiledAll(regexs), ByStates(states))
  }

  /**
   * Round `k` of `serial_compile` composes the two automata with the fewest
   * states in its queue, the smaller first, and their composition is in
   * the next queue.
   */
  lemma RoundMergesSmallest(regexs: seq<string>, states: Fst -> nat, k: nat)
    requires k + 1 < |regexs|
    ensures var q := Schedule(StartQueue(regexs, states), k, states);
            && states(q[0]) <= states(q[1])
            && (forall g | g in q[2..] :: states(q[1]) <= states(g))
            && Composed(q[0], q[1]) in Schedule(StartQueue(regexs, states), k + 1, states)
  {
    var start := StartQueue(regexs, states);
    ByStatesWeak(states);
    SortSorted(CompiledAll(regexs), ByStates(states));
    ScheduleSorted(start, k, states);
    MergeSmallest(Schedule(start, k, states), states);
    ScheduleStep(start, k, states);
  }

  /** The result of `serial_compile` holds every rule exactly once. */
  lemma SerialCompiledRegexes(regexs: seq<string>, states: Fst -> nat)
    requires |regexs| > 0
    ensures Regexes(SerialCompiled(regexs, states)) == multiset(regexs)
  {
    var start := StartQueue(regexs, states);
    var last := Schedule(start, |regexs| - 1, states);
    assert SerialCompiled(regexs, states) == last[0];
    QueueRegexesSingle(last);
    ScheduleKeeps(start, |regexs| - 1, states);
    StartQueueRegexes(regexs, states);
  }

  /** The sorted start queue holds every rule exactly once. */
  lemma StartQueueRegexes(regexs: seq<string>, states: Fst -> nat)
    ensures QueueRegexes(StartQueue(regexs, states)) == multiset(regexs)
  {
    QueueRegexesPermutation(StartQueue(regexs, states), CompiledAll(regexs));
    CompiledAllRegexes(regexs);
  }

  lemma QueueRegexesSingle(q: seq<Fst>)
    requires |q| == 1
    ensures QueueRegexes(q) == Regexes(q[0])
  {
    assert q[1..] == [];
  }

  lemma ScheduleKeeps(q: seq<Fst>, k: nat, states: Fst -> nat)
    requires k < |q|
    ensures QueueRegexes(Schedule(q, k, states)) == QueueRegexes(q)
  {
    forall p: seq<Fst> | |p| >= 2 ensures QueueRegexes(Merge(p, states)) == QueueRegexes(p) {
      MergeKeeps(p, states);
    }
    ScheduleInvariant(q, k, states, QueueRegexes);
  }

  /** A measure of the queue that every round keeps is kept by every number of rounds. */
  lemma {:induction false} ScheduleInvariant<T>(q: seq<Fst>, k: nat, states: Fst -> nat, m: seq<Fst> -> T)
    requires k < |q|
    requires forall p: seq<Fst> {:trigger Merge(p, states)} | |p| >= 2 :: m(Merge(p, states)) == m(p)
    ensures m(Schedule(q, k, states)) == m(q)
    decreases k
  {
    if k > 0 {
      ScheduleInvariant(Merge(q, states), k - 1, states, m);
    }
  }

  lemma {:induction false} ScheduleSorted(q: seq<Fst>, k: nat, states: Fst -> nat)
    requires k < |q| && Sorted(q, ByStates(states))
    ensures Sorted(Schedule(q, k, states), ByStates(states))
    decreases k
  {
    if k > 0 {
      var m := Merge(q, states);
      MergeSorted(q, states);
      ScheduleSorted(m, k - 1, states);
      assert Schedule(q, k, states) == Schedule(m, k - 1, states);
    }
  }

  lemma {:induction false} CompiledAllRegexes(regexs: seq<string>)
    ensures QueueRegexes(CompiledAll(regexs)) == multiset(regexs)
  {
    if regexs != [] {
      CompiledAllRegexes(regexs[1..]);
      assert regexs == [regexs[0]] + regexs[1..];
    }
  }

  lemma {:induction false} QueueRegexesAppend(x: seq<Fst>, y: seq<Fst>)
    ensures QueueRegexes(x + y) == QueueRegexes(x) + QueueRegexes(y)
  {
    if x != [] {
      assert (x + y)[1..] == x[1..] + y;
      QueueRegexesAppend(x[1..], y);
    } else {
      assert x + y == y;
    }
  }

  /** The rules held by a queue do not depend on its order. */
  lemma {:induction false} QueueRegexesPermutation(a: seq<Fst>, b: seq<Fst>)
    requires multiset(a) == multiset(b)
    ensures QueueRegexes(a) == QueueRegexes(b)
    decreases |a|
  {
    if a == [] {
      assert |b| == |multiset(b)| == 0;
    } else {
      var j := PermutationIndex(a, b);
      var b' := b[..j] + b[j + 1..];
      RestPermutation(a, b, j);
      QueueRegexesPermutation(a[1..], b');
      QueueRegexesRemove(b, j);
    }
  }

  lemma QueueRegexesRemove(b: seq<Fst>, j: int)
    requires 0 <= j < |b|
    ensures QueueRegexes(b) == QueueRegexes(b[..j] + b[j + 1..]) + Regexes(b[j])
  {
    SplitAt(b, j);
    AppendAssoc(b[..j], [b[j]], b[j + 1..]);
    QueueRegexesAppend(b[..j], [b[j]] + b[j + 1..]);
    QueueRegexesAppend(b[..j], b[j + 1..]);
    assert ([b[j]] + b[j + 1..])[1..] == b[j + 1..];
  }
}
