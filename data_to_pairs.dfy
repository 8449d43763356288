/**
 * The alignment driver (bin/data2pairs.py; train/data2pairs.py is the same
 * driver with the older re-estimation defaults). Every line of the data
 * file holds an input and an output string in its last two tab-separated
 * fields; both are cleaned, aligned symbol by symbol by the current model,
 * and the best path is padded. The first pass uses a Levenshtein model,
 * every later pass the model re-estimated from the previous pass.
 *
 * Reading the file, the tokenizer and the composition with the model are
 * outside the model: the lines are a parameter, and `bestPath(model, a, b)`
 * is the best path of aligning `a` with `b`, or `None` when aligning raises.
 */
module DataToPairs {
  import opened Symbols
  import opened Strings
  import opened Aligner

  // ---------------------------------------------------------------------
  // clean
  // ---------------------------------------------------------------------

  /** `cldict`, in its iteration order: backslashes are doubled, then `\U{84}` is deleted. */
  const CleanTable: seq<(string, string)> := [("\\", "\\\\"), ("\U{84}", "")]

  /** What `clean` does to one character. */
  function CleanChar(c: char): string
  {
    if c == '\\' then "\\\\" else if c == '\U{84}' then "" else [c]
  }

  /** The reference definition of `clean`: every character cleaned on its own. */
  function CleanMap(s: string): string
  {
    if s == [] then "" else CleanChar(s[0]) + CleanMap(s[1..])
  }

  /** The string after `s = s.replace(a, b)` for each entry of `table` in turn. */
  function ReplaceEach(s: string, table: seq<(string, string)>): string
    requires forall e | e in table :: |e.0| > 0
  {
    if table == [] then s
    else
      var e := table[|table| - 1];
      ReplaceAll(ReplaceEach(s, table[..|table| - 1]), e.0, e.1)
  }

  /** `clean`: apply the replacements of `cldict` one after the other. */
  method Clean(s: string) returns (r: string)
    ensures r == CleanMap(s)
  {
    r := s;
    var i := 0;
    while i < |CleanTable|
      invariant 0 <= i <= |CleanTable|
      invariant r == ReplaceEach(s, CleanTable[..i])
    {
      assert CleanTable[..i + 1][..i] == CleanTable[..i];
      r := ReplaceAll(r, CleanTable[i].0, CleanTable[i].1);
      i := i + 1;
    }
    assert CleanTable[..2] == CleanTable;
    CleanIsCharwise(s);
  }

  /** The two successive replacements clean every character on its own. */
  lemma CleanIsCharwise(s: string)
    ensures ReplaceEach(s, CleanTable) == CleanMap(s)
  {
    ReplaceOneChar(s, '\\', "\\\\");
    ReplaceOneChar(MapChar(s, '\\', "\\\\"), '\U{84}', "");
    assert ['\\'] == "\\" && ['\U{84}'] == "\U{84}";
    var once := ReplaceAll(s, "\\", "\\\\");
    assert ReplaceEach(s, CleanTable[..1]) == once by {
      assert CleanTable[..1][..0] == [];
    }
    assert CleanTable[..2] == CleanTable;
    assert ReplaceEach(s, CleanTable) == ReplaceAll(once, "\U{84}", "");
    MapCharTwice(s);
  }

  lemma {:induction false} MapCharTwice(s: string)
    ensures MapChar(MapChar(s, '\\', "\\\\"), '\U{84}', "") == CleanMap(s)
  {
    if s != [] {
      MapCharTwice(s[1..]);
      var head := if s[0] == '\\' then "\\\\" else [s[0]];
      MapCharAppend(head, MapChar(s[1..], '\\', "\\\\"), '\U{84}', "");
      if s[0] == '\\' {
        assert MapChar(head, '\U{84}', "") == "\\\\" by {
          assert head[1..] == "\\";
          assert head[1..][1..] == [];
        }
      } else {
        assert head[1..] == [];
      }
    }
  }

  lemma {:induction false} MapCharAppend(a: string, b: string, c: char, rep: string)
    ensures MapChar(a + b, c, rep) == MapChar(a, c, rep) + MapChar(b, c, rep)
  {
    if a != [] {
      assert (a + b)[0] == a[0] && (a + b)[1..] == a[1..] + b;
      MapCharAppend(a[1..], b, c, rep);
    } else {
      assert a + b == b;
    }
  }

  /** `s` with every `\U{84}` removed. */
  function Without84(s: string): string
  {
    if s == [] then "" else (if s[0] == '\U{84}' then "" else [s[0]]) + Without84(s[1..])
  }

  /** Reading a cleaned string back: every doubled backslash stands for one. */
  function Unclean(t: string): string
  {
    if t == [] then ""
    else if |t| >= 2 && t[0] == '\\' && t[1] == '\\' then "\\" + Unclean(t[2..])
    else [t[0]] + Unclean(t[1..])
  }

  /**
   * `clean` loses nothing but the `\U{84}` characters: undoubling its
   * backslashes gives back the string without them, and no `\U{84}` is left.
   */
  lemma {:induction false} CleanRoundTrip(s: string)
    ensures Unclean(CleanMap(s)) == Without84(s)
    ensures '\U{84}' !in CleanMap(s)
  {
    if s != [] {
      CleanRoundTrip(s[1..]);
      var rest := CleanMap(s[1..]);
      var t := CleanMap(s);
      if s[0] == '\\' {
        assert t == "\\\\" + rest;
        assert t[2..] == rest;
      } else if s[0] != '\U{84}' {
        assert t == [s[0]] + rest;
        assert t[1..] == rest;
        assert Unclean(t) == [s[0]] + Unclean(rest);
        assert Without84(s) == [s[0]] + Without84(s[1..]);
      } else {
        assert t == "" + rest == rest;
      }
    }
  }

  // ---------------------------------------------------------------------
  // get_pairs
  // ---------------------------------------------------------------------

  /** `get_pairs`: the best path, with the padding pair at both ends. */
  function GetPairs(path: seq<Pair>): (r: seq<Pair>)
    ensures |r| == |path| + 2
    ensures r[0] == PadPair && r[|r| - 1] == PadPair
    ensures r[1..|r| - 1] == path
  {
    [PadPair] + path + [PadPair]
  }

  // ---------------------------------------------------------------------
  // align_file
  // ---------------------------------------------------------------------

  /** The fields of a line, once its newlines are stripped. */
  function Fields(line: string): seq<string>
  {
    Split(StripNewlines(line), '\t')
  }

  /** `str1, str2 = line.split('\t')[-2:]`, or `None` when the unpacking raises. */
  function ParseLine(line: string): Option<(string, string)>
  {
    var f := Fields(line);
    if |f| < 2 then None else Some((f[|f| - 2], f[|f| - 1]))
  }

  /**
   * A line fails to parse exactly when it holds no tab; otherwise the two
   * fields hold no tab and the line ends with them, joined by a tab.
   */
  lemma ParseLineSpec(line: string)
    ensures ParseLine(line).None? <==> '\t' !in StripNewlines(line)
    ensures ParseLine(line).Some? ==>
              var (a, b) := ParseLine(line).value;
              var s := StripNewlines(line);
              '\t' !in a && '\t' !in b && |a| + |b| + 1 <= |s| && s[|s| - |a| - |b| - 1..] == a + "\t" + b
  {
    var s := StripNewlines(line);
    var f := Fields(line);
    JoinSplit(s, '\t');
    if |f| >= 2 {
      JoinLastTwo(f, "\t");
      assert f[|f| - 2] + "\t" + f[|f| - 1] == f[|f| - 2] + ['\t'] + f[|f| - 1];
      assert s[|s| - |f[|f| - 2]| - |f[|f| - 1]| - 1 + |f[|f| - 2]|] == '\t';
    } else {
      assert s == f[0];
    }
  }

  lemma {:induction false} JoinLastTwo(parts: seq<string>, sep: string)
    requires |parts| >= 2
    ensures var j := Join(parts, sep);
            var t := parts[|parts| - 2] + sep + parts[|parts| - 1];
            |t| <= |j| && j[|j| - |t|..] == t
  {
    if |parts| > 2 {
      JoinLastTwo(parts[1..], sep);
    } else {
      assert parts[1..] == [parts[1]];
    }
  }

  /** The padded alignment of one line, or `None` when the line is skipped. */
  function AlignLine(line: string, model: Fst, bestPath: (Fst, string, string) -> Option<seq<Pair>>): Option<seq<Pair>>
  {
    match ParseLine(line)
    case None => None
    case Some((a, b)) =>
      match bestPath(model, CleanMap(a), CleanMap(b))
      case None => None
      case Some(path) => Some(GetPairs(path))
  }

  /** The alignments of the lines that are not skipped, in file order. */
  function Aligned(lines: seq<string>, model: Fst, bestPath: (Fst, string, string) -> Option<seq<Pair>>): seq<seq<Pair>>
  {
    if lines == [] then []
    else
      var rest := Aligned(lines[..|lines| - 1], model, bestPath);
      match AlignLine(lines[|lines| - 1], model, bestPath)
      case None => rest
      case Some(pairs) => rest + [pairs]
  }

  /** A skipped line is worth a warning unless it is empty. */
  predicate Warned(line: string, model: Fst, bestPath: (Fst, string, string) -> Option<seq<Pair>>)
  {
    AlignLine(line, model, bestPath).None? && StripNewlines(line) != ""
  }

  /** The 1-based numbers of the lines warned about, in file order. */
  function Warnings(lines: seq<string>, model: Fst, bestPath: (Fst, string, string) -> Option<seq<Pair>>): seq<nat>
  {
    if lines == [] then []
    else
      Warnings(lines[..|lines| - 1], model, bestPath)
      + (if Warned(lines[|lines| - 1], model, bestPath) then [|lines|] else [])
  }

  /**
   * `align_file`: every line is parsed, cleaned and aligned; a line that
   * raises is skipped, with a warning giving its number unless it is empty.
   */
  method AlignFile(lines: seq<string>, model: Fst, bestPath: (Fst, string, string) -> Option<seq<Pair>>)
    returns (plist: seq<seq<Pair>>, warnings: seq<nat>)
    ensures plist == Aligned(lines, model, bestPath)
    ensures warnings == Warnings(lines, model, bestPath)
  {
    plist, warnings := [], [];
    var i := 0;
    while i < |lines|
      invariant 0 <= i <= |lines|
      invariant plist == Aligned(lines[..i], model, bestPath)
      invariant warnings == Warnings(lines[..i], model, bestPath)
    {
      var line := lines[i];
      AlignFileStep(lines, model, bestPath, i);
      var r := AlignLine(line, model, bestPath);
      if r.Some? {
        plist := plist + [r.value];
      } else if StripNewlines(line) != "" {
        warnings := warnings + [i + 1];
      }
      i := i + 1;
    }
    assert lines[..|lines|] == lines;
  }

  lemma AlignFileStep(lines: seq<string>, model: Fst, bestPath: (Fst, string, string) -> Option<seq<Pair>>, i: int)
    requires 0 <= i < |lines|
    ensures var r := AlignLine(lines[i], model, bestPath);
            Aligned(lines[..i + 1], model, bestPath)
            == Aligned(lines[..i], model, bestPath) + (if r.Some? then [r.value] else [])
    ensures Warnings(lines[..i + 1], model, bestPath)
            == Warnings(lines[..i], model, bestPath) + (if Warned(lines[i], model, bestPath) then [i + 1] else [])
  {
    assert lines[..i + 1][..i] == lines[..i];
  }

  /** The last line adds its alignment, or its warning, or nothing. */
  lemma AlignedSnoc(lines: seq<string>, model: Fst, bestPath: (Fst, string, string) -> Option<seq<Pair>>)
    requires lines != []
    ensures var init, r := lines[..|lines| - 1], AlignLine(lines[|lines| - 1], model, bestPath);
            && Aligned(lines, model, bestPath) == Aligned(init, model, bestPath) + (if r.Some? then [r.value] else [])
            && |Warnings(lines, model, bestPath)|
               == |Warnings(init, model, bestPath)| + (if r.None? && StripNewlines(lines[|lines| - 1]) != "" then 1 else 0)
  {
  }

  /** `p` begins and ends with the padding pair. */
  predicate Padded(p: seq<Pair>)
  {
    |p| >= 2 && p[0] == PadPair && p[|p| - 1] == PadPair
  }

  /** Every alignment in the output is a best path padded at both ends. */
  lemma {:induction false} AlignedPadded(lines: seq<string>, model: Fst, bestPath: (Fst, string, string) -> Option<seq<Pair>>, p: seq<Pair>)
    requires p in Aligned(lines, model, bestPath)
    ensures Padded(p)
  {
    var init := lines[..|lines| - 1];
    AlignedSnoc(lines, model, bestPath);
    if p in Aligned(init, model, bestPath) {
      AlignedPadded(init, model, bestPath, p);
    } else {
      AlignLinePadded(lines[|lines| - 1], model, bestPath);
    }
  }

  lemma AlignLinePadded(line: string, model: Fst, bestPath: (Fst, string, string) -> Option<seq<Pair>>)
    ensures var r := AlignLine(line, model, bestPath);
            r.Some? ==> Padded(r.value)
  {
  }

  /**
   * Line `n` is warned about exactly when it is non-empty and skipped, and
   * every line that is not skipped adds one alignment.
   */
  lemma {:induction false} WarningsExact(lines: seq<string>, model: Fst, bestPath: (Fst, string, string) -> Option<seq<Pair>>, n: int)
    ensures n in Warnings(lines, model, bestPath) <==> 1 <= n <= |lines| && Warned(lines[n - 1], model, bestPath)
  {
    if lines != [] {
      var init := lines[..|lines| - 1];
      WarningsExact(init, model, bestPath, n);
      if 1 <= n < |lines| {
        assert init[n - 1] == lines[n - 1];
      }
      if n == |lines| {
        WarningsBounded(init, model, bestPath);
      }
    }
  }

  lemma {:induction false} WarningsBounded(lines: seq<string>, model: Fst, bestPath: (Fst, string, string) -> Option<seq<Pair>>)
    ensures forall n | n in Warnings(lines, model, bestPath) :: 1 <= n <= |lines|
  {
    if lines != [] {
      WarningsBounded(lines[..|lines| - 1], model, bestPath);
    }
  }

  /** Each line contributes one alignment, one warning, or, when empty and skipped, nothing. */
  lemma {:induction false} AlignedCount(lines: seq<string>, model: Fst, bestPath: (Fst, string, string) -> Option<seq<Pair>>)
    ensures |Aligned(lines, model, bestPath)| + |Warnings(lines, model, bestPath)| <= |lines|
  {
    if lines != [] {
      AlignedCount(lines[..|lines| - 1], model, bestPath);
      AlignedSnoc(lines, model, bestPath);
    }
  }

  /** When no line is empty, each line contributes exactly one alignment or one warning. */
  lemma {:induction false} AlignedCountExact(lines: seq<string>, model: Fst, bestPath: (Fst, string, string) -> Option<seq<Pair>>)
    requires forall i | 0 <= i < |lines| :: StripNewlines(lines[i]) != ""
    ensures |Aligned(lines, model, bestPath)| + |Warnings(lines, model, bestPath)| == |lines|
  {
    if lines != [] {
      var init := lines[..|lines| - 1];
      assert forall i | 0 <= i < |init| :: init[i] == lines[i];
      AlignedCountExact(init, model, bestPath);
      AlignedSnoc(lines, model, bestPath);
    }
  }

  // ---------------------------------------------------------------------
  // iterate
  // ---------------------------------------------------------------------

  /** The initial Levenshtein model: identity free, every edit costs 1. */
  const Levenshtein: Fst := Compiled("[ ?::0 | ?:?::1 | 0:?::1 | ?:0::1 | 0:0::0 ]*")

  /** `iterate` reads `pairs_list` after a loop that ran no pass. */
  const UnboundError: string := "UnboundLocalError"

  /** The model used by pass `n` (counting from 0). */
  function ModelAt(lines: seq<string>, n: nat, bestPath: (Fst, string, string) -> Option<seq<Pair>>, smoothing: int, fmt: real -> string): Fst
  {
    if n == 0 then Levenshtein
    else Compiled(RegexOf(Aligned(lines, ModelAt(lines, n - 1, bestPath, smoothing, fmt), bestPath), smoothing, fmt))
  }

  /** What `iterate(filename, iterations)` returns. */
  function IterateOf(lines: seq<string>, iterations: int, bestPath: (Fst, string, string) -> Option<seq<Pair>>, smoothing: int, fmt: real -> string): Result<seq<seq<Pair>>>
  {
    if iterations <= 0 then Failure(UnboundError)
    else Success(Aligned(lines, ModelAt(lines, iterations - 1, bestPath, smoothing, fmt), bestPath))
  }

  /**
   * `iterate` of bin/data2pairs.py: `build_aligner` is called without a
   * smoothing, so every re-estimation uses its default.
   */
  method Iterate(lines: seq<string>, iterations: int, bestPath: (Fst, string, string) -> Option<seq<Pair>>, fmt: real -> string)
    returns (r: Result<seq<seq<Pair>>>)
    ensures r == IterateOf(lines, iterations, bestPath, DefaultSmoothing, fmt)
  {
    r := AlignPasses(lines, iterations, bestPath, DefaultSmoothing, fmt);
  }

  /** `iterate` of train/data2pairs.py, whose `build_aligner` has the default smoothing 3. */
  method TrainIterate(lines: seq<string>, iterations: int, bestPath: (Fst, string, string) -> Option<seq<Pair>>, fmt: real -> string)
    returns (r: Result<seq<seq<Pair>>>)
    ensures r == IterateOf(lines, iterations, bestPath, TrainDefaultSmoothing, fmt)
  {
    r := AlignPasses(lines, iterations, bestPath, TrainDefaultSmoothing, fmt);
  }

  /**
   * The loop of `iterate`: `iterations` passes over the file, each aligning
   * with the current model and then rebuilding the model from its output
   * with the given smoothing.
   */
  method AlignPasses(lines: seq<string>, iterations: int, bestPath: (Fst, string, string) -> Option<seq<Pair>>, smoothing: int, fmt: real -> string)
    returns (r: Result<seq<seq<Pair>>>)
    ensures r == IterateOf(lines, iterations, bestPath, smoothing, fmt)
  {
    var model := Levenshtein;
    var aligned: seq<seq<Pair>> := [];
    var i := 0;
    while i < iterations
      invariant 0 <= i <= if iterations < 0 then 0 else iterations
      invariant model == ModelAt(lines, i, bestPath, smoothing, fmt)
      invariant i > 0 ==> aligned == Aligned(lines, ModelAt(lines, i - 1, bestPath, smoothing, fmt), bestPath)
    {
      var warnings;
      aligned, warnings := AlignFile(lines, model, bestPath);
      model := BuildAligner(aligned, smoothing, fmt);
      i := i + 1;
    }
    if i == 0 {
      assert iterations <= 0;
      r := Failure(UnboundError);
    } else {
      assert i == iterations;
      IterateOfPasses(lines, iterations, bestPath, smoothing, fmt);
      r := Success(aligned);
    }
  }

  lemma IterateOfPasses(lines: seq<string>, n: int, bestPath: (Fst, string, string) -> Option<seq<Pair>>, smoothing: int, fmt: real -> string)
    requires n > 0
    ensures IterateOf(lines, n, bestPath, smoothing, fmt) == Success(Aligned(lines, ModelAt(lines, n - 1, bestPath, smoothing, fmt), bestPath))
  {
  }

  /**
   * The first pass aligns with the Levenshtein model, and every further
   * pass aligns with the model re-estimated from the previous pass's output.
   */
  lemma IterateSteps(lines: seq<string>, n: int, bestPath: (Fst, string, string) -> Option<seq<Pair>>, smoothing: int, fmt: real -> string)
    ensures IterateOf(lines, n, bestPath, smoothing, fmt).Failure? <==> n <= 0
    ensures n == 1 ==> IterateOf(lines, n, bestPath, smoothing, fmt) == Success(Aligned(lines, Levenshtein, bestPath))
    ensures n >= 1 ==>
              IterateOf(lines, n + 1, bestPath, smoothing, fmt)
              == Success(Aligned(lines, Compiled(RegexOf(IterateOf(lines, n, bestPath, smoothing, fmt).value, smoothing, fmt)), bestPath))
  {
  }
}
