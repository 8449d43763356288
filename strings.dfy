/**
 * The Python string operations the pipeline relies on, written out:
 * `sep.join`, `s.split(c)`, `s.replace(a, b)`, `a in b`, `s.strip(...)`.
 */
module Strings {

  /** `sep.join(parts)`. */
  function Join(parts: seq<string>, sep: string): string
  {
    if |parts| == 0 then ""
    else if |parts| == 1 then parts[0]
    else parts[0] + sep + Join(parts[1..], sep)
  }

  /** `''.join(parts)`. */
  function Concat(parts: seq<string>): (r: string)
    ensures |parts| == 0 ==> r == ""
  {
    Join(parts, "")
  }

  /** A sequence is its prefix before `j`, its element at `j` and the rest. */
  lemma SplitAt<T>(b: seq<T>, j: int)
    requires 0 <= j < |b|
    ensures b == b[..j] + [b[j]] + b[j + 1..]
  {
    assert b[..j + 1] == b[..j] + [b[j]];
    assert b == b[..j + 1] + b[j + 1..];
  }

  /** A non-empty sequence is its prefix followed by its last element. */
  lemma SplitLast<T>(b: seq<T>)
    requires |b| > 0
    ensures b == b[..|b| - 1] + [b[|b| - 1]]
  {
  }

  /** `t` is the tail of `x + t`. */
  lemma EndsWith<T>(x: seq<T>, t: seq<T>)
    ensures (x + t)[|x|..] == t
  {
  }

  /** Concatenation is associative. */
  lemma AppendAssoc<T>(a: seq<T>, b: seq<T>, c: seq<T>)
    ensures (a + b) + c == a + (b + c)
  {
  }

  lemma ConcatSnoc(parts: seq<string>, x: string)
    ensures Concat(parts + [x]) == Concat(parts) + x
  {
    if |parts| > 1 {
      assert (parts + [x])[1..] == parts[1..] + [x];
      ConcatSnoc(parts[1..], x);
    } else if |parts| == 1 {
      assert parts + [x] == [parts[0], x];
      assert Join([parts[0], x], "") == parts[0] + "" + Join([x], "");
    }
  }

  /** `s.split(c)` for a one-character separator: the pieces between the separators. */
  function Split(s: string, c: char): (r: seq<string>)
    ensures |r| >= 1
  {
    if s == [] then [""]
    else
      var rest := Split(s[1..], c);
      if s[0] == c then [""] + rest else [[s[0]] + rest[0]] + rest[1..]
  }

  /** Splitting and joining again with the same separator gives back the string. */
  lemma {:induction false} JoinSplit(s: string, c: char)
    ensures Join(Split(s, c), [c]) == s
    ensures forall i :: 0 <= i < |Split(s, c)| ==> c !in Split(s, c)[i]
  {
    if s != [] {
      var rest := Split(s[1..], c);
      JoinSplit(s[1..], c);
      if s[0] != c {
        var r := Split(s, c);
        assert r[1..] == rest[1..];
        if |rest| == 1 {
          assert Join(r, [c]) == [s[0]] + rest[0];
        } else {
          assert Join(rest, [c]) == rest[0] + [c] + Join(rest[1..], [c]);
        }
        assert s == [s[0]] + s[1..];
      }
    }
  }

  /**
   * `s.replace(pat, rep)`: every non-overlapping occurrence of `pat`, found
   * from left to right, is replaced by `rep`.
   */
  function ReplaceAll(s: string, pat: string, rep: string): string
    requires |pat| > 0
    decreases |s|
  {
    if |s| < |pat| then s
    else if s[..|pat|] == pat then rep + ReplaceAll(s[|pat|..], pat, rep)
    else [s[0]] + ReplaceAll(s[1..], pat, rep)
  }

  /** For a one-character pattern, `replace` substitutes character by character. */
  function MapChar(s: string, c: char, rep: string): (r: string)
  {
    if s == [] then "" else (if s[0] == c then rep else [s[0]]) + MapChar(s[1..], c, rep)
  }

  lemma {:induction false} ReplaceOneChar(s: string, c: char, rep: string)
    ensures ReplaceAll(s, [c], rep) == MapChar(s, c, rep)
  {
    if s != [] {
      ReplaceOneChar(s[1..], c, rep);
    }
  }

  /** Replacing leaves a tail alone when no occurrence of the pattern can end inside it. */
  lemma {:induction false} ReplaceKeepsTail(s: string, t: string, pat: string, rep: string)
    requires |pat| > 0
    requires pat[|pat| - 1] !in t
    ensures ReplaceAll(s + t, pat, rep) == ReplaceAll(s, pat, rep) + t
    decreases |s|
  {
    if |s + t| < |pat| {
      ReplaceTailShort(s, t, pat, rep);
    } else if (s + t)[..|pat|] == pat {
      assert pat[|pat| - 1] == (s + t)[|pat| - 1];
      assert |pat| <= |s|;
      assert s[..|pat|] == pat;
      assert (s + t)[|pat|..] == s[|pat|..] + t;
      ReplaceKeepsTail(s[|pat|..], t, pat, rep);
    } else if s == [] {
      assert s + t == t;
      NoMatchInside(t, pat, rep);
    } else {
      if |s| >= |pat| {
        assert s[..|pat|] == (s + t)[..|pat|];
      }
      assert (s + t)[1..] == s[1..] + t;
      ReplaceKeepsTail(s[1..], t, pat, rep);
    }
  }

  lemma ReplaceTailShort(s: string, t: string, pat: string, rep: string)
    requires |pat| > 0
    requires |s + t| < |pat|
    ensures ReplaceAll(s + t, pat, rep) == ReplaceAll(s, pat, rep) + t
  {
  }

  lemma {:induction false} NoMatchInside(t: string, pat: string, rep: string)
    requires |pat| > 0
    requires pat[|pat| - 1] !in t
    ensures ReplaceAll(t, pat, rep) == t
    decreases |t|
  {
    if |t| >= |pat| {
      assert t[..|pat|] != pat by {
        assert t[|pat| - 1] in t;
      }
      NoMatchInside(t[1..], pat, rep);
      assert t == [t[0]] + t[1..];
    }
  }

  /** `a` occurs in `b` at index `i`. */
  predicate OccursAt(a: string, b: string, i: nat)
  {
    i + |a| <= |b| && b[i..i + |a|] == a
  }

  /** Python's `a in b` on strings. */
  predicate IsSubstring(a: string, b: string)
  {
    exists i :: 0 <= i <= |b| - |a| && OccursAt(a, b, i)
  }

  /** `a` is contained in `b` and is not `b` itself. */
  predicate StrictlyInside(a: string, b: string)
  {
    IsSubstring(a, b) && a != b
  }

  lemma StrictlyInsideShorter(a: string, b: string)
    requires StrictlyInside(a, b)
    ensures |a| < |b|
  {
    var i :| 0 <= i <= |b| - |a| && OccursAt(a, b, i);
    if |a| == |b| {
      assert false;
    }
  }

  /** Containment of strings is transitive, and so is strict containment. */
  lemma StrictlyInsideTransitive(a: string, b: string, c: string)
    requires StrictlyInside(a, b) && StrictlyInside(b, c)
    ensures StrictlyInside(a, c)
  {
    var i :| 0 <= i <= |b| - |a| && OccursAt(a, b, i);
    var j :| 0 <= j <= |c| - |b| && OccursAt(b, c, j);
    assert b[i..i + |a|] == c[j..j + |b|][i..i + |a|];
    var x, y := c[j..j + |b|][i..i + |a|], c[j + i..j + i + |a|];
    forall k | 0 <= k < |a| ensures x[k] == y[k] {
    }
    assert x == y;
    assert OccursAt(a, c, j + i);
    StrictlyInsideShorter(a, b);
    StrictlyInsideShorter(b, c);
  }

  /** The first index at which `a` occurs in `b`; `b.find(a)` when it occurs. */
  function FirstIndex(a: string, b: string): (i: nat)
    requires IsSubstring(a, b)
    ensures OccursAt(a, b, i)
    ensures forall j :: 0 <= j < i ==> !OccursAt(a, b, j)
    decreases |b|
  {
    if OccursAt(a, b, 0) then 0
    else
      assert IsSubstring(a, b[1..]) by {
        var k :| 0 <= k <= |b| - |a| && OccursAt(a, b, k);
        OccursInTail(a, b, k);
      }
      var j := FirstIndex(a, b[1..]);
      OccursInTail(a, b, j + 1);
      forall m | 0 < m < j + 1 ensures !OccursAt(a, b, m) {
        OccursInTail(a, b, m);
      }
      j + 1
  }

  /** An occurrence past the first character is an occurrence in the tail. */
  lemma OccursInTail(a: string, b: string, m: nat)
    requires 0 < m <= |b|
    ensures OccursAt(a, b, m) <==> OccursAt(a, b[1..], m - 1)
  {
    if m + |a| <= |b| {
      assert b[1..][m - 1..m - 1 + |a|] == b[m..m + |a|];
    }
  }

  /** An occurrence in `x` is an occurrence in `a + x + c`, shifted by `|a|`. */
  lemma OccursInMiddle(t: string, a: string, x: string, c: string, pos: nat)
    requires OccursAt(t, x, pos)
    ensures OccursAt(t, a + x + c, |a| + pos)
  {
    assert (a + x + c)[|a| + pos..|a| + pos + |t|] == x[pos..pos + |t|];
  }


  /** Python's `str.isspace()` for one character. */
  predicate IsSpace(c: char)
  {
    c == ' ' || ('\t' <= c <= '\r') || ('\U{1c}' <= c <= '\U{1f}') || c == '\U{85}' || c == '\U{a0}'
    || c == '\U{1680}' || ('\U{2000}' <= c <= '\U{200a}') || c == '\U{2028}' || c == '\U{2029}'
    || c == '\U{202f}' || c == '\U{205f}' || c == '\U{3000}'
  }

  function DropLeading(s: string, c: char -> bool): (r: string)
    ensures |r| <= |s|
    ensures r == s[|s| - |r|..]
    ensures r == [] || !c(r[0])
  {
    if s != [] && c(s[0]) then DropLeading(s[1..], c) else s
  }

  function DropTrailing(s: string, c: char -> bool): (r: string)
    ensures |r| <= |s|
    ensures r == s[..|r|]
    ensures r == [] || !c(r[|r| - 1])
  {
    if s != [] && c(s[|s| - 1]) then DropTrailing(s[..|s| - 1], c) else s
  }

  /** `s.strip()`: leading and trailing white space removed. */
  function Strip(s: string): string
  {
    DropTrailing(DropLeading(s, IsSpace), IsSpace)
  }

  /** `s.strip('\n')`: leading and trailing newlines removed. */
  function StripNewlines(s: string): string
  {
    DropTrailing(DropLeading(s, c => c == '\n'), c => c == '\n')
  }
}
