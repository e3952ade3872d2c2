/**
 * The string operations the recipe parser chains together, each written out
 * with the semantics Python and pandas give it: `str.replace` with a literal
 * pattern, a regular-expression run `c{2,}` replaced by one character,
 * `str.strip`, `str.split`, `str.lower` on ASCII letters, and string
 * comparison as Python sorts strings.
 */
module Text {

  // ---------------------------------------------------------------------------
  // Character classes
  // ---------------------------------------------------------------------------

  predicate IsUpperAscii(c: char) { 'A' <= c <= 'Z' }

  predicate IsLowerAscii(c: char) { 'a' <= c <= 'z' }

  /** The characters for which Python's `str.isspace()` holds, i.e. what `str.strip()` removes. */
  predicate IsSpace(c: char) {
    || c == ' '
    || '\t' <= c <= '\r'
    || '\U{1c}' <= c <= '\U{1f}'
    || c == '\U{85}' || c == '\U{a0}' || c == '\U{1680}'
    || '\U{2000}' <= c <= '\U{200a}'
    || c == '\U{2028}' || c == '\U{2029}' || c == '\U{202f}' || c == '\U{205f}' || c == '\U{3000}'
  }

  predicate IsComma(c: char) { c == ',' }

  /** `str.lower()` on one character; only ASCII letters reach it in this model. */
  function Lower(c: char): (d: char)
    ensures IsUpperAscii(c) ==> IsLowerAscii(d)
    ensures !IsUpperAscii(c) ==> d == c
  {
    if IsUpperAscii(c) then (c as int + 32) as char else c
  }

  function LowerAll(s: string): (r: string)
    ensures |r| == |s|
    ensures forall i :: 0 <= i < |s| ==> r[i] == Lower(s[i])
  {
    if s == [] then [] else [Lower(s[0])] + LowerAll(s[1..])
  }

  // ---------------------------------------------------------------------------
  // Literal search and replace (`str.replace(pat, rep)` with a literal pattern)
  // ---------------------------------------------------------------------------

  /** `pat in s` */
  predicate Contains(s: string, pat: string)
    decreases |s|
  {
    pat <= s || (s != [] && Contains(s[1..], pat))
  }

  /** Replaces every occurrence of `pat`, scanning left to right without overlaps. */
  function ReplaceAll(s: string, pat: string, rep: string): string
    requires pat != []
    decreases |s|
  {
    if s == [] then []
    else if pat <= s then rep + ReplaceAll(s[|pat|..], pat, rep)
    else [s[0]] + ReplaceAll(s[1..], pat, rep)
  }

  /** Replacing a pattern that does not occur leaves the string as it is. */
  lemma {:induction false} ReplaceAllWithoutMatch(s: string, pat: string, rep: string)
    requires pat != []
    requires !Contains(s, pat)
    ensures ReplaceAll(s, pat, rep) == s
  {
    if s != [] {
      ReplaceAllWithoutMatch(s[1..], pat, rep);
    }
  }

  /** A leading character that does not start the pattern is copied. */
  lemma ReplaceAllKeepsHead(c: char, rest: string, pat: string, rep: string)
    requires pat != [] && pat[0] != c
    ensures ReplaceAll([c] + rest, pat, rep) == [c] + ReplaceAll(rest, pat, rep)
  {
    assert ([c] + rest)[1..] == rest;
  }

  /** A leading occurrence of the pattern is replaced. */
  lemma ReplaceAllReplacesHead(pat: string, rest: string, rep: string)
    requires pat != []
    ensures ReplaceAll(pat + rest, pat, rep) == rep + ReplaceAll(rest, pat, rep)
  {
    assert pat <= pat + rest;
    assert (pat + rest)[|pat|..] == rest;
  }

  /** A string that lacks one of the pattern's characters holds no occurrence of it. */
  lemma {:induction false} AbsentCharNoMatch(s: string, pat: string, k: nat)
    requires k < |pat| && pat[k] !in s
    ensures !Contains(s, pat)
    decreases |s|
  {
    if s != [] {
      assert forall j :: 0 <= j < |s| ==> s[j] != pat[k];
      assert pat[k] !in s[1..] by { assert forall j :: 0 <= j < |s| - 1 ==> s[1..][j] == s[j + 1]; }
      AbsentCharNoMatch(s[1..], pat, k);
    }
  }

  /** Removing a marker from `marker + rest`, where `rest` holds no further marker, gives `rest`. */
  lemma ReplaceAllStripsPrefix(pat: string, rest: string)
    requires pat != []
    requires !Contains(rest, pat)
    ensures ReplaceAll(pat + rest, pat, []) == rest
  {
    assert pat <= pat + rest;
    assert (pat + rest)[|pat|..] == rest;
    ReplaceAllWithoutMatch(rest, pat, []);
  }

  /**
   * Replacing a two-character pattern works piece by piece when no occurrence
   * straddles the seam between the pieces.
   */
  lemma {:induction false} ReplaceAllConcat(a: string, b: string, pat: string, rep: string)
    requires |pat| == 2
    requires !(a != [] && b != [] && a[|a| - 1] == pat[0] && b[0] == pat[1])
    ensures ReplaceAll(a + b, pat, rep) == ReplaceAll(a, pat, rep) + ReplaceAll(b, pat, rep)
    decreases |a|
  {
    if a == [] {
      assert a + b == b;
    } else if |a| >= 2 && pat <= a {
      ReplaceAllConcat(a[|pat|..], b, pat, rep);
      ConcatMatchStep(a, b, pat, rep);
    } else {
      ReplaceAllConcat(a[1..], b, pat, rep);
      ConcatPlainStep(a, b, pat, rep);
    }
  }

  /** The step of `ReplaceAllConcat` where `a` starts with the pattern. */
  lemma ConcatMatchStep(a: string, b: string, pat: string, rep: string)
    requires |pat| == 2 && |a| >= 2 && pat <= a
    requires ReplaceAll(a[2..] + b, pat, rep) == ReplaceAll(a[2..], pat, rep) + ReplaceAll(b, pat, rep)
    ensures ReplaceAll(a + b, pat, rep) == ReplaceAll(a, pat, rep) + ReplaceAll(b, pat, rep)
  {
    assert pat <= a + b;
    assert (a + b)[2..] == a[2..] + b;
  }

  /** The step of `ReplaceAllConcat` where `a` does not start with the pattern. */
  lemma ConcatPlainStep(a: string, b: string, pat: string, rep: string)
    requires |pat| == 2 && a != [] && !(|a| >= 2 && pat <= a)
    requires !(b != [] && a[|a| - 1] == pat[0] && b[0] == pat[1])
    requires ReplaceAll(a[1..] + b, pat, rep) == ReplaceAll(a[1..], pat, rep) + ReplaceAll(b, pat, rep)
    ensures ReplaceAll(a + b, pat, rep) == ReplaceAll(a, pat, rep) + ReplaceAll(b, pat, rep)
  {
    NoMatchAcross(a, b, pat);
    PlainHeadConcat(a, b, pat, rep);
    PlainHead(a, pat, rep);
    Assoc([a[0]], ReplaceAll(a[1..], pat, rep), ReplaceAll(b, pat, rep));
  }

  /** `PlainHead` for `a + b`, stated on `a`'s own head and tail. */
  lemma PlainHeadConcat(a: string, b: string, pat: string, rep: string)
    requires pat != [] && a != [] && !(pat <= a + b)
    ensures ReplaceAll(a + b, pat, rep) == [a[0]] + ReplaceAll(a[1..] + b, pat, rep)
  {
    PlainHead(a + b, pat, rep);
    assert (a + b)[1..] == a[1..] + b;
  }

  /** A two-character pattern that `a` does not start with and that does not straddle `a` and `b` does not start `a + b`. */
  lemma NoMatchAcross(a: string, b: string, pat: string)
    requires |pat| == 2 && a != [] && !(|a| >= 2 && pat <= a)
    requires !(b != [] && a[|a| - 1] == pat[0] && b[0] == pat[1])
    ensures !(pat <= a + b)
  {
    if |a| == 1 && b != [] {
      assert (a + b)[..2] == [a[0], b[0]];
    } else if |a| >= 2 {
      assert (a + b)[..2] == a[..2];
    }
  }

  /** Where the pattern does not start the string, its first character is copied. */
  lemma PlainHead(s: string, pat: string, rep: string)
    requires pat != [] && s != [] && !(pat <= s)
    ensures ReplaceAll(s, pat, rep) == [s[0]] + ReplaceAll(s[1..], pat, rep)
  {
  }

  lemma Assoc<T>(x: seq<T>, y: seq<T>, z: seq<T>)
    ensures x + (y + z) == (x + y) + z
  {
  }

  /** Every character of the result comes from the input or from the replacement. */
  lemma {:induction false} ReplaceAllAlphabet(s: string, pat: string, rep: string, c: char)
    requires pat != []
    requires c in ReplaceAll(s, pat, rep)
    ensures c in s || c in rep
  {
    if s != [] {
      if pat <= s {
        if c !in rep {
          ReplaceAllAlphabet(s[|pat|..], pat, rep, c);
          assert c in s[|pat|..];
        }
      } else if c != s[0] {
        ReplaceAllAlphabet(s[1..], pat, rep, c);
      }
    }
  }

  // ---------------------------------------------------------------------------
  // Regular-expression runs: `str.replace('c{2,}', rep)`
  // ---------------------------------------------------------------------------

  /** Length of the run of `c` that starts the string. */
  function RunLength(s: string, c: char): (k: nat)
    ensures k <= |s|
    ensures forall i :: 0 <= i < k ==> s[i] == c
    ensures k < |s| ==> s[k] != c
  {
    if s != [] && s[0] == c then 1 + RunLength(s[1..], c) else 0
  }

  /**
   * The regular expression `c{2,}` replaced by `rep`: the leftmost greedy match
   * is a maximal run of two or more `c`; a lone `c` is left alone.
   */
  function ReplaceRuns(s: string, c: char, rep: char): string
    decreases |s|
  {
    if s == [] then []
    else if s[0] != c then [s[0]] + ReplaceRuns(s[1..], c, rep)
    else
      var k := RunLength(s, c);
      (if k >= 2 then [rep] else [c]) + ReplaceRuns(s[k..], c, rep)
  }

  /** No two consecutive `c` in `s`. */
  predicate NoRepeat(s: string, c: char) {
    forall i :: 0 <= i < |s| - 1 ==> !(s[i] == c && s[i + 1] == c)
  }

  /** When a run collapses to `c` itself, the output starts with `c` exactly when the input does. */
  lemma CollapseHead(s: string, c: char)
    requires s != []
    ensures ReplaceRuns(s, c, c) != [] && (ReplaceRuns(s, c, c)[0] == c <==> s[0] == c)
  {
  }

  /** Collapsing `c{2,}` to `c` leaves no two consecutive `c`. */
  lemma {:induction false} CollapseNoRepeat(s: string, c: char)
    ensures NoRepeat(ReplaceRuns(s, c, c), c)
    decreases |s|
  {
    if s != [] {
      if s[0] != c {
        CollapseNoRepeat(s[1..], c);
      } else {
        var k := RunLength(s, c);
        CollapseNoRepeat(s[k..], c);
        if s[k..] != [] {
          CollapseHead(s[k..], c);
        }
      }
    }
  }

  /** Every character of the result comes from the input or is the replacement. */
  lemma {:induction false} ReplaceRunsAlphabet(s: string, c: char, rep: char, x: char)
    requires x in ReplaceRuns(s, c, rep)
    ensures x in s || x == rep
    decreases |s|
  {
    if s != [] {
      if s[0] != c {
        if x != s[0] {
          ReplaceRunsAlphabet(s[1..], c, rep, x);
        }
      } else {
        var k := RunLength(s, c);
        if x != rep && x != c {
          ReplaceRunsAlphabet(s[k..], c, rep, x);
          assert x in s[k..];
        }
      }
    }
  }

  /** A string with no two consecutive `c` has no match of `c{2,}`. */
  lemma {:induction false} ReplaceRunsWithoutMatch(s: string, c: char, rep: char)
    requires NoRepeat(s, c)
    ensures ReplaceRuns(s, c, rep) == s
    decreases |s|
  {
    if s != [] {
      assert NoRepeat(s[1..], c);
      ReplaceRunsWithoutMatch(s[1..], c, rep);
      if s[0] == c {
        assert RunLength(s, c) == 1;
      }
    }
  }

  // ---------------------------------------------------------------------------
  // Stripping (`str.strip()` and `str.strip(",")`)
  // ---------------------------------------------------------------------------

  /** Number of leading characters that `cut` removes. */
  function Leading(s: string, cut: char -> bool): (k: nat)
    ensures k <= |s|
    ensures forall i :: 0 <= i < k ==> cut(s[i])
    ensures k < |s| ==> !cut(s[k])
  {
    if s != [] && cut(s[0]) then 1 + Leading(s[1..], cut) else 0
  }

  /** Number of trailing characters that `cut` removes. */
  function Trailing(s: string, cut: char -> bool): (k: nat)
    ensures k <= |s|
    ensures forall i :: |s| - k <= i < |s| ==> cut(s[i])
    ensures k < |s| ==> !cut(s[|s| - 1 - k])
  {
    if s != [] && cut(s[|s| - 1]) then 1 + Trailing(s[..|s| - 1], cut) else 0
  }

  /**
   * Removes the characters `cut` accepts from both ends: the result is the
   * slice `s[i..j]`, every character cut off is one `cut` accepts, and the
   * slice neither starts nor ends with one.
   */
  function Strip(s: string, cut: char -> bool): (r: string)
    ensures exists i, j ::
              && 0 <= i <= j <= |s| && r == s[i..j]
              && (forall k :: 0 <= k < i ==> cut(s[k]))
              && (forall k :: j <= k < |s| ==> cut(s[k]))
    ensures r == [] || (!cut(r[0]) && !cut(r[|r| - 1]))
  {
    var a := Leading(s, cut);
    var t := s[a..];
    var b := Trailing(t, cut);
    assert forall k :: a + |t| - b <= k < |s| ==> s[k] == t[k - a];
    assert t[..|t| - b] == s[a..a + |t| - b];
    t[..|t| - b]
  }

  /** A string that `cut` accepts nowhere is left unchanged by stripping. */
  lemma StripUntouched(s: string, cut: char -> bool)
    requires forall i :: 0 <= i < |s| ==> !cut(s[i])
    ensures Strip(s, cut) == s
  {
  }

  // ---------------------------------------------------------------------------
  // Splitting and joining (`str.split(sep)`)
  // ---------------------------------------------------------------------------

  /** Splits at every character of `seps`; like Python's `split`, an empty string gives one empty piece. */
  function Split(s: string, seps: set<char>): (parts: seq<string>)
    ensures |parts| >= 1
  {
    if s == [] then [[]]
    else
      var rest := Split(s[1..], seps);
      if s[0] in seps then [[]] + rest
      else [[s[0]] + rest[0]] + rest[1..]
  }

  /** Joins the parts, putting the separator between neighbours, as Python's `str.join` does. */
  function Join(parts: seq<string>, sep: char): string
  {
    if parts == [] then []
    else if |parts| == 1 then parts[0]
    else parts[0] + [sep] + Join(parts[1..], sep)
  }

  /** Splitting at one separator and joining with it gives back the input. */
  lemma {:induction false} JoinSplit(s: string, sep: char)
    ensures Join(Split(s, {sep}), sep) == s
  {
    if s != [] {
      JoinSplit(s[1..], sep);
      var rest := Split(s[1..], {sep});
      if s[0] != sep {
        if |rest| == 1 {
          assert Split(s, {sep}) == [[s[0]] + rest[0]];
        } else {
          assert Split(s, {sep})[1..] == rest[1..];
        }
      }
    }
  }

  /** No piece holds a separator. */
  lemma {:induction false} SplitPiecesHoldNoSeparator(s: string, seps: set<char>, k: nat, c: char)
    requires k < |Split(s, seps)| && c in Split(s, seps)[k]
    ensures c !in seps
  {
    if s != [] {
      var rest := Split(s[1..], seps);
      if s[0] in seps {
        SplitPiecesHoldNoSeparator(s[1..], seps, k - 1, c);
      } else if k == 0 {
        if c != s[0] {
          assert c in rest[0];
          SplitPiecesHoldNoSeparator(s[1..], seps, 0, c);
        }
      } else {
        SplitPiecesHoldNoSeparator(s[1..], seps, k, c);
      }
    }
  }

  /** Every character of every piece comes from the input. */
  lemma {:induction false} SplitAlphabet(s: string, seps: set<char>, k: nat, c: char)
    requires k < |Split(s, seps)| && c in Split(s, seps)[k]
    ensures c in s
  {
    if s != [] {
      var rest := Split(s[1..], seps);
      if s[0] in seps {
        SplitAlphabet(s[1..], seps, k - 1, c);
      } else if k == 0 {
        if c != s[0] {
          assert c in rest[0];
          SplitAlphabet(s[1..], seps, 0, c);
        }
      } else {
        SplitAlphabet(s[1..], seps, k, c);
      }
    }
  }

  /** Splitting at a separator gives the pieces before it followed by the pieces after it. */
  lemma {:induction false} SplitAtSeparator(p: string, x: char, t: string, seps: set<char>)
    requires x in seps
    ensures Split(p + [x] + t, seps) == Split(p, seps) + Split(t, seps)
    decreases |p|
  {
    if p == [] {
      assert p + [x] + t == [x] + t;
      assert ([x] + t)[1..] == t;
    } else {
      SplitAtSeparator(p[1..], x, t, seps);
      SplitCons(p[0], p[1..] + [x] + t, seps);
      SplitCons(p[0], p[1..], seps);
      assert [p[0]] + (p[1..] + [x] + t) == p + [x] + t && [p[0]] + p[1..] == p;
      if p[0] in seps {
        Assoc([[]], Split(p[1..], seps), Split(t, seps));
      } else {
        HeadMerge(p[0], Split(p[1..], seps), Split(t, seps));
      }
    }
  }

  /** One step of `Split`, on a string given by its first character and the rest. */
  lemma SplitCons(c: char, s: string, seps: set<char>)
    ensures Split([c] + s, seps)
      == if c in seps then [[]] + Split(s, seps) else [[c] + Split(s, seps)[0]] + Split(s, seps)[1..]
  {
    assert ([c] + s)[1..] == s;
  }

  /** Prepending a character to the first piece commutes with appending more pieces. */
  lemma HeadMerge(c: char, q: seq<string>, r: seq<string>)
    requires |q| >= 1
    ensures [[c] + (q + r)[0]] + (q + r)[1..] == ([[c] + q[0]] + q[1..]) + r
  {
    assert (q + r)[0] == q[0];
    assert (q + r)[1..] == q[1..] + r;
  }

  /** A string without separators is a single piece. */
  lemma {:induction false} SplitWithoutSeparator(w: string, seps: set<char>)
    requires forall i :: 0 <= i < |w| ==> w[i] !in seps
    ensures Split(w, seps) == [w]
  {
    if w != [] {
      SplitWithoutSeparator(w[1..], seps);
      assert w == [w[0]] + w[1..];
    }
  }

  // ---------------------------------------------------------------------------
  // Python's string order (code point by code point) and a sorted set of strings
  // ---------------------------------------------------------------------------

  predicate LexLess(a: string, b: string)
    decreases |a|
  {
    if a == [] then b != []
    else b != [] && (a[0] < b[0] || (a[0] == b[0] && LexLess(a[1..], b[1..])))
  }

  lemma {:induction false} LexIrreflexive(a: string)
    ensures !LexLess(a, a)
  {
    if a != [] { LexIrreflexive(a[1..]); }
  }

  lemma {:induction false} LexTransitive(a: string, b: string, c: string)
    requires LexLess(a, b) && LexLess(b, c)
    ensures LexLess(a, c)
  {
    if a != [] && a[0] == b[0] && b[0] == c[0] {
      LexTransitive(a[1..], b[1..], c[1..]);
    }
  }

  lemma {:induction false} LexTotal(a: string, b: string)
    requires a != b
    ensures LexLess(a, b) || LexLess(b, a)
  {
    if a != [] && b != [] && a[0] == b[0] {
      assert a == [a[0]] + a[1..] && b == [b[0]] + b[1..];
      LexTotal(a[1..], b[1..]);
    }
  }

  /** Strictly increasing in Python's string order (so also free of duplicates). */
  predicate LexSorted(v: seq<string>) {
    forall i, j :: 0 <= i < j < |v| ==> LexLess(v[i], v[j])
  }

  /** Adds `t` to a sorted set of strings, keeping it sorted. */
  function InsertSorted(v: seq<string>, t: string): (r: seq<string>)
    requires LexSorted(v)
    ensures LexSorted(r)
    ensures forall x :: x in r <==> x == t || x in v
  {
    if v == [] then [t]
    else if t == v[0] then v
    else if LexLess(t, v[0]) then
      assert forall j :: 0 < j < |v| ==> LexLess(t, v[j]) by {
        forall j | 0 < j < |v| ensures LexLess(t, v[j]) { LexTransitive(t, v[0], v[j]); }
      }
      [t] + v
    else
      LexTotal(t, v[0]);
      var rest := InsertSorted(v[1..], t);
      assert forall x :: x in rest ==> LexLess(v[0], x);
      [v[0]] + rest
  }

  /** Sorted strictly means without repetition. */
  lemma LexSortedDistinct(v: seq<string>, i: nat, j: nat)
    requires LexSorted(v) && i < |v| && j < |v| && i != j
    ensures v[i] != v[j]
  {
    if i < j { LexIrreflexive(v[i]); } else { LexIrreflexive(v[j]); }
  }
}
