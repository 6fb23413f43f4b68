/** `normaliseMultiLineString(text)`: `text.trim()`, then delete every tab
    (`/\t/g` replaced by ""), then turn every run of line feeds into one space
    (`/[\n]+/g` replaced by " "), then turn every run of two or more spaces into
    one space (`/ {2,}/g` replaced by " "). */
module Normalise {

  /** WhiteSpace and LineTerminator as `String.prototype.trim` strips them
      (sections 12.2 and 12.3 of ECMA-262): tab, vertical tab, form feed, space,
      no-break space, byte order mark, the other space separators of Unicode
      category Zs, line feed, carriage return, line and paragraph separator. */
  predicate IsJsWhitespace(c: char) {
    || c == '\t' || c == '\U{000B}' || c == '\U{000C}' || c == ' '
    || c == '\U{00A0}' || c == '\U{FEFF}' || c == '\U{1680}'
    || ('\U{2000}' <= c <= '\U{200A}')
    || c == '\U{202F}' || c == '\U{205F}' || c == '\U{3000}'
    || c == '\n' || c == '\r' || c == '\U{2028}' || c == '\U{2029}'
  }

  predicate NoLeadingOrTrailingWhitespace(s: string) {
    s != [] ==> !IsJsWhitespace(s[0]) && !IsJsWhitespace(s[|s| - 1])
  }

  predicate NoAdjacent(s: string, c: char) {
    forall i :: 0 <= i < |s| - 1 ==> !(s[i] == c && s[i + 1] == c)
  }

  function TrimStart(s: string): (r: string)
    ensures |r| <= |s| && r == s[|s| - |r|..]
    ensures r != [] ==> !IsJsWhitespace(r[0])
    ensures forall i :: 0 <= i < |s| - |r| ==> IsJsWhitespace(s[i])
  {
    if s != [] && IsJsWhitespace(s[0]) then TrimStart(s[1..]) else s
  }

  function TrimEnd(s: string): (r: string)
    ensures |r| <= |s| && r == s[..|r|]
    ensures r != [] ==> !IsJsWhitespace(r[|r| - 1])
    ensures forall i :: |r| <= i < |s| ==> IsJsWhitespace(s[i])
  {
    if s != [] && IsJsWhitespace(s[|s| - 1]) then TrimEnd(s[..|s| - 1]) else s
  }

  /** `String.prototype.trim`. */
  function Trim(s: string): (r: string)
    ensures NoLeadingOrTrailingWhitespace(r)
  {
    TrimEnd(TrimStart(s))
  }

  /** The characters of `s` that satisfy `keep`, in order. */
  function Filter(s: string, keep: char -> bool): (r: string)
    ensures |r| <= |s|
    ensures forall i :: 0 <= i < |r| ==> keep(r[i])
  {
    if s == [] then []
    else (if keep(s[0]) then [s[0]] else []) + Filter(s[1..], keep)
  }

  /** `replaceAll(/\t/g, "")`. */
  function DeleteTabs(s: string): string {
    Filter(s, NotTab)
  }

  predicate NotTab(c: char) { c != '\t' }

  predicate NotWhitespace(c: char) { !IsJsWhitespace(c) }

  /** Length of the run of `c` that starts `s`. */
  function RunLength(s: string, c: char): (n: nat)
    ensures n <= |s|
    ensures forall i :: 0 <= i < n ==> s[i] == c
    ensures n < |s| ==> s[n] != c
  {
    if s == [] || s[0] != c then 0 else 1 + RunLength(s[1..], c)
  }

  /** `replaceAll` with the global pattern "`c` repeated at least `min` times"
      (`min` at least 1): the scan matches each maximal run of `c` that is long
      enough and replaces it by `rep`; shorter runs are left as they are. */
  function ReplaceRuns(s: string, c: char, min: nat, rep: string): string
    decreases |s|
  {
    if s == [] then []
    else if s[0] == c then
      var n := RunLength(s, c);
      (if n >= min then rep else s[..n]) + ReplaceRuns(s[n..], c, min, rep)
    else [s[0]] + ReplaceRuns(s[1..], c, min, rep)
  }

  function NormaliseMultiLineString(text: string): string {
    ReplaceRuns(ReplaceRuns(DeleteTabs(Trim(text)), '\n', 1, " "), ' ', 2, " ")
  }

  // ---------------------------------------------------------------------
  // Filter

  lemma {:induction false} FilterConcat(a: string, b: string, keep: char -> bool)
    ensures Filter(a + b, keep) == Filter(a, keep) + Filter(b, keep)
    decreases |a|
  {
    if a == [] {
      assert a + b == b;
    } else {
      assert (a + b)[0] == a[0] && (a + b)[1..] == a[1..] + b;
      FilterConcat(a[1..], b, keep);
    }
  }

  lemma {:induction false} FilterNone(s: string, keep: char -> bool)
    requires forall i :: 0 <= i < |s| ==> !keep(s[i])
    ensures Filter(s, keep) == []
    decreases |s|
  {
    if s != [] {
      FilterNone(s[1..], keep);
    }
  }

  lemma {:induction false} FilterAll(s: string, keep: char -> bool)
    requires forall i :: 0 <= i < |s| ==> keep(s[i])
    ensures Filter(s, keep) == s
    decreases |s|
  {
    if s != [] {
      FilterAll(s[1..], keep);
    }
  }

  /** Filtering twice with a finer test is filtering once with it. */
  lemma {:induction false} FilterFilter(s: string, coarse: char -> bool, fine: char -> bool)
    requires forall c :: fine(c) ==> coarse(c)
    ensures Filter(Filter(s, coarse), fine) == Filter(s, fine)
    decreases |s|
  {
    if s != [] {
      var head := if coarse(s[0]) then [s[0]] else [];
      FilterConcat(head, Filter(s[1..], coarse), fine);
      FilterFilter(s[1..], coarse, fine);
    }
  }

  lemma FilterFirst(s: string, keep: char -> bool)
    requires s != [] && keep(s[0])
    ensures Filter(s, keep) != [] && Filter(s, keep)[0] == s[0]
  {
  }

  lemma FilterLast(s: string, keep: char -> bool)
    requires s != [] && keep(s[|s| - 1])
    ensures Filter(s, keep) != [] && Filter(s, keep)[|Filter(s, keep)| - 1] == s[|s| - 1]
  {
    var n := |s| - 1;
    assert s == s[..n] + [s[n]];
    FilterConcat(s[..n], [s[n]], keep);
    assert Filter([s[n]], keep) == [s[n]];
  }

  // ---------------------------------------------------------------------
  // trim

  lemma TrimIdentity(s: string)
    requires NoLeadingOrTrailingWhitespace(s)
    ensures Trim(s) == s
  {
  }

  /** `trim` removes whitespace only: the other characters stay, in order. */
  lemma TrimKeepsNonWhitespace(s: string)
    ensures Filter(Trim(s), NotWhitespace) == Filter(s, NotWhitespace)
  {
    TrimStartKeeps(s);
    TrimEndKeeps(TrimStart(s));
  }

  lemma TrimStartKeeps(s: string)
    ensures Filter(TrimStart(s), NotWhitespace) == Filter(s, NotWhitespace)
  {
    var m := TrimStart(s);
    var pre := s[..|s| - |m|];
    assert s == pre + m;
    forall i | 0 <= i < |pre| ensures !NotWhitespace(pre[i]) {
      assert pre[i] == s[i];
    }
    FilterConcat(pre, m, NotWhitespace);
    FilterNone(pre, NotWhitespace);
  }

  lemma TrimEndKeeps(m: string)
    ensures Filter(TrimEnd(m), NotWhitespace) == Filter(m, NotWhitespace)
  {
    var r := TrimEnd(m);
    var post := m[|r|..];
    assert m == r + post;
    forall i | 0 <= i < |post| ensures !NotWhitespace(post[i]) {
      assert post[i] == m[|r| + i];
    }
    FilterConcat(r, post, NotWhitespace);
    FilterNone(post, NotWhitespace);
  }

  // ---------------------------------------------------------------------
  // Replacing runs

  lemma ReplaceRunsFirst(s: string, c: char, min: nat, rep: string)
    requires s != [] && s[0] != c
    ensures ReplaceRuns(s, c, min, rep) != [] && ReplaceRuns(s, c, min, rep)[0] == s[0]
  {
  }

  lemma {:induction false} ReplaceRunsLast(s: string, c: char, min: nat, rep: string)
    requires s != [] && s[|s| - 1] != c
    ensures var r := ReplaceRuns(s, c, min, rep); r != [] && r[|r| - 1] == s[|s| - 1]
    decreases |s|
  {
    if s[0] == c {
      var n := RunLength(s, c);
      assert n < |s|;
      ReplaceRunsLast(s[n..], c, min, rep);
    } else if |s| > 1 {
      ReplaceRunsLast(s[1..], c, min, rep);
    }
  }

  /** With `min` 1, every occurrence of `c` is inside a replaced run. */
  lemma {:induction false} ReplaceRunsRemoves(s: string, c: char, rep: string)
    requires c !in rep
    ensures c !in ReplaceRuns(s, c, 1, rep)
    decreases |s|
  {
    if s != [] {
      if s[0] == c {
        ReplaceRunsRemoves(s[RunLength(s, c)..], c, rep);
      } else {
        ReplaceRunsRemoves(s[1..], c, rep);
      }
    }
  }

  /** A character that is neither `c` nor in `rep` is not introduced. */
  lemma {:induction false} ReplaceRunsAbsent(s: string, c: char, min: nat, rep: string, d: char)
    requires d != c && d !in s && d !in rep
    ensures d !in ReplaceRuns(s, c, min, rep)
    decreases |s|
  {
    if s != [] {
      if s[0] == c {
        var n := RunLength(s, c);
        ReplaceRunsAbsent(s[n..], c, min, rep, d);
      } else {
        ReplaceRunsAbsent(s[1..], c, min, rep, d);
      }
    }
  }

  lemma NoAdjacentCons(x: char, r: string, c: char)
    requires NoAdjacent(r, c)
    requires x != c || r == [] || r[0] != c
    ensures NoAdjacent([x] + r, c)
  {
    var t := [x] + r;
    forall i | 0 <= i < |t| - 1 ensures !(t[i] == c && t[i + 1] == c) {
      if i > 0 {
        assert t[i] == r[i - 1] && t[i + 1] == r[i];
      }
    }
  }

  /** Collapsing runs into a single `c` (the `/ {2,}/g` step) leaves no two
      `c` side by side. */
  lemma {:induction false} ReplaceRunsNoAdjacent(s: string, c: char, min: nat)
    requires 1 <= min <= 2
    ensures NoAdjacent(ReplaceRuns(s, c, min, [c]), c)
    decreases |s|
  {
    if s != [] {
      if s[0] == c {
        var n := RunLength(s, c);
        var rest := ReplaceRuns(s[n..], c, min, [c]);
        ReplaceRunsNoAdjacent(s[n..], c, min);
        if s[n..] != [] {
          ReplaceRunsFirst(s[n..], c, min, [c]);
        }
        assert (if n >= min then [c] else s[..n]) == [c];
        NoAdjacentCons(c, rest, c);
      } else {
        var rest := ReplaceRuns(s[1..], c, min, [c]);
        ReplaceRunsNoAdjacent(s[1..], c, min);
        NoAdjacentCons(s[0], rest, c);
      }
    }
  }

  lemma {:induction false} ReplaceRunsWithout(s: string, c: char, min: nat, rep: string)
    requires c !in s
    ensures ReplaceRuns(s, c, min, rep) == s
    decreases |s|
  {
    if s != [] {
      ReplaceRunsWithout(s[1..], c, min, rep);
    }
  }

  /** Runs of length one are left alone by the `/ {2,}/g` step. */
  lemma {:induction false} ReplaceRunsSingles(s: string, c: char, rep: string)
    requires NoAdjacent(s, c)
    ensures ReplaceRuns(s, c, 2, rep) == s
    decreases |s|
  {
    if s != [] {
      assert NoAdjacent(s[1..], c) by {
        forall i | 0 <= i < |s[1..]| - 1 ensures !(s[1..][i] == c && s[1..][i + 1] == c) {
          assert s[1..][i] == s[i + 1] && s[1..][i + 1] == s[i + 2];
        }
      }
      ReplaceRunsSingles(s[1..], c, rep);
      if s[0] == c {
        assert RunLength(s, c) == 1 by {
          if |s| > 1 {
            assert s[1] != c;
          }
        }
        assert s[..1] + s[1..] == s;
      }
    }
  }

  /** Characters that are neither `c` nor produced by `rep` pass through in order. */
  lemma {:induction false} ReplaceRunsKeeps(s: string, c: char, min: nat, rep: string, keep: char -> bool)
    requires !keep(c)
    requires forall i :: 0 <= i < |rep| ==> !keep(rep[i])
    ensures Filter(ReplaceRuns(s, c, min, rep), keep) == Filter(s, keep)
    decreases |s|
  {
    if s != [] {
      if s[0] == c {
        var n := RunLength(s, c);
        ReplaceRunsKeeps(s[n..], c, min, rep, keep);
        KeepsAcrossRun(s, c, min, rep, keep);
      } else {
        ReplaceRunsKeeps(s[1..], c, min, rep, keep);
        KeepsAcrossChar(s, c, min, rep, keep);
      }
    }
  }

  /** A run of `c` and its replacement both filter to nothing. */
  lemma KeepsAcrossRun(s: string, c: char, min: nat, rep: string, keep: char -> bool)
    requires s != [] && s[0] == c && !keep(c)
    requires forall i :: 0 <= i < |rep| ==> !keep(rep[i])
    requires var n := RunLength(s, c);
      Filter(ReplaceRuns(s[n..], c, min, rep), keep) == Filter(s[n..], keep)
    ensures Filter(ReplaceRuns(s, c, min, rep), keep) == Filter(s, keep)
  {
    var n := RunLength(s, c);
    var run := s[..n];
    var tail := ReplaceRuns(s[n..], c, min, rep);
    RunFiltersOut(s, c, keep);
    if n >= min {
      assert ReplaceRuns(s, c, min, rep) == rep + tail;
      FilterConcat(rep, tail, keep);
      FilterNone(rep, keep);
    } else {
      assert ReplaceRuns(s, c, min, rep) == run + tail;
      FilterConcat(run, tail, keep);
    }
    assert s == run + s[n..];
    FilterConcat(run, s[n..], keep);
  }

  lemma RunFiltersOut(s: string, c: char, keep: char -> bool)
    requires !keep(c)
    ensures Filter(s[..RunLength(s, c)], keep) == []
  {
    var run := s[..RunLength(s, c)];
    assert forall i :: 0 <= i < |run| ==> run[i] == c;
    FilterNone(run, keep);
  }

  /** A character other than `c` is copied, and filtered alike on both sides. */
  lemma KeepsAcrossChar(s: string, c: char, min: nat, rep: string, keep: char -> bool)
    requires s != [] && s[0] != c
    requires Filter(ReplaceRuns(s[1..], c, min, rep), keep) == Filter(s[1..], keep)
    ensures Filter(ReplaceRuns(s, c, min, rep), keep) == Filter(s, keep)
  {
    var tail := ReplaceRuns(s[1..], c, min, rep);
    assert ReplaceRuns(s, c, min, rep) == [s[0]] + tail;
    FilterConcat([s[0]], tail, keep);
    FilterConcat([s[0]], s[1..], keep);
    assert [s[0]] + s[1..] == s;
  }

  // ---------------------------------------------------------------------
  // Properties of normaliseMultiLineString

  /** The result has no tab, no line feed, no two adjacent spaces, and no
      whitespace at either end. */
  lemma NormaliseShape(text: string)
    ensures var r := NormaliseMultiLineString(text);
      && '\t' !in r && '\n' !in r && NoAdjacent(r, ' ')
      && NoLeadingOrTrailingWhitespace(r)
  {
    var d := DeleteTabs(Trim(text));
    var l := ReplaceRuns(d, '\n', 1, " ");
    NoTabAfterDelete(Trim(text));
    ReplaceRunsAbsent(d, '\n', 1, " ", '\t');
    ReplaceRunsAbsent(l, ' ', 2, " ", '\t');
    ReplaceRunsRemoves(d, '\n', " ");
    ReplaceRunsAbsent(l, ' ', 2, " ", '\n');
    ReplaceRunsNoAdjacent(l, ' ', 2);
    NormaliseEnds(text);
  }

  lemma NoTabAfterDelete(t: string)
    ensures '\t' !in DeleteTabs(t)
  {
    var d := DeleteTabs(t);
    forall i | 0 <= i < |d| ensures d[i] != '\t' {
      assert NotTab(d[i]);
    }
  }

  /** The first and last characters of the trimmed text survive the three
      replacements, so the result has no whitespace at either end. */
  lemma NormaliseEnds(text: string)
    ensures NoLeadingOrTrailingWhitespace(NormaliseMultiLineString(text))
  {
    var t := Trim(text);
    if t != [] {
      EndsSurvive(t);
    }
  }

  /** Neither deleting tabs nor replacing LF and space runs touches a first
      or last character that is none of those three. */
  lemma EndsSurvive(t: string)
    requires t != []
    requires t[0] != '\t' && t[0] != '\n' && t[0] != ' '
    requires t[|t| - 1] != '\t' && t[|t| - 1] != '\n' && t[|t| - 1] != ' '
    ensures var r := ReplaceRuns(ReplaceRuns(DeleteTabs(t), '\n', 1, " "), ' ', 2, " ");
      r != [] && r[0] == t[0] && r[|r| - 1] == t[|t| - 1]
  {
    var d := DeleteTabs(t);
    FilterFirst(t, NotTab);
    FilterLast(t, NotTab);
    var l := ReplaceRuns(d, '\n', 1, " ");
    ReplaceRunsFirst(d, '\n', 1, " ");
    ReplaceRunsLast(d, '\n', 1, " ");
    ReplaceRunsFirst(l, ' ', 2, " ");
    ReplaceRunsLast(l, ' ', 2, " ");
  }

  /** Normalising a normalised string changes nothing. */
  lemma NormaliseIdempotent(text: string)
    ensures NormaliseMultiLineString(NormaliseMultiLineString(text)) == NormaliseMultiLineString(text)
  {
    var r := NormaliseMultiLineString(text);
    NormaliseShape(text);
    TrimIdentity(r);
    FilterAll(r, NotTab);
    ReplaceRunsWithout(r, '\n', 1, " ");
    ReplaceRunsSingles(r, ' ', " ");
  }

  /** Every character other than tab, line feed and space (carriage returns
      and the other whitespace inside the text included) survives, in order,
      from the trimmed text to the result. */
  lemma NormaliseKeeps(text: string, keep: char -> bool)
    requires forall c :: keep(c) ==> c != '\t' && c != '\n' && c != ' '
    ensures Filter(NormaliseMultiLineString(text), keep) == Filter(Trim(text), keep)
  {
    var t := Trim(text);
    var d := DeleteTabs(t);
    var l := ReplaceRuns(d, '\n', 1, " ");
    ReplaceRunsKeeps(l, ' ', 2, " ", keep);
    ReplaceRunsKeeps(d, '\n', 1, " ", keep);
    FilterFilter(t, NotTab, keep);
  }

  /** Every non-whitespace character of the input is in the result, in order. */
  lemma NormaliseKeepsNonWhitespace(text: string)
    ensures Filter(NormaliseMultiLineString(text), NotWhitespace) == Filter(text, NotWhitespace)
  {
    NormaliseKeeps(text, NotWhitespace);
    TrimKeepsNonWhitespace(text);
  }

  /** Tabs are deleted, not turned into spaces: on a text without spaces and
      line feeds the result is the trimmed text minus its tabs. */
  lemma NormaliseDeletesTabs(text: string)
    requires ' ' !in text && '\n' !in text
    ensures NormaliseMultiLineString(text) == DeleteTabs(Trim(text))
  {
    var t := Trim(text);
    var d := DeleteTabs(t);
    TrimAbsent(text, ' ');
    TrimAbsent(text, '\n');
    FilterAbsent(t, NotTab, ' ');
    FilterAbsent(t, NotTab, '\n');
    ReplaceRunsWithout(d, '\n', 1, " ");
    ReplaceRunsWithout(d, ' ', 2, " ");
  }

  /** Trimming adds no character. */
  lemma TrimAbsent(s: string, x: char)
    requires x !in s
    ensures x !in Trim(s)
  {
    var m := TrimStart(s);
    var t := TrimEnd(m);
    forall i | 0 <= i < |t| ensures t[i] != x {
      assert t[i] == m[i] == s[|s| - |m| + i];
    }
  }

  /** Filtering adds no character. */
  lemma {:induction false} FilterAbsent(s: string, keep: char -> bool, x: char)
    requires x !in s
    ensures x !in Filter(s, keep)
    decreases |s|
  {
    if s != [] {
      FilterAbsent(s[1..], keep, x);
    }
  }

  /** `"a\tb"` normalises to `"ab"`. */
  lemma NormaliseTabExample()
    ensures NormaliseMultiLineString("a\tb") == "ab"
  {
    var s := "a\tb";
    assert !IsJsWhitespace('a') && !IsJsWhitespace('b');
    assert TrimStart(s) == s && TrimEnd(s) == s;
    assert s[1..] == "\tb" && "\tb"[1..] == "b";
    assert Filter(s, NotTab) == "ab";
    NormaliseDeletesTabs(s);
  }
}
