/** `format(text, properties)`: `text.replaceAll(/{([a-z0-9_]+)}/ig, ...)`
    where each match is replaced by `properties[name] || name`. One
    left-to-right pass: after a match the scan resumes behind its closing brace,
    and a replacement is never scanned again.

    `properties` is modelled by its own string-valued keys; a missing key and
    the empty string are the falsy cases. The pass is written in two halves:
    a scan over positions of the text cuts it into pieces (copied characters
    and matched names), and rendering replaces each piece. */
module Format {
  import opened Wrappers
  import opened Ascii

  /** `[a-z0-9_]` under the `i` flag. */
  predicate IsNameChar(c: char) { IsAlnum(c) || c == '_' }

  predicate IsName(name: string) {
    name != [] && forall i :: 0 <= i < |name| ==> IsNameChar(name[i])
  }

  /** `s[i..e]` is a placeholder: `{`, one or more name characters, `}`. */
  predicate IsPlaceholder(s: string, i: nat, e: nat) {
    && i + 3 <= e <= |s|
    && s[i] == '{'
    && (forall k :: i < k < e - 1 ==> IsNameChar(s[k]))
    && s[e - 1] == '}'
  }

  /** The end of the run of name characters that starts at `i`. */
  function NameEnd(s: string, i: nat): (j: nat)
    requires i <= |s|
    ensures i <= j <= |s|
    decreases |s| - i
  {
    if i == |s| || !IsNameChar(s[i]) then i else NameEnd(s, i + 1)
  }

  /** The run is made of name characters and stops at the first other one. */
  lemma {:induction false} NameEndSpec(s: string, i: nat)
    requires i <= |s|
    ensures forall k :: i <= k < NameEnd(s, i) ==> IsNameChar(s[k])
    ensures NameEnd(s, i) < |s| ==> !IsNameChar(s[NameEnd(s, i)])
    decreases |s| - i
  {
    if i < |s| && IsNameChar(s[i]) {
      NameEndSpec(s, i + 1);
    }
  }

  /** Whether the pattern matches at position `i`, and where the match ends. */
  function MatchAt(s: string, i: nat): (m: Option<nat>)
    requires i <= |s|
    ensures m.Some? ==> i + 3 <= m.value <= |s|
  {
    if i < |s| && s[i] == '{' then
      var j := NameEnd(s, i + 1);
      if i + 1 < j < |s| && s[j] == '}' then Some(j + 1) else None
    else None
  }

  /** `MatchAt` finds the placeholder at `i` exactly when there is one. */
  lemma MatchAtSpec(s: string, i: nat)
    requires i <= |s|
    ensures MatchAt(s, i).Some? ==> IsPlaceholder(s, i, MatchAt(s, i).value)
    ensures MatchAt(s, i).None? ==> forall e :: !IsPlaceholder(s, i, e)
  {
    if i < |s| && s[i] == '{' {
      NameEndSpec(s, i + 1);
    }
  }

  /** What the scan cuts the text into: characters outside any match, and
      the names of the matches. */
  datatype Piece = Literal(c: char) | Placeholder(name: string)

  /** The piece that starts at position `i`. */
  function Head(s: string, i: nat): Piece
    requires i < |s|
  {
    match MatchAt(s, i)
    case Some(e) => Placeholder(s[i + 1..e - 1])
    case None => Literal(s[i])
  }

  /** Where the scan resumes after the piece at `i`: behind the closing brace
      of a match, or at the next character. */
  function Next(s: string, i: nat): (n: nat)
    requires i < |s|
    ensures i < n <= |s|
  {
    match MatchAt(s, i)
    case Some(e) => e
    case None => i + 1
  }

  /** The pieces of `s` from position `i` on, left to right. */
  function ScanFrom(s: string, i: nat): seq<Piece>
    requires i <= |s|
    decreases |s| - i
  {
    if i == |s| then [] else [Head(s, i)] + ScanFrom(s, Next(s, i))
  }

  /** The value a match is replaced by: `properties[matched] || matched`. */
  function Substitute(name: string, properties: map<string, string>): string {
    if name in properties && properties[name] != "" then properties[name] else name
  }

  /** The output for a sequence of pieces. */
  function Render(pieces: seq<Piece>, properties: map<string, string>): string {
    if pieces == [] then []
    else
      match pieces[0]
      case Literal(c) => [c] + Render(pieces[1..], properties)
      case Placeholder(name) => Substitute(name, properties) + Render(pieces[1..], properties)
  }

  function Format(text: string, properties: map<string, string>): string {
    Render(ScanFrom(text, 0), properties)
  }

  /** `a` ends inside what could still become a placeholder: an opening brace
      followed only by name characters. */
  predicate DanglingOpen(a: string) {
    exists k :: 0 <= k < |a| && a[k] == '{' && forall j :: k < j < |a| ==> IsNameChar(a[j])
  }

  /** No placeholder can span the cut between `a` and `b`: either `a` leaves
      no `{name` open, or `b` starts with a character that can neither extend
      a name nor close it. */
  predicate Separated(a: string, b: string) {
    !DanglingOpen(a) || (b != [] && !IsNameChar(b[0]) && b[0] != '}')
  }

  /** No placeholder occurs anywhere in `s`. */
  ghost predicate NoPlaceholder(s: string) {
    forall i, e :: !IsPlaceholder(s, i, e)
  }

  // ---------------------------------------------------------------------
  // Matching

  /** A placeholder starting at a position has only one possible end: the
      closing brace is not a name character. */
  lemma PlaceholderUnique(s: string, i: nat, e: nat, e': nat)
    requires IsPlaceholder(s, i, e) && IsPlaceholder(s, i, e')
    ensures e == e'
  {
    assert !IsNameChar(s[e - 1]) && !IsNameChar(s[e' - 1]);
  }

  /** A run of name characters stops at the first character that is not one. */
  lemma {:induction false} NameEndBefore(s: string, i: nat, j: nat)
    requires i <= j < |s| && !IsNameChar(s[j])
    ensures NameEnd(s, i) <= j
    decreases j - i
  {
    if i < j && IsNameChar(s[i]) {
      NameEndBefore(s, i + 1, j);
    }
  }

  /** A run that stops inside `a`, or at its end when `b` cannot extend it,
      stops at the same place in `a + b`. */
  lemma {:induction false} NameEndConcat(a: string, b: string, i: nat)
    requires i <= |a|
    requires NameEnd(a, i) < |a| || b == [] || !IsNameChar(b[0])
    ensures NameEnd(a + b, i) == NameEnd(a, i)
    decreases |a| - i
  {
    var t := a + b;
    if i < |a| {
      assert t[i] == a[i];
      if IsNameChar(a[i]) {
        NameEndConcat(a, b, i + 1);
      }
    } else if b != [] {
      assert t[i] == b[0];
    }
  }

  /** A run in `b` is the same run in `a + b`, moved by `|a|`. */
  lemma {:induction false} NameEndShift(a: string, b: string, j: nat)
    requires j <= |b|
    ensures NameEnd(a + b, |a| + j) == |a| + NameEnd(b, j)
    decreases |b| - j
  {
    if j < |b| {
      assert (a + b)[|a| + j] == b[j];
      NameEndShift(a, b, j + 1);
    }
  }

  /** Matching at a position of `a` sees the same result in `a + b`. */
  lemma MatchAtConcat(a: string, b: string, i: nat)
    requires i < |a| && Separated(a, b)
    ensures MatchAt(a + b, i) == MatchAt(a, i)
  {
    var t := a + b;
    assert t[i] == a[i];
    if a[i] == '{' {
      if DanglingOpen(a) {
        NameEndConcat(a, b, i + 1);
        var n := NameEnd(a, i + 1);
        if n < |a| {
          assert t[n] == a[n];
        } else {
          assert t[n] == b[0];
        }
      } else {
        var j :| i < j < |a| && !IsNameChar(a[j]);
        NameEndBefore(a, i + 1, j);
        NameEndConcat(a, b, i + 1);
        var n := NameEnd(a, i + 1);
        assert t[n] == a[n];
      }
    }
  }

  /** Matching in `b` is unchanged by putting `a` in front of it. */
  lemma MatchAtShift(a: string, b: string, j: nat)
    requires j <= |b|
    ensures MatchAt(a + b, |a| + j) == if MatchAt(b, j).Some? then Some(|a| + MatchAt(b, j).value) else None
  {
    var t := a + b;
    if j < |b| {
      assert t[|a| + j] == b[j];
      NameEndShift(a, b, j + 1);
      var n := NameEnd(b, j + 1);
      if n < |b| {
        assert t[|a| + n] == b[n];
      }
    }
  }

  // ---------------------------------------------------------------------
  // The single pass

  /** The piece at a position of `b` is the same piece in `a + b`. */
  lemma HeadShift(a: string, b: string, j: nat)
    requires j < |b|
    ensures Head(a + b, |a| + j) == Head(b, j)
    ensures Next(a + b, |a| + j) == |a| + Next(b, j)
  {
    MatchAtShift(a, b, j);
    if MatchAt(b, j).Some? {
      var e := MatchAt(b, j).value;
      assert (a + b)[|a| + j + 1..|a| + e - 1] == b[j + 1..e - 1];
    } else {
      assert (a + b)[|a| + j] == b[j];
    }
  }

  /** The piece at a position of `a` is the same piece in `a + b`. */
  lemma HeadConcat(a: string, b: string, i: nat)
    requires i < |a| && Separated(a, b)
    ensures Head(a + b, i) == Head(a, i)
    ensures Next(a + b, i) == Next(a, i)
  {
    MatchAtConcat(a, b, i);
    if MatchAt(a, i).Some? {
      var e := MatchAt(a, i).value;
      assert (a + b)[i + 1..e - 1] == a[i + 1..e - 1];
    } else {
      assert (a + b)[i] == a[i];
    }
  }

  /** The scan of `a + b` from a position inside `b` is the scan of `b`. */
  lemma {:induction false} ScanFromShift(a: string, b: string, j: nat)
    requires j <= |b|
    ensures ScanFrom(a + b, |a| + j) == ScanFrom(b, j)
    decreases |b| - j
  {
    if j < |b| {
      ScanFromShift(a, b, Next(b, j));
      ScanShiftStep(a, b, j);
    }
  }

  lemma ScanShiftStep(a: string, b: string, j: nat)
    requires j < |b|
    requires ScanFrom(a + b, |a| + Next(b, j)) == ScanFrom(b, Next(b, j))
    ensures ScanFrom(a + b, |a| + j) == ScanFrom(b, j)
  {
    HeadShift(a, b, j);
  }

  /** The scan of `a + b` from a position inside `a` is the scan of `a`
      followed by the scan of `b`, when no placeholder spans the cut. */
  lemma {:induction false} ScanFromConcat(a: string, b: string, i: nat)
    requires i <= |a| && Separated(a, b)
    ensures ScanFrom(a + b, i) == ScanFrom(a, i) + ScanFrom(b, 0)
    decreases |a| - i
  {
    if i == |a| {
      ScanFromShift(a, b, 0);
    } else {
      HeadConcat(a, b, i);
      ScanFromConcat(a, b, Next(a, i));
      var h, r := [Head(a, i)], ScanFrom(a, Next(a, i));
      assert h + r + ScanFrom(b, 0) == h + (r + ScanFrom(b, 0));
    }
  }

  /** Rendering works piece by piece. */
  lemma {:induction false} RenderConcat(p: seq<Piece>, q: seq<Piece>, properties: map<string, string>)
    ensures Render(p + q, properties) == Render(p, properties) + Render(q, properties)
    decreases |p|
  {
    if p == [] {
      assert p + q == q;
    } else {
      assert (p + q)[0] == p[0] && (p + q)[1..] == p[1..] + q;
      RenderConcat(p[1..], q, properties);
    }
  }

  /** Formatting is compositional at any cut that does not split a placeholder. */
  lemma FormatConcat(a: string, b: string, properties: map<string, string>)
    requires Separated(a, b)
    ensures Format(a + b, properties) == Format(a, properties) + Format(b, properties)
  {
    ScanFromConcat(a, b, 0);
    RenderConcat(ScanFrom(a, 0), ScanFrom(b, 0), properties);
  }

  /** A placeholder on its own becomes the property's value when it is truthy
      and the bare name otherwise. */
  lemma FormatPlaceholder(name: string, properties: map<string, string>)
    requires IsName(name)
    ensures name in properties && properties[name] != "" ==>
      Format("{" + name + "}", properties) == properties[name]
    ensures !(name in properties && properties[name] != "") ==>
      Format("{" + name + "}", properties) == name
  {
    FormatOnePlaceholder(name, properties);
  }

  lemma FormatOnePlaceholder(name: string, properties: map<string, string>)
    requires IsName(name)
    ensures Format("{" + name + "}", properties) == Substitute(name, properties)
  {
    var t := "{" + name + "}";
    var e := |t|;
    assert IsPlaceholder(t, 0, e) by {
      forall k | 0 < k < e - 1 ensures IsNameChar(t[k]) {
        assert t[k] == name[k - 1];
      }
    }
    MatchAtSpec(t, 0);
    PlaceholderUnique(t, 0, e, MatchAt(t, 0).value);
    assert t[1..e - 1] == name;
    assert Head(t, 0) == Placeholder(name) && Next(t, 0) == e;
    assert ScanFrom(t, 0) == [Placeholder(name)];
    var ps := [Placeholder(name)];
    assert ps[0] == Placeholder(name) && ps[1..] == [];
    assert Render(ps, properties) == Substitute(name, properties) + [];
  }

  lemma ClosedIsNotDangling(x: string)
    requires x != [] && x[|x| - 1] == '}'
    ensures !DanglingOpen(x)
  {
    forall k | 0 <= k < |x| && x[k] == '{'
      ensures exists j :: k < j < |x| && !IsNameChar(x[j])
    {
      assert k != |x| - 1;
      assert !IsNameChar(x[|x| - 1]);
    }
  }

  /** The single pass, stated on a placeholder between two pieces of text:
      the text around it is formatted on its own and the placeholder is
      replaced by `Substitute`, whose result is never scanned again. */
  lemma FormatSplice(a: string, name: string, b: string, properties: map<string, string>)
    requires IsName(name)
    ensures Format(a + "{" + name + "}" + b, properties)
         == Format(a, properties) + Substitute(name, properties) + Format(b, properties)
  {
    var p := "{" + name + "}";
    var pb := p + b;
    SpliceText(a, name, b);
    ClosedIsNotDangling(p);
    OpenBraceSeparates(a, pb);
    FormatConcat(p, b, properties);
    FormatConcat(a, pb, properties);
    FormatOnePlaceholder(name, properties);
    var fa, fs, fb := Format(a, properties), Substitute(name, properties), Format(b, properties);
    assert fa + (fs + fb) == fa + fs + fb;
  }

  lemma SpliceText(a: string, name: string, b: string)
    ensures a + "{" + name + "}" + b == a + (("{" + name + "}") + b)
  {
  }

  /** A text that starts with `{` can follow any text. */
  lemma OpenBraceSeparates(a: string, b: string)
    requires b != [] && b[0] == '{'
    ensures Separated(a, b)
  {
    assert !IsNameChar('{');
  }

  /** A cut inside a placeholder is not a cut the pass respects: `{a}` is
      formatted as one match, its two halves as plain text. */
  lemma FormatCutInsidePlaceholder()
    ensures Format("{a" + "}", map[]) == "a"
    ensures Format("{a", map[]) + Format("}", map[]) == "{a}"
  {
    var properties: map<string, string> := map[];
    assert IsName("a") && "{" + "a" + "}" == "{a" + "}";
    FormatOnePlaceholder("a", properties);
    assert Substitute("a", properties) == "a";
    var h, c := "{a", "}";
    assert forall i :: 0 <= i < |h| ==> h[i] != '}';
    assert forall i :: 0 <= i < |c| ==> c[i] != '{';
    FormatWithoutPlaceholders(h, properties);
    FormatWithoutPlaceholders(c, properties);
  }

  /** A substituted value is not scanned again: a value that is itself a
      placeholder stays in the output as written. */
  lemma FormatNoRescan()
    ensures Format("{x}", map["x" := "{y}", "y" := "z"]) == "{y}"
  {
    var properties := map["x" := "{y}", "y" := "z"];
    assert IsName("x") && "{" + "x" + "}" == "{x}";
    FormatOnePlaceholder("x", properties);
    assert Substitute("x", properties) == "{y}";
  }

  /** Text with no placeholder anywhere is returned unchanged. */
  lemma FormatWithoutPlaceholders(text: string, properties: map<string, string>)
    requires NoPlaceholder(text)
    ensures Format(text, properties) == text
  {
    CopyFrom(text, 0, properties);
  }

  lemma {:induction false} CopyFrom(text: string, i: nat, properties: map<string, string>)
    requires i <= |text| && NoPlaceholder(text)
    ensures Render(ScanFrom(text, i), properties) == text[i..]
    decreases |text| - i
  {
    if i < |text| {
      MatchAtSpec(text, i);
      var rest := ScanFrom(text, i + 1);
      assert Head(text, i) == Literal(text[i]) && Next(text, i) == i + 1;
      assert ([Literal(text[i])] + rest)[1..] == rest;
      CopyFrom(text, i + 1, properties);
      assert text[i..] == [text[i]] + text[i + 1..];
    }
  }

  /** `{}` and `{a-b}` are not placeholders and are kept as written. */
  lemma FormatKeepsNonPlaceholders(properties: map<string, string>)
    ensures Format("{}", properties) == "{}"
    ensures Format("{a-b}", properties) == "{a-b}"
  {
    var d := "{a-b}";
    assert forall k :: 0 < k < |d| ==> d[k] != '{';
    assert !IsNameChar(d[2]);
    FormatWithoutPlaceholders("{}", properties);
    FormatWithoutPlaceholders(d, properties);
  }
}
