/** The two `toTitleCase` helpers.

    The multi-word one collects every match of the global, case-insensitive pattern `WORD`
    (an ASCII letter followed by the longest run of ASCII letters and digits),
    capitalises each match and joins them with single spaces; `text.match`
    returns `null` when nothing matches and iterating over `null` throws.

    The single-word one upper-cases `text[0]` and lower-cases the rest;
    `text[0]` is `undefined` on the empty string and calling `toUpperCase` on it
    throws. */
module TitleCase {
  import opened Wrappers
  import opened Ascii

  /** A string the `WORD` pattern matches in full. */
  predicate IsWord(w: string) {
    |w| > 0 && IsLetter(w[0]) && forall i :: 1 <= i < |w| ==> IsAlnum(w[i])
  }

  /** Length of the longest prefix of `s` made of ASCII letters and digits. */
  function AlnumRun(s: string): (n: nat)
    ensures n <= |s|
    ensures forall i :: 0 <= i < n ==> IsAlnum(s[i])
    ensures n < |s| ==> !IsAlnum(s[n])
  {
    if s == [] || !IsAlnum(s[0]) then 0 else 1 + AlnumRun(s[1..])
  }

  /** `text.match(WORD)`, with no match giving `[]` in place of `null`: the
      scan tries each position in turn and, after a match, resumes right after it. */
  function Words(text: string): (ws: seq<string>)
    ensures forall i :: 0 <= i < |ws| ==> IsWord(ws[i])
    decreases |text|
  {
    if text == [] then []
    else if IsLetter(text[0]) then
      var n := AlnumRun(text);
      [text[..n]] + Words(text[n..])
    else Words(text[1..])
  }

  /** `head.toUpperCase() + tail.toLowerCase()` on a non-empty string. */
  function Capitalise(w: string): (t: string)
    requires |w| > 0
    ensures |t| == |w|
    ensures t[0] == Upper(w[0]) && t[1..] == LowerAll(w[1..])
  {
    [Upper(w[0])] + LowerAll(w[1..])
  }

  /** `Array.prototype.join(sep)`. */
  function Join(ws: seq<string>, sep: string): string {
    if ws == [] then ""
    else if |ws| == 1 then ws[0]
    else ws[0] + sep + Join(ws[1..], sep)
  }

  /** The title-cased words that the loop pushes into `toJoin`. */
  function Titled(ws: seq<string>): (ts: seq<string>)
    requires forall i :: 0 <= i < |ws| ==> ws[i] != []
    ensures |ts| == |ws|
    ensures forall i :: 0 <= i < |ws| ==> ts[i] == Capitalise(ws[i])
  {
    seq(|ws|, i requires 0 <= i < |ws| => Capitalise(ws[i]))
  }

  /** What the multi-word `toTitleCase` returns or throws. */
  function TitleCaseOf(text: string): Result<string, Exception> {
    var ws := Words(text);
    if ws == [] then Failure(TypeError) else Success(Join(Titled(ws), " "))
  }

  /** The multi-word `toTitleCase`, loop for loop. */
  method ToTitleCase(text: string) returns (r: Result<string, Exception>)
    ensures r == TitleCaseOf(text)
    ensures r.Failure? <==> forall i :: 0 <= i < |text| ==> !IsLetter(text[i])
  {
    NoWordsIffNoLetter(text);
    var matches := Words(text);
    if matches == [] {
      return Failure(TypeError);
    }
    var toJoin: seq<string> := [];
    for k := 0 to |matches|
      invariant |toJoin| == k
      invariant forall j :: 0 <= j < k ==> toJoin[j] == Capitalise(matches[j])
    {
      var word := matches[k];
      var head, tail := word[0], word[1..];
      var title := [Upper(head)] + LowerAll(tail);
      toJoin := toJoin + [title];
    }
    assert toJoin == Titled(matches);
    r := Success(Join(toJoin, " "));
  }

  /** The single-word `toTitleCase`. */
  function TitleWord(text: string): (r: Result<string, Exception>)
    ensures r.Failure? <==> text == []
    ensures r.Success? ==> |r.value| == |text|
    ensures r.Success? ==> r.value[0] == Upper(text[0])
    ensures r.Success? ==> forall i :: 1 <= i < |text| ==> r.value[i] == Lower(text[i])
  {
    if text == [] then Failure(TypeError) else Success(Capitalise(text))
  }

  // ---------------------------------------------------------------------
  // The matches of WORD

  lemma {:induction false} AlnumRunStopsAt(a: string, c: char, b: string)
    requires !IsAlnum(c)
    ensures AlnumRun(a + [c] + b) == AlnumRun(a)
    decreases |a|
  {
    if a == [] {
      assert (a + [c] + b)[0] == c;
    } else {
      assert (a + [c] + b)[0] == a[0];
      if IsAlnum(a[0]) {
        assert (a + [c] + b)[1..] == a[1..] + [c] + b;
        AlnumRunStopsAt(a[1..], c, b);
      }
    }
  }

  /** A character that is neither a letter nor a digit separates the matches:
      it never belongs to one, and the matches on either side keep their order. */
  lemma {:induction false} WordsSplit(a: string, c: char, b: string)
    requires !IsAlnum(c)
    ensures Words(a + [c] + b) == Words(a) + Words(b)
    decreases |a|
  {
    var t := a + [c] + b;
    if a == [] {
      assert t[0] == c && t[1..] == b;
    } else if IsLetter(a[0]) {
      assert t[0] == a[0];
      AlnumRunStopsAt(a, c, b);
      var n := AlnumRun(a);
      assert t[..n] == a[..n];
      assert t[n..] == a[n..] + [c] + b;
      WordsSplit(a[n..], c, b);
    } else {
      assert t[0] == a[0];
      assert t[1..] == a[1..] + [c] + b;
      WordsSplit(a[1..], c, b);
    }
  }

  /** A leading run of characters that are not letters (digits included) is skipped. */
  lemma {:induction false} WordsSkipNonLetters(d: string, b: string)
    requires forall i :: 0 <= i < |d| ==> !IsLetter(d[i])
    ensures Words(d + b) == Words(b)
    decreases |d|
  {
    if d != [] {
      assert (d + b)[0] == d[0];
      assert (d + b)[1..] == d[1..] + b;
      assert Words(d + b) == Words(d[1..] + b);
      WordsSkipNonLetters(d[1..], b);
    } else {
      assert d + b == b;
    }
  }

  /** A string the pattern matches in full is one match. */
  lemma WordsOfWord(w: string)
    requires IsWord(w)
    ensures Words(w) == [w]
  {
    assert AlnumRun(w) == |w| by {
      AlnumRunOfAlnum(w);
    }
    assert w[..|w|] == w && w[|w|..] == [];
    assert Words(w) == [w] + Words([]);
  }

  lemma {:induction false} AlnumRunOfAlnum(s: string)
    requires forall i :: 0 <= i < |s| ==> IsAlnum(s[i])
    ensures AlnumRun(s) == |s|
    decreases |s|
  {
    if s != [] {
      AlnumRunOfAlnum(s[1..]);
    }
  }

  /** Splitting a join of matches on the word pattern gives the matches back. */
  lemma {:induction false} WordsOfJoin(ws: seq<string>)
    requires forall i :: 0 <= i < |ws| ==> IsWord(ws[i])
    ensures Words(Join(ws, " ")) == ws
    decreases |ws|
  {
    if ws == [] {
    } else if |ws| == 1 {
      WordsOfWord(ws[0]);
    } else {
      assert Join(ws, " ") == ws[0] + [' '] + Join(ws[1..], " ");
      WordsSplit(ws[0], ' ', Join(ws[1..], " "));
      WordsOfWord(ws[0]);
      WordsOfJoin(ws[1..]);
    }
  }

  /** There is no match exactly when the text holds no ASCII letter. */
  lemma {:induction false} NoWordsIffNoLetter(text: string)
    ensures Words(text) == [] <==> forall i :: 0 <= i < |text| ==> !IsLetter(text[i])
    decreases |text|
  {
    if text != [] {
      if !IsLetter(text[0]) {
        NoWordsIffNoLetter(text[1..]);
        assert forall i :: 1 <= i < |text| ==> text[i] == text[1..][i - 1];
      }
    }
  }

  // ---------------------------------------------------------------------
  // Properties of the multi-word toTitleCase

  lemma CapitaliseIsWord(w: string)
    requires IsWord(w)
    ensures IsWord(Capitalise(w))
  {
    var t := Capitalise(w);
    forall i | 1 <= i < |t| ensures IsAlnum(t[i]) {
      assert t[i] == Lower(w[i]);
    }
  }

  lemma CapitaliseIdempotent(w: string)
    requires |w| > 0
    ensures Capitalise(Capitalise(w)) == Capitalise(w)
  {
    var t := Capitalise(w);
    assert Capitalise(t)[0] == t[0];
    forall i | 1 <= i < |t| ensures Capitalise(t)[i] == t[i] {
      assert t[i] == Lower(w[i]);
    }
  }

  /** The multi-word result fails exactly on letterless text; otherwise it is
      the matches in input order, each capitalised, joined by single spaces. */
  lemma TitleCaseResult(text: string)
    ensures TitleCaseOf(text).Failure? <==> forall i :: 0 <= i < |text| ==> !IsLetter(text[i])
    ensures TitleCaseOf(text).Success? ==>
      Words(TitleCaseOf(text).value) == Titled(Words(text))
  {
    NoWordsIffNoLetter(text);
    var ws := Words(text);
    if ws != [] {
      forall i | 0 <= i < |ws| ensures IsWord(Titled(ws)[i]) {
        CapitaliseIsWord(ws[i]);
      }
      WordsOfJoin(Titled(ws));
    }
  }

  /** Title-casing a title-cased text changes nothing. */
  lemma TitleCaseIdempotent(text: string)
    requires TitleCaseOf(text).Success?
    ensures TitleCaseOf(TitleCaseOf(text).value) == TitleCaseOf(text)
  {
    var ws := Words(text);
    var t := TitleCaseOf(text).value;
    TitleCaseResult(text);
    assert Words(t) == Titled(ws);
    forall i | 0 <= i < |ws| ensures Titled(Titled(ws))[i] == Titled(ws)[i] {
      CapitaliseIdempotent(ws[i]);
    }
    assert Titled(Titled(ws)) == Titled(ws);
  }

  // ---------------------------------------------------------------------
  // Properties of the single-word toTitleCase

  lemma TitleWordIdempotent(text: string)
    requires text != []
    ensures TitleWord(TitleWord(text).value) == TitleWord(text)
  {
    CapitaliseIdempotent(text);
  }
}
