/** `constructURLWithSearchParams(url, params)`: for every entry of `params`,
    in entry order, append `&`, the encoded key, `=` and the encoded value to
    `url`. No `?` is inserted, so the first pair is also introduced by `&`.
    The entries are given as an ordered sequence of pairs. */
module SearchParams {
  import opened Wrappers
  import opened Uri

  /** The text one entry appends. */
  function PairText(entry: (string, string)): string {
    "&" + EncodeURIComponent(entry.0) + "=" + EncodeURIComponent(entry.1)
  }

  /** The whole `search` string the loop builds. */
  function Search(params: seq<(string, string)>): string {
    if params == [] then "" else PairText(params[0]) + Search(params[1..])
  }

  method ConstructURLWithSearchParams(url: string, params: seq<(string, string)>) returns (r: string)
    ensures r == url + Search(params)
    ensures params == [] ==> r == url
  {
    var search := "";
    for i := 0 to |params|
      invariant search == Search(params[..i])
    {
      var (key, value) := params[i];
      var pair := "&" + EncodeURIComponent(key) + "=" + EncodeURIComponent(value);
      assert pair == PairText(params[i]);
      SearchAppend(params[..i], params[i]);
      assert params[..i + 1] == params[..i] + [params[i]];
      search := search + pair;
    }
    assert params[..|params|] == params;
    r := url + search;
  }

  lemma {:induction false} SearchAppend(params: seq<(string, string)>, entry: (string, string))
    ensures Search(params + [entry]) == Search(params) + PairText(entry)
    decreases |params|
  {
    if params == [] {
      assert Search([entry]) == PairText(entry) + Search([]);
    } else {
      assert (params + [entry])[1..] == params[1..] + [entry];
      SearchAppend(params[1..], entry);
    }
  }

  // ---------------------------------------------------------------------
  // Splitting the search string back into pairs

  /** `s.split(sep)` for a one-character separator. */
  function Split(s: string, sep: char): (parts: seq<string>)
    ensures |parts| >= 1
    decreases |s|
  {
    if s == [] then [""]
    else
      var rest := Split(s[1..], sep);
      if s[0] == sep then [""] + rest else [[s[0]] + rest[0]] + rest[1..]
  }

  lemma {:induction false} SplitPrefix(x: string, s: string, sep: char)
    requires sep !in x
    ensures Split(x + s, sep) == [x + Split(s, sep)[0]] + Split(s, sep)[1..]
    decreases |x|
  {
    var p := Split(s, sep);
    if x == [] {
      assert x + s == s;
      assert x + p[0] == p[0];
      assert [p[0]] + p[1..] == p;
    } else {
      assert (x + s)[0] == x[0] && (x + s)[1..] == x[1..] + s;
      SplitPrefix(x[1..], s, sep);
      assert [x[0]] + (x[1..] + Split(s, sep)[0]) == x + Split(s, sep)[0];
    }
  }

  /** The encoded pairs of `params`, in order. */
  function EncodedPairs(params: seq<(string, string)>): (ps: seq<(string, string)>)
    ensures |ps| == |params|
    ensures forall i :: 0 <= i < |params| ==>
      ps[i] == (EncodeURIComponent(params[i].0), EncodeURIComponent(params[i].1))
  {
    seq(|params|, i requires 0 <= i < |params| =>
      (EncodeURIComponent(params[i].0), EncodeURIComponent(params[i].1)))
  }

  /** Read a search string back: split on `&`, expect an empty first piece,
      then split every other piece on `=` into exactly a key and a value. */
  function ParseSearch(search: string): Option<seq<(string, string)>> {
    var pieces := Split(search, '&');
    if pieces[0] != "" then None else ParsePieces(pieces[1..])
  }

  function ParsePieces(pieces: seq<string>): Option<seq<(string, string)>> {
    if pieces == [] then Some([])
    else
      var kv := Split(pieces[0], '=');
      if |kv| != 2 then None
      else match ParsePieces(pieces[1..])
        case None => None
        case Some(rest) => Some([(kv[0], kv[1])] + rest)
  }

  /** Decode every key and value of a parsed search string. */
  function DecodePairs(ps: seq<(string, string)>): Option<seq<(string, string)>> {
    if ps == [] then Some([])
    else match (DecodeURIComponent(ps[0].0), DecodeURIComponent(ps[0].1), DecodePairs(ps[1..]))
      case (Some(k), Some(v), Some(rest)) => Some([(k, v)] + rest)
      case _ => None
  }

  lemma NoSeparatorIn(s: string)
    ensures '&' !in EncodeURIComponent(s) && '=' !in EncodeURIComponent(s)
    ensures '?' !in EncodeURIComponent(s)
  {
    var e := EncodeURIComponent(s);
    assert forall i :: 0 <= i < |e| ==> IsEncodedChar(e[i]);
  }

  /** A `key=value` text splits on `=` into its key and value. */
  lemma SplitPair(k: string, v: string)
    requires '=' !in k && '=' !in v
    ensures Split(k + "=" + v, '=') == [k, v]
  {
    SplitPrefix(v, "", '=');
    assert v + "" == v;
    assert Split("", '=') == [""];
    assert Split(v, '=') == [v];
    var w := "=" + v;
    assert w[0] == '=' && w[1..] == v;
    assert Split(w, '=') == [""] + [v];
    assert k + "=" + v == k + w;
    SplitPrefix(k, w, '=');
    assert k + "" == k;
  }

  /** The pieces between the `&` separators are the `key=value` texts, in order. */
  lemma {:induction false} SplitSearch(params: seq<(string, string)>)
    ensures Split(Search(params), '&')[0] == ""
    ensures ParsePieces(Split(Search(params), '&')[1..]) == Some(EncodedPairs(params))
    decreases |params|
  {
    if params != [] {
      var k := EncodeURIComponent(params[0].0);
      var v := EncodeURIComponent(params[0].1);
      var rest := Search(params[1..]);
      SplitSearch(params[1..]);
      PairPiece(params[0], rest);
      assert Search(params) == PairText(params[0]) + rest;
      var pieces := Split(Search(params), '&')[1..];
      assert pieces[0] == k + "=" + v && pieces[1..] == Split(rest, '&')[1..];
      ParsePiecesCons(pieces, k, v, EncodedPairs(params[1..]));
      EncodedPairsCons(params);
    }
  }

  lemma ParsePiecesCons(pieces: seq<string>, k: string, v: string, rest: seq<(string, string)>)
    requires pieces != [] && Split(pieces[0], '=') == [k, v]
    requires ParsePieces(pieces[1..]) == Some(rest)
    ensures ParsePieces(pieces) == Some([(k, v)] + rest)
  {
  }

  lemma EncodedPairsCons(params: seq<(string, string)>)
    requires params != []
    ensures EncodedPairs(params)
         == [(EncodeURIComponent(params[0].0), EncodeURIComponent(params[0].1))] + EncodedPairs(params[1..])
  {
  }

  /** One entry's text followed by more pairs. */
  lemma PairPiece(entry: (string, string), rest: string)
    requires Split(rest, '&')[0] == ""
    ensures var x := EncodeURIComponent(entry.0) + "=" + EncodeURIComponent(entry.1);
      && Split(PairText(entry) + rest, '&') == [""] + [x] + Split(rest, '&')[1..]
      && Split(x, '=') == [EncodeURIComponent(entry.0), EncodeURIComponent(entry.1)]
  {
    NoSeparatorIn(entry.0);
    NoSeparatorIn(entry.1);
    PieceOf(EncodeURIComponent(entry.0), EncodeURIComponent(entry.1), rest);
  }

  lemma PieceOf(k: string, v: string, rest: string)
    requires '&' !in k && '=' !in k && '&' !in v && '=' !in v
    requires Split(rest, '&')[0] == ""
    ensures Split("&" + k + "=" + v + rest, '&') == [""] + [k + "=" + v] + Split(rest, '&')[1..]
    ensures Split(k + "=" + v, '=') == [k, v]
  {
    var x := k + "=" + v;
    SplitPair(k, v);
    assert '&' !in x;
    SplitSearchStep(x, rest);
    assert "&" + k + "=" + v + rest == "&" + x + rest;
  }

  lemma SplitSearchStep(x: string, rest: string)
    requires '&' !in x
    requires Split(rest, '&')[0] == ""
    ensures Split("&" + x + rest, '&') == [""] + [x] + Split(rest, '&')[1..]
  {
    var w := "&" + (x + rest);
    assert "&" + x + rest == w;
    assert w[0] == '&' && w[1..] == x + rest;
    assert Split(w, '&') == [""] + Split(x + rest, '&');
    SplitPrefix(x, rest, '&');
    assert x + "" == x;
  }

  /** Splitting the appended text on `&` and then on `=` gives back the encoded
      pairs in order, because encoded keys and values hold neither character;
      decoding them gives back the entries themselves. */
  lemma SearchRoundTrip(params: seq<(string, string)>)
    ensures ParseSearch(Search(params)) == Some(EncodedPairs(params))
    ensures DecodePairs(EncodedPairs(params)) == Some(params)
  {
    SplitSearch(params);
    DecodeEncodedPairs(params);
  }

  lemma {:induction false} DecodeEncodedPairs(params: seq<(string, string)>)
    ensures DecodePairs(EncodedPairs(params)) == Some(params)
    decreases |params|
  {
    if params != [] {
      DecodeEncode(params[0].0);
      DecodeEncode(params[0].1);
      assert EncodedPairs(params)[1..] == EncodedPairs(params[1..]);
      DecodeEncodedPairs(params[1..]);
      assert [params[0]] + params[1..] == params;
    }
  }

  /** The first pair is introduced by `&` too: no `?` is inserted. */
  lemma SearchSeparators(params: seq<(string, string)>)
    ensures params != [] ==> Search(params)[0] == '&'
  {
  }

  /** The appended text has no `?`. */
  lemma {:induction false} NoQuestionMark(params: seq<(string, string)>)
    ensures '?' !in Search(params)
    decreases |params|
  {
    if params != [] {
      NoSeparatorIn(params[0].0);
      NoSeparatorIn(params[0].1);
      NoQuestionMark(params[1..]);
    }
  }
}
