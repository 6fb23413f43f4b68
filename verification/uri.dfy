/** `encodeURIComponent` (section 19.2.6 of ECMA-262, "URI Handling
    Functions"): characters of the unreserved set of that section are kept,
    every other character is written as the UTF-8 encoding of its code point,
    each octet as `%` and two upper-case hexadecimal digits (the percent-encoding
    of section 2.1 of RFC 3986). Its inverse, `decodeURIComponent`, is defined
    beside it and proved to undo it. */
module Uri {
  import opened Wrappers
  import opened Ascii

  /** uriUnreserved: ASCII letters, digits and `- _ . ! ~ * ' ( )`. */
  predicate IsUnreserved(c: char) {
    IsAlnum(c) || c == '-' || c == '_' || c == '.' || c == '!' || c == '~'
    || c == '*' || c == '\'' || c == '(' || c == ')'
  }

  predicate IsUpperHex(c: char) { IsDigit(c) || 'A' <= c <= 'F' }

  /** A character `encodeURIComponent` can emit. */
  predicate IsEncodedChar(c: char) { IsUnreserved(c) || c == '%' }

  type Byte = b: int | 0 <= b < 256

  function HexDigit(d: int): (c: char)
    requires 0 <= d < 16
    ensures IsUpperHex(c)
  {
    if d < 10 then ('0' as int + d) as char else ('A' as int + d - 10) as char
  }

  function HexValue(c: char): Option<int> {
    if IsDigit(c) then Some(c as int - '0' as int)
    else if 'A' <= c <= 'F' then Some(c as int - 'A' as int + 10)
    else if 'a' <= c <= 'f' then Some(c as int - 'a' as int + 10)
    else None
  }

  /** `%` and the octet in two upper-case hexadecimal digits. */
  function PercentOctet(b: Byte): (s: string)
    ensures |s| == 3 && s[0] == '%' && IsUpperHex(s[1]) && IsUpperHex(s[2])
  {
    ['%', HexDigit(b / 16), HexDigit(b % 16)]
  }

  /** The UTF-8 octets of a Unicode scalar value. */
  function Utf8(cp: int): (bs: seq<Byte>)
    requires 0 <= cp < 0x11_0000
    ensures 1 <= |bs| <= 4
  {
    if cp < 0x80 then [cp]
    else if cp < 0x800 then [0xC0 + cp / 64, 0x80 + cp % 64]
    else if cp < 0x1_0000 then [0xE0 + cp / 4096, 0x80 + (cp / 64) % 64, 0x80 + cp % 64]
    else [0xF0 + cp / 262144, 0x80 + (cp / 4096) % 64, 0x80 + (cp / 64) % 64, 0x80 + cp % 64]
  }

  function PercentOctets(bs: seq<Byte>): (s: string)
    ensures |s| == 3 * |bs|
  {
    if bs == [] then [] else PercentOctet(bs[0]) + PercentOctets(bs[1..])
  }

  /** Percent-encoded octets are made of `%` and upper-case hexadecimal digits. */
  lemma {:induction false} PercentOctetsChars(bs: seq<Byte>)
    ensures forall i :: 0 <= i < |PercentOctets(bs)| ==>
      IsUpperHex(PercentOctets(bs)[i]) || PercentOctets(bs)[i] == '%'
    decreases |bs|
  {
    if bs != [] {
      PercentOctetsChars(bs[1..]);
      var h, t := PercentOctet(bs[0]), PercentOctets(bs[1..]);
      assert PercentOctets(bs) == h + t;
      forall i | 3 <= i < |h + t| ensures (h + t)[i] == t[i - 3] {}
    }
  }

  function EncodeChar(c: char): (s: string)
    ensures s != []
    ensures forall i :: 0 <= i < |s| ==> IsEncodedChar(s[i])
  {
    if IsUnreserved(c) then [c]
    else
      PercentOctetsChars(Utf8(c as int));
      PercentOctets(Utf8(c as int))
  }

  /** `encodeURIComponent(s)`. Dafny strings hold Unicode scalar values only,
      so the URIError for a lone surrogate cannot arise. */
  function EncodeURIComponent(s: string): (r: string)
    ensures forall i :: 0 <= i < |r| ==> IsEncodedChar(r[i])
  {
    if s == [] then [] else EncodeChar(s[0]) + EncodeURIComponent(s[1..])
  }

  // ---------------------------------------------------------------------
  // decodeURIComponent

  /** The octet written as `%XY` at the start of `s`. */
  function OctetAt(s: string): Option<Byte> {
    if |s| >= 3 && s[0] == '%' then
      match (HexValue(s[1]), HexValue(s[2]))
      case (Some(h), Some(l)) =>
        if 0 <= h < 16 && 0 <= l < 16 then Some(h * 16 + l) else None
      case _ => None
    else None
  }

  predicate IsContinuation(b: Byte) { 0x80 <= b < 0xC0 }

  predicate IsScalar(cp: int) { 0 <= cp < 0xD800 || 0xE000 <= cp < 0x11_0000 }

  /** The character at the start of an encoded string and how many characters
      of the string encode it; `None` is the URIError case. */
  function DecodeCharAt(s: string): Option<(char, nat)> {
    if s == [] then None
    else if s[0] != '%' then Some((s[0], 1))
    else match OctetAt(s)
      case None => None
      case Some(b0) =>
        if b0 < 0x80 then Some((b0 as char, 3))
        else if 0xC0 <= b0 < 0xE0 then
          match OctetAt(s[3..])
          case Some(b1) =>
            var cp := (b0 as int - 0xC0) * 64 + (b1 as int - 0x80);
            if IsContinuation(b1) && 0x80 <= cp then Some((cp as char, 6)) else None
          case None => None
        else if 0xE0 <= b0 < 0xF0 && |s| >= 9 then
          match (OctetAt(s[3..]), OctetAt(s[6..]))
          case (Some(b1), Some(b2)) =>
            var cp := (b0 as int - 0xE0) * 4096 + (b1 as int - 0x80) * 64 + (b2 as int - 0x80);
            if IsContinuation(b1) && IsContinuation(b2) && 0x800 <= cp && IsScalar(cp)
            then Some((cp as char, 9)) else None
          case _ => None
        else if 0xF0 <= b0 < 0xF8 && |s| >= 12 then
          match (OctetAt(s[3..]), OctetAt(s[6..]), OctetAt(s[9..]))
          case (Some(b1), Some(b2), Some(b3)) =>
            var cp := (b0 as int - 0xF0) * 262144 + (b1 as int - 0x80) * 4096 + (b2 as int - 0x80) * 64
              + (b3 as int - 0x80);
            if IsContinuation(b1) && IsContinuation(b2) && IsContinuation(b3)
               && 0x1_0000 <= cp && IsScalar(cp)
            then Some((cp as char, 12)) else None
          case _ => None
        else None
  }

  /** `decodeURIComponent(s)`; `None` is the URIError case. */
  function DecodeURIComponent(s: string): Option<string>
    decreases |s|
  {
    if s == [] then Some([])
    else match DecodeCharAt(s)
      case None => None
      case Some((c, k)) =>
        if 1 <= k <= |s| then
          match DecodeURIComponent(s[k..])
          case None => None
          case Some(rest) => Some([c] + rest)
        else None
  }

  // ---------------------------------------------------------------------
  // The round trip

  lemma HexRoundTrip(d: int)
    requires 0 <= d < 16
    ensures HexValue(HexDigit(d)) == Some(d)
  {
  }

  lemma OctetRoundTrip(b: Byte, rest: string)
    ensures OctetAt(PercentOctet(b) + rest) == Some(b)
  {
    var s := PercentOctet(b) + rest;
    assert s[0] == '%' && s[1] == HexDigit(b / 16) && s[2] == HexDigit(b % 16);
    HexRoundTrip(b / 16);
    HexRoundTrip(b % 16);
  }

  /** The `k`-th `%XY` group of percent-encoded octets reads back as the
      `k`-th octet. */
  lemma {:induction false} OctetsAt(bs: seq<Byte>, rest: string, k: nat)
    requires k < |bs|
    ensures OctetAt((PercentOctets(bs) + rest)[3 * k..]) == Some(bs[k])
    decreases k
  {
    var t := PercentOctets(bs[1..]) + rest;
    var s := PercentOctets(bs) + rest;
    assert s == PercentOctet(bs[0]) + t;
    if k == 0 {
      assert s[0..] == s;
      OctetRoundTrip(bs[0], t);
    } else {
      OctetsAt(bs[1..], rest, k - 1);
      assert s[3 * k..] == t[3 * (k - 1)..];
      assert bs[1..][k - 1] == bs[k];
    }
  }

  lemma Utf8Decodes(c: char, rest: string)
    requires !IsUnreserved(c)
    ensures DecodeCharAt(PercentOctets(Utf8(c as int)) + rest) == Some((c, |PercentOctets(Utf8(c as int))|))
  {
    var cp := c as int;
    var bs := Utf8(cp);
    var s := PercentOctets(bs) + rest;
    OctetsAt(bs, rest, 0);
    assert s[0..] == s;
    if cp < 0x80 {
      OneOctetDecodes(c, s);
    } else if cp < 0x800 {
      OctetsAt(bs, rest, 1);
      TwoOctetsDecode(c, s);
    } else if cp < 0x1_0000 {
      OctetsAt(bs, rest, 1);
      OctetsAt(bs, rest, 2);
      ThreeOctetsDecode(c, s);
    } else {
      OctetsAt(bs, rest, 1);
      OctetsAt(bs, rest, 2);
      OctetsAt(bs, rest, 3);
      FourOctetsDecode(c, s);
    }
  }

  lemma OneOctetDecodes(c: char, s: string)
    requires c as int < 0x80
    requires |s| >= 3 && OctetAt(s) == Some(Utf8(c as int)[0])
    ensures DecodeCharAt(s) == Some((c, 3))
  {
  }

  lemma TwoOctetsDecode(c: char, s: string)
    requires 0x80 <= c as int < 0x800
    requires var bs := Utf8(c as int);
      && |s| >= 6 && OctetAt(s) == Some(bs[0]) && OctetAt(s[3..]) == Some(bs[1])
    ensures DecodeCharAt(s) == Some((c, 6))
  {
    var cp := c as int;
    assert cp == (cp / 64) * 64 + cp % 64;
  }

  lemma ThreeOctetsDecode(c: char, s: string)
    requires 0x800 <= c as int < 0x1_0000
    requires var bs := Utf8(c as int);
      && |s| >= 9 && OctetAt(s) == Some(bs[0]) && OctetAt(s[3..]) == Some(bs[1]) && OctetAt(s[6..]) == Some(bs[2])
    ensures DecodeCharAt(s) == Some((c, 9))
  {
    ThreeOctets(c as int);
  }

  lemma FourOctetsDecode(c: char, s: string)
    requires 0x1_0000 <= c as int
    requires var bs := Utf8(c as int);
      && |s| >= 12 && OctetAt(s) == Some(bs[0]) && OctetAt(s[3..]) == Some(bs[1])
      && OctetAt(s[6..]) == Some(bs[2]) && OctetAt(s[9..]) == Some(bs[3])
    ensures DecodeCharAt(s) == Some((c, 12))
  {
    FourOctets(c as int);
  }

  lemma ThreeOctets(cp: int)
    requires 0x800 <= cp < 0x1_0000
    ensures (cp / 4096) * 4096 + ((cp / 64) % 64) * 64 + cp % 64 == cp
  {
    var q := cp / 64;
    assert cp == q * 64 + cp % 64;
    assert q == (q / 64) * 64 + q % 64;
    assert q / 64 == cp / 4096;
  }

  lemma FourOctets(cp: int)
    requires 0x1_0000 <= cp < 0x11_0000
    ensures (cp / 262144) * 262144 + ((cp / 4096) % 64) * 4096 + ((cp / 64) % 64) * 64 + cp % 64 == cp
  {
    var q := cp / 64;
    var r := q / 64;
    assert cp == q * 64 + cp % 64;
    assert q == r * 64 + q % 64;
    assert r == (r / 64) * 64 + r % 64;
    assert r == cp / 4096;
    assert r / 64 == cp / 262144;
  }

  lemma EncodeCharDecodes(c: char, rest: string)
    ensures DecodeCharAt(EncodeChar(c) + rest) == Some((c, |EncodeChar(c)|))
  {
    if IsUnreserved(c) {
      assert (EncodeChar(c) + rest)[0] == c;
    } else {
      Utf8Decodes(c, rest);
    }
  }

  /** `decodeURIComponent` undoes `encodeURIComponent`. */
  lemma {:induction false} DecodeEncode(s: string)
    ensures DecodeURIComponent(EncodeURIComponent(s)) == Some(s)
    decreases |s|
  {
    if s != [] {
      var e := EncodeChar(s[0]);
      var rest := EncodeURIComponent(s[1..]);
      EncodeUnfold(s);
      EncodeCharDecodes(s[0], rest);
      DecodeEncode(s[1..]);
      DecodeStep(e, rest, s[0], s[1..]);
      assert [s[0]] + s[1..] == s;
    }
  }

  lemma EncodeUnfold(s: string)
    requires s != []
    ensures EncodeURIComponent(s) == EncodeChar(s[0]) + EncodeURIComponent(s[1..])
  {
  }

  /** One decoded character followed by the decoding of the rest. */
  lemma DecodeStep(e: string, rest: string, c: char, r: string)
    requires e != [] && DecodeCharAt(e + rest) == Some((c, |e|))
    requires DecodeURIComponent(rest) == Some(r)
    ensures DecodeURIComponent(e + rest) == Some([c] + r)
  {
    assert (e + rest)[|e|..] == rest;
  }

  /** Different strings never encode alike. */
  lemma EncodeInjective(s: string, t: string)
    requires EncodeURIComponent(s) == EncodeURIComponent(t)
    ensures s == t
  {
    DecodeEncode(s);
    DecodeEncode(t);
  }
}
