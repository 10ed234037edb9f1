/** UTF-8 as in section 4 of RFC 3629, and the short text cut from a body. */
module Utf8 {

  type Byte = b: int | 0 <= b < 256

  predicate Tail(b: Byte) {
    0x80 <= b <= 0xBF
  }

  /** UTF8-char: the well-formed encodings of one code point. */
  predicate IsChar(s: seq<Byte>) {
    match |s|
    case 1 => s[0] <= 0x7F
    case 2 => 0xC2 <= s[0] <= 0xDF && Tail(s[1])
    case 3 =>
      && Tail(s[2])
      && ((s[0] == 0xE0 && 0xA0 <= s[1] <= 0xBF)
          || (0xE1 <= s[0] <= 0xEC && Tail(s[1]))
          || (s[0] == 0xED && 0x80 <= s[1] <= 0x9F)
          || (0xEE <= s[0] <= 0xEF && Tail(s[1])))
    case 4 =>
      && Tail(s[2]) && Tail(s[3])
      && ((s[0] == 0xF0 && 0x90 <= s[1] <= 0xBF)
          || (0xF1 <= s[0] <= 0xF3 && Tail(s[1]))
          || (s[0] == 0xF4 && 0x80 <= s[1] <= 0x8F))
    case _ => false
  }

  /** How long the encoding that starts with b must be. */
  function Width(b: Byte): (n: nat)
    ensures 1 <= n <= 4
  {
    if b <= 0x7F then 1 else if b <= 0xDF then 2 else if b <= 0xEF then 3 else 4
  }

  /** utf8.Valid: nothing but well-formed encodings, read from the front. */
  predicate Valid(s: seq<Byte>)
    decreases |s|
  {
    s == [] || (var n := Width(s[0]); n <= |s| && IsChar(s[..n]) && Valid(s[n..]))
  }

  function Concat(chars: seq<seq<Byte>>): (r: seq<Byte>) {
    if chars == [] then [] else chars[0] + Concat(chars[1..])
  }

  ghost predicate Octets(chars: seq<seq<Byte>>, s: seq<Byte>) {
    (forall i :: 0 <= i < |chars| ==> IsChar(chars[i])) && Concat(chars) == s
  }

  lemma ValidPlus(octets: seq<Byte>, rest: seq<Byte>)
    requires IsChar(octets) && Valid(rest)
    ensures Valid(octets + rest)
  {
    var s := octets + rest;
    assert Width(s[0]) == |octets|;
    assert s[..|octets|] == octets && s[|octets|..] == rest;
  }

  lemma {:induction false} ValidSplits(s: seq<Byte>) returns (chars: seq<seq<Byte>>)
    requires Valid(s)
    ensures Octets(chars, s)
    decreases |s|
  {
    if s == [] {
      chars := [];
    } else {
      var n := Width(s[0]);
      var rest := ValidSplits(s[n..]);
      chars := [s[..n]] + rest;
      assert chars[1..] == rest;
    }
  }

  lemma {:induction false} SplitsValid(chars: seq<seq<Byte>>, s: seq<Byte>)
    requires Octets(chars, s)
    ensures Valid(s)
    decreases |chars|
  {
    if chars != [] {
      var rest := Concat(chars[1..]);
      SplitsValid(chars[1..], rest);
      ValidPlus(chars[0], rest);
    }
  }

  /** The grammar: valid is UTF8-octets = *( UTF8-char ). */
  lemma ValidIsOctets(s: seq<Byte>)
    ensures Valid(s) <==> exists chars :: Octets(chars, s)
  {
    if Valid(s) {
      var chars := ValidSplits(s);
    }
    if chars :| Octets(chars, s) {
      SplitsValid(chars, s);
    }
  }

  /** A valid text cut anywhere is valid again after giving up at most 3 bytes. */
  lemma {:induction false} CutNear(s: seq<Byte>, k: nat) returns (n: nat)
    requires Valid(s) && k <= |s|
    ensures n <= k <= n + 3 && Valid(s[..n])
    decreases |s|
  {
    if s == [] || k < Width(s[0]) {
      n := 0;
    } else {
      var w := Width(s[0]);
      var more := CutNear(s[w..], k - w);
      n := w + more;
      ValidPlus(s[..w], s[w..][..more]);
      PrefixPlus(s, w, more);
    }
  }

  lemma PrefixPlus(s: seq<Byte>, n: nat, more: nat)
    requires n + more <= |s|
    ensures s[..n + more] == s[..n] + s[n..][..more]
  {
  }

  function Min(a: int, b: int): (n: int) {
    if a < b then a else b
  }

  /** The trimming loop of extractShortText on the first size bytes of a body:
      the longest valid prefix that fits; all of a valid body that fits, and at
      most 3 bytes short of size for one that does not. */
  method ShortText(body: seq<Byte>, size: int) returns (text: seq<Byte>)
    ensures text <= body && |text| <= (if size < 0 then 0 else size) && Valid(text)
    ensures forall n :: 0 <= n <= Min(size, |body|) && Valid(body[..n]) ==> n <= |text|
    ensures Valid(body) && |body| <= size ==> text == body
    ensures Valid(body) && 0 <= size < |body| ==> size - 3 <= |text|
  {
    if size <= 0 {
      return [];
    }
    var buf := body[..Min(size, |body|)];
    ghost var full := buf;
    while |buf| > 0 && !Valid(buf)
      invariant buf <= full
      invariant forall n :: |buf| < n <= |full| ==> !Valid(body[..n])
    {
      assert buf == body[..|buf|];
      buf := buf[..|buf| - 1];
    }
    text := buf;
    assert text == body[..|text|];
    if Valid(body) {
      var n := CutNear(body, |full|);
      assert |full| == |body| ==> body[..|full|] == body;
    }
  }

  /** The code point one encoding stands for. */
  function RuneOf(octets: seq<Byte>): (n: int)
    requires IsChar(octets)
  {
    var a: int := octets[0];
    if |octets| == 1 then a
    else
      var b: int := octets[1] - 0x80;
      if |octets| == 2 then (a - 0xC0) * 64 + b
      else
        var d: int := octets[2] - 0x80;
        if |octets| == 3 then (a - 0xE0) * 4096 + b * 64 + d
        else (a - 0xF0) * 262144 + b * 4096 + d * 64 + (octets[3] - 0x80)
  }

  /** []rune(s) of a valid string. */
  function Runes(s: seq<Byte>): (runes: seq<int>)
    requires Valid(s)
    ensures (runes == []) == (s == []) && |runes| <= |s|
    decreases |s|
  {
    if s == [] then [] else [RuneOf(s[..Width(s[0])])] + Runes(s[Width(s[0])..])
  }

  // ---- What the octets stand for ----

  /** A Unicode scalar value: a code point that is no surrogate. */
  predicate Scalar(n: int) {
    0 <= n <= 0x10FFFF && !(0xD800 <= n <= 0xDFFF)
  }

  /** The last six bits of n as a continuation octet. */
  function Last(n: nat): (octet: Byte) {
    0x80 + n % 0x40
  }

  /** Encoding by ranges, six bits to each continuation octet: section 3 of RFC 3629. */
  function Encode(n: int): (octets: seq<Byte>)
    requires Scalar(n)
  {
    if n <= 0x7F then [n]
    else if n <= 0x7FF then [0xC0 + n / 0x40, Last(n)]
    else if n <= 0xFFFF then [0xE0 + n / 0x40 / 0x40, Last(n / 0x40), Last(n)]
    else [0xF0 + n / 0x40 / 0x40 / 0x40, Last(n / 0x40 / 0x40), Last(n / 0x40), Last(n)]
  }

  /** What six bits leave and what they take. */
  lemma SixBits(n: nat)
    ensures n == n / 0x40 * 0x40 + (Last(n) - 0x80)
  {
  }

  lemma SixBitsOf(high: nat, octet: Byte)
    requires Tail(octet)
    ensures (high * 0x40 + (octet - 0x80)) / 0x40 == high && Last(high * 0x40 + (octet - 0x80)) == octet
  {
  }

  /** Decoding undoes encoding. */
  lemma DecodeEncode(n: int)
    requires Scalar(n)
    ensures IsChar(Encode(n)) && RuneOf(Encode(n)) == n
  {
    SixBits(n);
    SixBits(n / 0x40);
    SixBits(n / 0x40 / 0x40);
  }

  lemma EncodeDecodeFour(octets: seq<Byte>)
    requires IsChar(octets) && |octets| == 4
    ensures Scalar(RuneOf(octets)) && Encode(RuneOf(octets)) == octets
  {
    var a: int := octets[0];
    var top := (a - 0xF0) * 0x40 + (octets[1] - 0x80);
    var high := top * 0x40 + (octets[2] - 0x80);
    SixBitsOf(a - 0xF0, octets[1]);
    SixBitsOf(top, octets[2]);
    SixBitsOf(high, octets[3]);
    assert RuneOf(octets) == high * 0x40 + (octets[3] - 0x80);
  }

  /** And encoding decoding: every well-formed encoding is some scalar value's. */
  lemma EncodeDecode(octets: seq<Byte>)
    requires IsChar(octets)
    ensures Scalar(RuneOf(octets)) && Encode(RuneOf(octets)) == octets
  {
    var a: int := octets[0];
    if |octets| == 2 {
      SixBitsOf(a - 0xC0, octets[1]);
    } else if |octets| == 3 {
      var high := (a - 0xE0) * 0x40 + (octets[1] - 0x80);
      SixBitsOf(a - 0xE0, octets[1]);
      SixBitsOf(high, octets[2]);
      assert RuneOf(octets) == high * 0x40 + (octets[2] - 0x80);
    } else if |octets| == 4 {
      EncodeDecodeFour(octets);
    }
  }

  /** text encodes the code points cps. */
  ghost predicate Encodes(cps: seq<int>, text: seq<Byte>)
    decreases |cps|
  {
    if cps == [] then text == []
    else Scalar(cps[0]) && Encode(cps[0]) <= text && Encodes(cps[1..], text[|Encode(cps[0])|..])
  }

  /** The runes of a text that begins with a well-formed encoding. */
  lemma RunesPlus(octets: seq<Byte>, rest: seq<Byte>)
    requires IsChar(octets) && Valid(rest)
    ensures Valid(octets + rest) && Runes(octets + rest) == [RuneOf(octets)] + Runes(rest)
  {
    var s := octets + rest;
    ValidPlus(octets, rest);
    assert Width(s[0]) == |octets|;
    assert s[..|octets|] == octets && s[|octets|..] == rest;
  }

  /** A text that encodes code points is valid, and those are its runes. */
  lemma {:induction false} RunesOfEncoded(cps: seq<int>, text: seq<Byte>)
    requires Encodes(cps, text)
    ensures Valid(text) && Runes(text) == cps
    decreases |cps|
  {
    if cps != [] {
      var octets := Encode(cps[0]);
      var rest := text[|octets|..];
      DecodeEncode(cps[0]);
      RunesOfEncoded(cps[1..], rest);
      RunesPlus(octets, rest);
      assert text == octets + rest && cps == [cps[0]] + cps[1..];
    }
  }

  /** And every valid text encodes its runes. */
  lemma {:induction false} RunesEncode(text: seq<Byte>)
    requires Valid(text)
    ensures Encodes(Runes(text), text)
    decreases |text|
  {
    if text != [] {
      var n := Width(text[0]);
      EncodeDecode(text[..n]);
      RunesEncode(text[n..]);
      assert Runes(text)[1..] == Runes(text[n..]);
    }
  }
}
