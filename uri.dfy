/** Percent-encoding as ECMAScript's `encodeURIComponent` and `decodeURIComponent`
    define it (ECMA-262, section 19.2.6, "URI Handling Functions"): characters
    outside the unreserved set are written as the UTF-8 bytes of their code
    point, each byte as `%` and two upper-case hexadecimal digits. Also a
    minimal reader of `key=value&key=value` query strings, enough to say what a
    browser following a link sends back to the server. */
module Uri {
  import opened Js

  type Byte = b: int | 0 <= b < 256

  /** The characters `encodeURIComponent` leaves as they are:
      letters, decimal digits and the marks `- _ . ! ~ * ' ( )`. */
  predicate Unreserved(c: char) {
    ('A' <= c <= 'Z') || ('a' <= c <= 'z') || ('0' <= c <= '9') || c in "-_.!~*'()"
  }

  const HexDigits: string := "0123456789ABCDEF"

  function HexDigit(n: int): char
    requires 0 <= n < 16
  {
    HexDigits[n]
  }

  /** The value of a hexadecimal digit, in either case. */
  function HexValue(c: char): Option<int> {
    if '0' <= c <= '9' then Some(c as int - '0' as int)
    else if 'A' <= c <= 'F' then Some(c as int - 'A' as int + 10)
    else if 'a' <= c <= 'f' then Some(c as int - 'a' as int + 10)
    else None
  }

  lemma HexRoundTrip(n: int)
    requires 0 <= n < 16
    ensures HexValue(HexDigit(n)) == Some(n)
  {
  }

  /** The UTF-8 encoding of a Unicode scalar value. */
  function Utf8(c: char): (bs: seq<Byte>)
    ensures 1 <= |bs| <= 4
  {
    var cp := c as int;
    if cp < 0x80 then [cp]
    else if cp < 0x800 then [0xC0 + cp / 64, 0x80 + cp % 64]
    else if cp < 0x10000 then [0xE0 + cp / 4096, 0x80 + (cp / 64) % 64, 0x80 + cp % 64]
    else [0xF0 + cp / 262144, 0x80 + (cp / 4096) % 64, 0x80 + (cp / 64) % 64, 0x80 + cp % 64]
  }

  function PercentByte(b: Byte): string {
    ['%', HexDigit(b / 16), HexDigit(b % 16)]
  }

  function PercentBytes(bs: seq<Byte>): (t: string)
    ensures |t| == 3 * |bs|
  {
    if bs == [] then [] else PercentByte(bs[0]) + PercentBytes(bs[1..])
  }

  function EncodeChar(c: char): string {
    if Unreserved(c) then [c] else PercentBytes(Utf8(c))
  }

  /** `encodeURIComponent(s)` for a string of Unicode scalar values. A Dafny
      `char` cannot be a lone surrogate, so the URIError the standard raises
      for one has no counterpart here. Text made only of unreserved characters
      is left as it is, and nothing gets shorter. */
  function EncodeURIComponent(s: string): (r: string)
    ensures |r| >= |s|
    ensures (forall i :: 0 <= i < |s| ==> Unreserved(s[i])) ==> r == s
  {
    if s == [] then [] else EncodeChar(s[0]) + EncodeURIComponent(s[1..])
  }

  // ---------------------------------------------------------------- decoding

  /** The byte written as `%XX` at position `i` of `t`, if one is there. */
  function ByteAt(t: string, i: nat): (r: Option<Byte>)
    ensures r.Some? ==> i + 3 <= |t|
  {
    if i + 3 <= |t| && t[i] == '%' && HexValue(t[i + 1]).Some? && HexValue(t[i + 2]).Some? then
      var hi := HexValue(t[i + 1]).value;
      var lo := HexValue(t[i + 2]).value;
      if 0 <= hi < 16 && 0 <= lo < 16 then Some(hi * 16 + lo) else None
    else None
  }

  /** Reads the continuation bytes `i` .. `n - 1` of a multi-byte sequence,
      each written as `%XX` at offset `3 * i`, folding their payload into `acc`. */
  function Continuation(t: string, i: nat, n: nat, acc: int): (r: Option<int>)
    requires i <= n
    ensures r.Some? && i < n ==> 3 * n <= |t|
    decreases n - i
  {
    if i == n then Some(acc)
    else match ByteAt(t, 3 * i)
      case None => None
      case Some(b) =>
        if 0x80 <= b < 0xC0 then Continuation(t, i + 1, n, acc * 64 + (b - 0x80)) else None
  }

  /** Finishes an `n`-byte sequence whose lead byte carries `lead`; rejects
      overlong forms (below `least`), surrogates and values above U+10FFFF. */
  function Finish(t: string, n: nat, lead: int, least: int): (r: Option<(char, nat)>)
    requires 2 <= n && 0 <= least
    ensures r.Some? ==> r.value.1 == 3 * n <= |t|
  {
    match Continuation(t, 1, n, lead)
    case None => None
    case Some(cp) =>
      if least <= cp <= 0x10FFFF && !(0xD800 <= cp < 0xE000) then Some((cp as char, 3 * n)) else None
  }

  /** Decodes the escape sequence at the start of `t` (which starts with `%`):
      the character and the number of input characters it used. */
  function DecodeEscape(t: string): (r: Option<(char, nat)>)
    ensures r.Some? ==> 3 <= r.value.1 <= |t|
  {
    match ByteAt(t, 0)
    case None => None
    case Some(b) =>
      if b < 0x80 then Some((b as char, 3))
      else if 0xC0 <= b < 0xE0 then Finish(t, 2, b - 0xC0, 0x80)
      else if 0xE0 <= b < 0xF0 then Finish(t, 3, b - 0xE0, 0x800)
      else if 0xF0 <= b < 0xF8 then Finish(t, 4, b - 0xF0, 0x10000)
      else None
  }

  function Prepend(c: char, r: Option<string>): Option<string> {
    match r
    case None => None
    case Some(s) => Some([c] + s)
  }

  /** `decodeURIComponent(t)`; `None` is the URIError it throws on a malformed escape. */
  function DecodeURIComponent(t: string): Option<string>
    decreases |t|
  {
    if t == [] then Some([])
    else if t[0] != '%' then Prepend(t[0], DecodeURIComponent(t[1..]))
    else match DecodeEscape(t)
      case None => None
      case Some((c, k)) => Prepend(c, DecodeURIComponent(t[k..]))
  }

  // ------------------------------------------------------------- round trip

  lemma {:induction false} PercentBytesAt(bs: seq<Byte>, i: nat)
    requires i < |bs|
    ensures PercentBytes(bs)[3 * i] == '%'
    ensures HexValue(PercentBytes(bs)[3 * i + 1]) == Some(bs[i] / 16)
    ensures HexValue(PercentBytes(bs)[3 * i + 2]) == Some(bs[i] % 16)
  {
    if i > 0 {
      PercentBytesAt(bs[1..], i - 1);
      var j := 3 * (i - 1);
      assert 3 * i == j + 3;
      assert PercentBytes(bs) == PercentByte(bs[0]) + PercentBytes(bs[1..]);
    } else {
      HexRoundTrip(bs[0] / 16);
      HexRoundTrip(bs[0] % 16);
    }
  }

  lemma ByteAtPercentBytes(bs: seq<Byte>, rest: string, i: nat)
    requires i < |bs|
    ensures ByteAt(PercentBytes(bs) + rest, 3 * i) == Some(bs[i])
  {
    EscapeAtPercentBytes(bs, rest, i);
    ByteAtEscape(PercentBytes(bs) + rest, 3 * i, bs[i]);
  }

  lemma EscapeAtPercentBytes(bs: seq<Byte>, rest: string, i: nat)
    requires i < |bs|
    ensures EscapeAt(PercentBytes(bs) + rest, 3 * i, bs[i])
  {
    var p, t, j := PercentBytes(bs), PercentBytes(bs) + rest, 3 * i;
    PercentBytesAt(bs, i);
    assert t[j] == p[j] && t[j + 1] == p[j + 1] && t[j + 2] == p[j + 2];
  }

  /** `t` holds the escape `%XX` of byte `b` at position `j`. */
  predicate EscapeAt(t: string, j: nat, b: Byte) {
    j + 3 <= |t| && t[j] == '%' && HexValue(t[j + 1]) == Some(b / 16) && HexValue(t[j + 2]) == Some(b % 16)
  }

  lemma ByteAtEscape(t: string, j: nat, b: Byte)
    requires EscapeAt(t, j, b)
    ensures ByteAt(t, j) == Some(b)
  {
    assert 0 <= b / 16 < 16 && 0 <= b % 16 < 16 && b / 16 * 16 + b % 16 == b;
  }

  lemma {:induction false} PercentBytesRest(bs: seq<Byte>, rest: string)
    ensures (PercentBytes(bs) + rest)[3 * |bs|..] == rest
  {
  }

  lemma Utf8Continuation2(c: char, rest: string)
    requires 0x80 <= c as int < 0x800
    ensures Continuation(PercentBytes(Utf8(c)) + rest, 1, 2, (c as int) / 64) == Some(c as int)
  {
    var bs, t := Utf8(c), PercentBytes(Utf8(c)) + rest;
    ByteAtPercentBytes(bs, rest, 1);
  }

  lemma DivSplit64(x: int)
    requires 0 <= x
    ensures x / 4096 * 64 + (x / 64) % 64 == x / 64
  {
  }

  lemma DivSplit4096(x: int)
    requires 0 <= x
    ensures x / 262144 * 64 + (x / 4096) % 64 == x / 4096
  {
  }

  lemma Utf8Continuation3(c: char, rest: string)
    requires 0x800 <= c as int < 0x10000
    ensures Continuation(PercentBytes(Utf8(c)) + rest, 1, 3, (c as int) / 4096) == Some(c as int)
  {
    var cp, bs, t := c as int, Utf8(c), PercentBytes(Utf8(c)) + rest;
    ByteAtPercentBytes(bs, rest, 1);
    ByteAtPercentBytes(bs, rest, 2);
    DivSplit64(cp);
    assert Continuation(t, 1, 3, cp / 4096) == Continuation(t, 2, 3, cp / 64);
  }

  lemma ContinuationThree(t: string, acc: int, b1: Byte, b2: Byte, b3: Byte)
    requires ByteAt(t, 3) == Some(b1) && ByteAt(t, 6) == Some(b2) && ByteAt(t, 9) == Some(b3)
    requires 0x80 <= b1 < 0xC0 && 0x80 <= b2 < 0xC0 && 0x80 <= b3 < 0xC0
    ensures Continuation(t, 1, 4, acc) == Some(((acc * 64 + (b1 - 0x80)) * 64 + (b2 - 0x80)) * 64 + (b3 - 0x80))
  {
  }

  lemma Base64Digits(cp: int)
    requires 0 <= cp
    ensures ((cp / 262144 * 64 + (cp / 4096) % 64) * 64 + (cp / 64) % 64) * 64 + cp % 64 == cp
  {
    calc {
      ((cp / 262144 * 64 + (cp / 4096) % 64) * 64 + (cp / 64) % 64) * 64 + cp % 64;
      == { DivSplit4096(cp); }
      (cp / 4096 * 64 + (cp / 64) % 64) * 64 + cp % 64;
      == { DivSplit64(cp); }
      cp / 64 * 64 + cp % 64;
      cp;
    }
  }

  lemma Utf8Continuation4(c: char, rest: string)
    requires 0x10000 <= c as int
    ensures Continuation(PercentBytes(Utf8(c)) + rest, 1, 4, (c as int) / 262144) == Some(c as int)
  {
    var cp, bs, t := c as int, Utf8(c), PercentBytes(Utf8(c)) + rest;
    ByteAtPercentBytes(bs, rest, 1);
    ByteAtPercentBytes(bs, rest, 2);
    ByteAtPercentBytes(bs, rest, 3);
    ContinuationThree(t, cp / 262144, bs[1], bs[2], bs[3]);
    assert bs[1] - 0x80 == (cp / 4096) % 64 && bs[2] - 0x80 == (cp / 64) % 64 && bs[3] - 0x80 == cp % 64;
    Base64Digits(cp);
  }

  lemma DecodeEscape1(c: char, rest: string)
    requires c as int < 0x80
    ensures DecodeEscape(PercentBytes(Utf8(c)) + rest) == Some((c, 3))
  {
    var t := PercentBytes(Utf8(c)) + rest;
    ByteAtPercentBytes(Utf8(c), rest, 0);
    assert ByteAt(t, 0) == Some(c as int);
  }

  lemma DecodeEscape2(c: char, rest: string)
    requires 0x80 <= c as int < 0x800
    ensures DecodeEscape(PercentBytes(Utf8(c)) + rest) == Some((c, 6))
  {
    var cp, t := c as int, PercentBytes(Utf8(c)) + rest;
    ByteAtPercentBytes(Utf8(c), rest, 0);
    assert ByteAt(t, 0) == Some(0xC0 + cp / 64);
    Utf8Continuation2(c, rest);
    assert Finish(t, 2, cp / 64, 0x80) == Some((c, 6));
  }

  lemma DecodeEscape3(c: char, rest: string)
    requires 0x800 <= c as int < 0x10000
    ensures DecodeEscape(PercentBytes(Utf8(c)) + rest) == Some((c, 9))
  {
    var cp, t := c as int, PercentBytes(Utf8(c)) + rest;
    ByteAtPercentBytes(Utf8(c), rest, 0);
    assert ByteAt(t, 0) == Some(0xE0 + cp / 4096);
    Utf8Continuation3(c, rest);
    assert Finish(t, 3, cp / 4096, 0x800) == Some((c, 9));
  }

  lemma DecodeEscape4(c: char, rest: string)
    requires 0x10000 <= c as int
    ensures DecodeEscape(PercentBytes(Utf8(c)) + rest) == Some((c, 12))
  {
    var cp, t := c as int, PercentBytes(Utf8(c)) + rest;
    ByteAtPercentBytes(Utf8(c), rest, 0);
    assert ByteAt(t, 0) == Some(0xF0 + cp / 262144);
    Utf8Continuation4(c, rest);
    assert Finish(t, 4, cp / 262144, 0x10000) == Some((c, 12));
  }

  /** Decoding the escape sequence of a reserved character gives back that
      character and consumes exactly its encoding. */
  lemma DecodeEscapeOfEncoding(c: char, rest: string)
    requires !Unreserved(c)
    ensures DecodeEscape(EncodeChar(c) + rest) == Some((c, |EncodeChar(c)|))
  {
    var cp := c as int;
    assert EncodeChar(c) == PercentBytes(Utf8(c));
    if cp < 0x80 {
      DecodeEscape1(c, rest);
    } else if cp < 0x800 {
      DecodeEscape2(c, rest);
    } else if cp < 0x10000 {
      DecodeEscape3(c, rest);
    } else {
      DecodeEscape4(c, rest);
    }
  }

  lemma DecodeEncodeChar(c: char, rest: string)
    ensures DecodeURIComponent(EncodeChar(c) + rest) == Prepend(c, DecodeURIComponent(rest))
  {
    var t := EncodeChar(c) + rest;
    if Unreserved(c) {
      assert t[0] == c && t[1..] == rest;
    } else {
      DecodeEscapeOfEncoding(c, rest);
      PercentBytesRest(Utf8(c), rest);
    }
  }

  /** `decodeURIComponent(encodeURIComponent(s)) == s`. */
  lemma {:induction false} DecodeEncode(s: string)
    ensures DecodeURIComponent(EncodeURIComponent(s)) == Some(s)
  {
    if s != [] {
      var e := EncodeURIComponent(s[1..]);
      calc {
        DecodeURIComponent(EncodeURIComponent(s));
        DecodeURIComponent(EncodeChar(s[0]) + e);
        == { DecodeEncodeChar(s[0], e); }
        Prepend(s[0], DecodeURIComponent(e));
        == { DecodeEncode(s[1..]); }
        Prepend(s[0], Some(s[1..]));
        == { assert [s[0]] + s[1..] == s; }
        Some(s);
      }
    }
  }

  // ------------------------------------------------------- query strings

  lemma {:induction false} PercentBytesAlphabet(bs: seq<Byte>)
    ensures forall k :: 0 <= k < |PercentBytes(bs)| ==> PercentBytes(bs)[k] == '%' || Unreserved(PercentBytes(bs)[k])
  {
    if bs != [] {
      PercentBytesAlphabet(bs[1..]);
      assert PercentBytes(bs) == PercentByte(bs[0]) + PercentBytes(bs[1..]);
    }
  }

  /** The output of `encodeURIComponent` consists of unreserved characters and `%`
      only; in particular it never holds `&`, `=`, `+`, `?`, `#` or `"`. */
  lemma {:induction false} EncodedAlphabet(s: string)
    ensures forall k :: 0 <= k < |EncodeURIComponent(s)| ==>
      EncodeURIComponent(s)[k] == '%' || Unreserved(EncodeURIComponent(s)[k])
  {
    if s != [] {
      EncodedAlphabet(s[1..]);
      PercentBytesAlphabet(Utf8(s[0]));
      assert EncodeURIComponent(s) == EncodeChar(s[0]) + EncodeURIComponent(s[1..]);
    }
  }

  lemma EncodedHasNo(s: string, c: char)
    requires c != '%' && !Unreserved(c)
    ensures c !in EncodeURIComponent(s)
  {
    EncodedAlphabet(s);
  }

  /** The index of the first `sep` in `s`. */
  function SepIndex(s: string, sep: char): Option<nat> {
    FindIndex(s, (c: char) => c == sep)
  }

  lemma SepIndexAfter(a: string, sep: char, b: string)
    requires sep !in a
    ensures SepIndex(a + [sep] + b, sep) == Some(|a|)
  {
    var s := a + [sep] + b;
    assert s[|a|] == sep;
    var r := SepIndex(s, sep);
    assert r.Some?;
    assert forall j :: 0 <= j < |a| ==> s[j] == a[j];
  }

  lemma SepIndexAbsent(a: string, sep: char)
    requires sep !in a
    ensures SepIndex(a, sep) == None
  {
  }

  /** `s.split(sep)`. */
  function Split(s: string, sep: char): (parts: seq<string>)
    ensures |parts| >= 1
    decreases |s|
  {
    match SepIndex(s, sep)
    case None => [s]
    case Some(i) => [s[..i]] + Split(s[i + 1..], sep)
  }

  lemma SplitAfter(a: string, sep: char, b: string)
    requires sep !in a
    ensures Split(a + [sep] + b, sep) == [a] + Split(b, sep)
  {
    var s := a + [sep] + b;
    SepIndexAfter(a, sep, b);
    assert s[..|a|] == a && s[|a| + 1..] == b;
  }

  /** A `key=value` pair split at its first `=`; a pair with no `=` has an empty value. */
  function KeyValue(pair: string): (string, string) {
    match SepIndex(pair, '=')
    case None => (pair, "")
    case Some(i) => (pair[..i], pair[i + 1..])
  }

  /** In a query string `+` stands for a space. */
  function PlusAsSpace(t: string): (u: string)
    ensures |u| == |t|
    ensures forall k :: 0 <= k < |t| ==> u[k] == if t[k] == '+' then ' ' else t[k]
  {
    if t == [] then [] else [if t[0] == '+' then ' ' else t[0]] + PlusAsSpace(t[1..])
  }

  function DecodeQueryComponent(t: string): Option<string> {
    DecodeURIComponent(PlusAsSpace(t))
  }

  function ParamIn(pairs: seq<string>, key: string): Option<string> {
    if pairs == [] then None
    else if KeyValue(pairs[0]).0 == key then DecodeQueryComponent(KeyValue(pairs[0]).1)
    else ParamIn(pairs[1..], key)
  }

  /** The decoded value of parameter `key` in the query string `q` (the part of a URL
      after `?`): the first `key=value` pair for that key decides. */
  function QueryParam(q: string, key: string): Option<string> {
    ParamIn(Split(q, '&'), key)
  }

  lemma PlusAsSpaceNoPlus(t: string)
    requires '+' !in t
    ensures PlusAsSpace(t) == t
  {
  }

  lemma KeyValueOfPair(key: string, e: string)
    requires '=' !in key
    ensures KeyValue(key + "=" + e) == (key, e)
  {
    assert key + "=" + e == key + ['='] + e;
    SepIndexAfter(key, '=', e);
    assert (key + ['='] + e)[..|key|] == key;
    assert (key + ['='] + e)[|key| + 1..] == e;
  }

  lemma DecodeQueryEncoded(value: string)
    ensures DecodeQueryComponent(EncodeURIComponent(value)) == Some(value)
  {
    EncodedHasNo(value, '+');
    PlusAsSpaceNoPlus(EncodeURIComponent(value));
    DecodeEncode(value);
  }

  /** The query component `key=` + `encodeURIComponent(value)` reads back as `value`. */
  lemma EncodedPairReadsBack(key: string, value: string)
    requires '=' !in key
    ensures KeyValue(key + "=" + EncodeURIComponent(value)) == (key, EncodeURIComponent(value))
    ensures DecodeQueryComponent(EncodeURIComponent(value)) == Some(value)
  {
    KeyValueOfPair(key, EncodeURIComponent(value));
    DecodeQueryEncoded(value);
  }

  /** The query component `key=value` with the value percent-encoded. */
  function EncodedPair(key: string, value: string): string {
    key + "=" + EncodeURIComponent(value)
  }

  lemma SplitTwo(p1: string, p2: string)
    requires '&' !in p1 && '&' !in p2
    ensures Split(p1 + "&" + p2, '&') == [p1, p2]
  {
    assert p1 + "&" + p2 == p1 + ['&'] + p2;
    SplitAfter(p1, '&', p2);
    SepIndexAbsent(p2, '&');
  }

  lemma EncodedPairHasNoAmpersand(key: string, value: string)
    requires '&' !in key
    ensures '&' !in EncodedPair(key, value)
  {
    EncodedHasNo(value, '&');
  }

  /** A two-parameter query string built with `encodeURIComponent` gives back
      both values unchanged. */
  lemma TwoParamQuery(k1: string, v1: string, k2: string, v2: string)
    requires '=' !in k1 && '&' !in k1 && '=' !in k2 && '&' !in k2 && k1 != k2
    ensures QueryParam(EncodedPair(k1, v1) + "&" + EncodedPair(k2, v2), k1) == Some(v1)
    ensures QueryParam(EncodedPair(k1, v1) + "&" + EncodedPair(k2, v2), k2) == Some(v2)
  {
    var p1, p2 := EncodedPair(k1, v1), EncodedPair(k2, v2);
    EncodedPairHasNoAmpersand(k1, v1);
    EncodedPairHasNoAmpersand(k2, v2);
    SplitTwo(p1, p2);
    EncodedPairReadsBack(k1, v1);
    EncodedPairReadsBack(k2, v2);
    assert [p1, p2][1..] == [p2];
    assert ParamIn([p1, p2], k2) == ParamIn([p2], k2);
  }

  /** A one-parameter query string built with `encodeURIComponent` gives back its value. */
  lemma OneParamQuery(k: string, v: string)
    requires '=' !in k && '&' !in k
    ensures QueryParam(EncodedPair(k, v), k) == Some(v)
  {
    EncodedPairHasNoAmpersand(k, v);
    SepIndexAbsent(EncodedPair(k, v), '&');
    EncodedPairReadsBack(k, v);
  }
}
