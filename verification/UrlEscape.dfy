/** Percent-decoding: UrlUnescapeString of path_matcher.h and url_decode of module.cc. */
module UrlEscape {
  import opened Wrappers

  /** The reserved characters of section 1.5 of RFC 6570. */
  const RESERVED: set<char> :=
    {'!', '#', '$', '&', '\'', '(', ')', '*', '+', ',', '/', ':', ';', '=', '?', '@', '[', ']'}

  predicate IsHexDigit(c: char) {
    'a' <= c <= 'f' || 'A' <= c <= 'F' || '0' <= c <= '9'
  }

  /** hex_digit_to_int: letters are moved by 9, then the low four bits are kept. */
  function HexDigitToInt(c: char): (v: nat)
    ensures v < 16
  {
    var x := c as int;
    (if x > '9' as int then x + 9 else x) % 16
  }

  /** The value of a hexadecimal digit, as scanf reads it. */
  function HexValue(c: char): (v: nat)
    ensures v < 16
  {
    if '0' <= c <= '9' then c as int - '0' as int
    else if 'a' <= c <= 'f' then c as int - 'a' as int + 10
    else if 'A' <= c <= 'F' then c as int - 'A' as int + 10
    else 0
  }

  lemma HexDigitsAgree(c: char)
    requires IsHexDigit(c)
    ensures HexDigitToInt(c) == HexValue(c)
  {
  }

  /** GetEscapedChar: the character escaped at position i, if there is one to be unescaped. */
  function EscapedChar(s: string, i: nat, unescapeReserved: bool): Option<char> {
    if i + 2 < |s| && s[i] == '%' && IsHexDigit(s[i + 1]) && IsHexDigit(s[i + 2]) then
      var c := (16 * HexDigitToInt(s[i + 1]) + HexDigitToInt(s[i + 2])) as char;
      if !unescapeReserved && c in RESERVED then None else Some(c)
    else None
  }

  function Unescape(s: string, unescapeReserved: bool): string {
    if s == "" then ""
    else if EscapedChar(s, 0, unescapeReserved).Some? then
      [EscapedChar(s, 0, unescapeReserved).value] + Unescape(s[3..], unescapeReserved)
    else [s[0]] + Unescape(s[1..], unescapeReserved)
  }

  lemma EscapedCharInSuffix(s: string, i: nat, unescapeReserved: bool)
    requires i <= |s|
    ensures EscapedChar(s, i, unescapeReserved) == EscapedChar(s[i..], 0, unescapeReserved)
  {
  }

  lemma {:induction false} NothingToUnescape(s: string, unescapeReserved: bool)
    requires forall i :: 0 <= i < |s| ==> EscapedChar(s, i, unescapeReserved).None?
    ensures Unescape(s, unescapeReserved) == s
  {
    if s != "" {
      forall i | 0 <= i < |s[1..]| ensures EscapedChar(s[1..], i, unescapeReserved).None? {
        EscapedCharInSuffix(s[1..], i, unescapeReserved);
        EscapedCharInSuffix(s, i + 1, unescapeReserved);
        assert s[1..][i..] == s[i + 1..];
      }
      NothingToUnescape(s[1..], unescapeReserved);
    }
  }

  method NeedsUnescaping(part: string, unescapeReserved: bool) returns (needed: bool)
    ensures !needed ==> Unescape(part, unescapeReserved) == part
  {
    for i := 0 to |part|
      invariant forall j :: 0 <= j < i ==> EscapedChar(part, j, unescapeReserved).None?
    {
      if EscapedChar(part, i, unescapeReserved).Some? {
        return true;
      }
    }
    NothingToUnescape(part, unescapeReserved);
    return false;
  }

  lemma UnescapeStep(s: string, i: nat, unescapeReserved: bool)
    requires i < |s|
    ensures Unescape(s[i..], unescapeReserved) ==
            if EscapedChar(s, i, unescapeReserved).Some?
            then [EscapedChar(s, i, unescapeReserved).value] + Unescape(s[i + 3..], unescapeReserved)
            else [s[i]] + Unescape(s[i + 1..], unescapeReserved)
  {
    EscapedCharInSuffix(s, i, unescapeReserved);
    assert s[i..][1..] == s[i + 1..];
    if i + 3 <= |s| { assert s[i..][3..] == s[i + 3..]; }
  }

  /** UrlUnescapeString: a scan for something to do, then decoding into a buffer of the
      input's size. */
  method UrlUnescapeString(part: string, unescapeReserved: bool) returns (r: string)
    ensures r == Unescape(part, unescapeReserved)
  {
    var needed := NeedsUnescaping(part, unescapeReserved);
    if !needed {
      return part;
    }
    r := DecodeToBuffer(part, unescapeReserved);
  }

  method DecodeToBuffer(part: string, unescapeReserved: bool) returns (r: string)
    ensures r == Unescape(part, unescapeReserved)
  {
    var buffer := new char[|part|];
    var p, i := 0, 0;
    ghost var done := "";
    assert part[0..] == part;
    while i < |part|
      invariant 0 <= p <= i <= |part|
      invariant done == buffer[..p]
      invariant Unescape(part, unescapeReserved) == done + Unescape(part[i..], unescapeReserved)
    {
      UnescapeStep(part, i, unescapeReserved);
      var escaped := EscapedChar(part, i, unescapeReserved);
      var c := if escaped.Some? then escaped.value else part[i];
      buffer[p] := c;
      assert buffer[..p] == done;
      assert buffer[..p + 1] == buffer[..p] + [c];
      i := i + (if escaped.Some? then 3 else 1);
      p := p + 1;
      AppendAssoc(done, c, Unescape(part[i..], unescapeReserved));
      done := done + [c];
    }
    assert part[i..] == "";
    r := buffer[..p];
  }

  /** url_decode: the decoder of the rewrite handler. */
  method UrlDecode(uri: string) returns (decoded: string)
    ensures decoded == Unescape(uri, true)
  {
    decoded := "";
    var i := 0;
    assert uri[0..] == uri;
    while i < |uri|
      invariant 0 <= i <= |uri|
      invariant Unescape(uri, true) == decoded + Unescape(uri[i..], true)
    {
      UnescapeStep(uri, i, true);
      var c, next := uri[i], i + 1;
      if uri[i] as int == 37 {
        if |uri| > i + 2 && IsHexDigit(uri[i + 1]) && IsHexDigit(uri[i + 2]) {
          c := ScanHex(uri, i + 1);
          next := i + 3;
        }
      }
      assert EscapedChar(uri, i, true) == if next == i + 3 then Some(c) else None;
      AppendAssoc(decoded, c, Unescape(uri[next..], true));
      decoded := decoded + [c];
      i := next;
    }
    assert uri[i..] == "";
  }

  lemma AppendAssoc(s: string, c: char, t: string)
    ensures s + ([c] + t) == s + [c] + t
  {
  }

  /** sscanf("%x") on two hexadecimal digits, cut to a char. */
  method ScanHex(s: string, i: nat) returns (c: char)
    requires i + 1 < |s| && IsHexDigit(s[i]) && IsHexDigit(s[i + 1])
    ensures c as int == 16 * HexDigitToInt(s[i]) + HexDigitToInt(s[i + 1])
  {
    HexDigitsAgree(s[i]);
    HexDigitsAgree(s[i + 1]);
    c := (16 * HexValue(s[i]) + HexValue(s[i + 1])) as char;
  }

  // ---------- decoding inverts encoding

  /** e is s with any of its characters percent-encoded, '%' always being so
      (section 2.1 of RFC 3986; both cases of the hexadecimal letters). */
  predicate Encodes(e: string, s: string) {
    if s == "" then e == ""
    else
      || (e != "" && e[0] == s[0] && s[0] != '%' && Encodes(e[1..], s[1..]))
      || (|e| >= 3 && e[0] == '%' && IsHexDigit(e[1]) && IsHexDigit(e[2])
          && 16 * HexValue(e[1]) + HexValue(e[2]) == s[0] as int && Encodes(e[3..], s[1..]))
  }

  lemma {:induction false} UnescapeInvertsEncoding(e: string, s: string)
    requires Encodes(e, s)
    ensures Unescape(e, true) == s
    decreases |s|
  {
    if s != "" {
      if e[0] == s[0] && s[0] != '%' {
        UnescapeInvertsEncoding(e[1..], s[1..]);
      } else {
        HexDigitsAgree(e[1]);
        HexDigitsAgree(e[2]);
        UnescapeInvertsEncoding(e[3..], s[1..]);
      }
      assert s == [s[0]] + s[1..];
    }
  }

  function HexDigit(v: nat): (c: char)
    requires v < 16
    ensures IsHexDigit(c) && HexValue(c) == v
  {
    if v < 10 then ('0' as int + v) as char else ('A' as int + v - 10) as char
  }

  /** Percent-encodes every byte. */
  function EncodeAll(s: string): string
    requires forall i :: 0 <= i < |s| ==> s[i] as int < 256
  {
    if s == "" then ""
    else ['%', HexDigit(s[0] as int / 16), HexDigit(s[0] as int % 16)] + EncodeAll(s[1..])
  }

  lemma {:induction false} EncodeAllEncodes(s: string)
    requires forall i :: 0 <= i < |s| ==> s[i] as int < 256
    ensures Encodes(EncodeAll(s), s)
  {
    if s != "" {
      EncodeAllEncodes(s[1..]);
      assert EncodeAll(s)[3..] == EncodeAll(s[1..]);
    }
  }

  // ---------- reserved characters

  function Count(s: string, c: char): nat {
    if s == "" then 0 else (if s[0] == c then 1 else 0) + Count(s[1..], c)
  }

  lemma EscapesAreUnreserved(c: char)
    requires c == '%' || IsHexDigit(c)
    ensures c !in RESERVED
  {
  }

  /** With reserved characters kept, unescaping neither makes nor removes one. */
  lemma {:induction false} ReservedAreKept(s: string, c: char)
    requires c in RESERVED
    ensures Count(Unescape(s, false), c) == Count(s, c)
  {
    if s != "" {
      if EscapedChar(s, 0, false).Some? {
        ReservedAreKept(s[3..], c);
        EscapesAreUnreserved(s[0]);
        EscapesAreUnreserved(s[1]);
        EscapesAreUnreserved(s[2]);
        assert s[1..][1..] == s[2..] && s[2..][1..] == s[3..];
        assert Count(s, c) == Count(s[1..], c) == Count(s[2..], c) == Count(s[3..], c);
      } else {
        ReservedAreKept(s[1..], c);
      }
    }
  }
}
