/** Percent-encoding (RFC 3986 section 2.1) as the browser applies it:
    `encodeURIComponent`, the regular-expression collapse of `%XX` escapes
    used by `toBase64`, the `%xx` re-escaping and `decodeURIComponent` used by
    `fromBase64`, and the application/x-www-form-urlencoded parser behind
    `URLSearchParams`. */
module Percent {
  import opened Common
  import Utf8

  type byte = Utf8.byte

  // ---- hexadecimal digits ----

  function HexUpper(n: int): (c: char)
    requires 0 <= n < 16
    ensures IsUpperHexDigit(c) && HexValue(c) == n
  {
    if n < 10 then ('0' as int + n) as char else ('A' as int + n - 10) as char
  }

  function HexLower(n: int): (c: char)
    requires 0 <= n < 16
    ensures IsHexDigit(c) && HexValue(c) == n
  {
    if n < 10 then ('0' as int + n) as char else ('a' as int + n - 10) as char
  }

  predicate IsUpperHexDigit(c: char) {
    '0' <= c <= '9' || 'A' <= c <= 'F'
  }

  predicate IsHexDigit(c: char) {
    IsUpperHexDigit(c) || 'a' <= c <= 'f'
  }

  function HexValue(c: char): (v: int)
    requires IsHexDigit(c)
    ensures 0 <= v < 16
  {
    if '0' <= c <= '9' then c as int - '0' as int
    else if 'A' <= c <= 'F' then c as int - 'A' as int + 10
    else c as int - 'a' as int + 10
  }

  // ---- encodeURIComponent ----

  /** Characters `encodeURIComponent` leaves as they are. */
  predicate IsUnreserved(c: char) {
    'A' <= c <= 'Z' || 'a' <= c <= 'z' || '0' <= c <= '9' || c in "-_.!~*'()"
  }

  /** `%XX` with upper-case hexadecimal digits. */
  function EscapeByte(b: byte): string {
    ['%', HexUpper(b / 16), HexUpper(b % 16)]
  }

  function EscapeBytes(bs: seq<byte>): (r: string)
    ensures |r| == 3 * |bs|
  {
    if bs == [] then [] else EscapeByte(bs[0]) + EscapeBytes(bs[1..])
  }

  /** `encodeURIComponent(s)`: unreserved characters stay, every other
      character is replaced by the escapes of its UTF-8 octets. */
  function EncodeUriComponent(s: string): string {
    if s == [] then []
    else (if IsUnreserved(s[0]) then [s[0]] else EscapeBytes(Utf8.EncodeChar(s[0]))) + EncodeUriComponent(s[1..])
  }

  /** Every character of an `encodeURIComponent` result is unreserved or `%`:
      in particular none is `&`, `=`, `+`, `#` or a space. */
  lemma {:induction false} EncodeUriComponentAlphabet(s: string)
    ensures forall i :: 0 <= i < |EncodeUriComponent(s)| ==>
      IsUnreserved(EncodeUriComponent(s)[i]) || EncodeUriComponent(s)[i] == '%'
  {
    if s != [] {
      EncodeUriComponentAlphabet(s[1..]);
      if !IsUnreserved(s[0]) {
        EscapeBytesAlphabet(Utf8.EncodeChar(s[0]));
      }
    }
  }

  /** The escapes of octet `j` sit at positions `3j` to `3j + 2`: a `%` and two
      upper-case hexadecimal digits that spell the octet. */
  lemma {:induction false} EscapeBytesAt(bs: seq<byte>, j: nat)
    requires j < |bs|
    ensures EscapeBytes(bs)[3 * j] == '%'
    ensures IsUpperHexDigit(EscapeBytes(bs)[3 * j + 1]) && IsUpperHexDigit(EscapeBytes(bs)[3 * j + 2])
    ensures HexValue(EscapeBytes(bs)[3 * j + 1]) * 16 + HexValue(EscapeBytes(bs)[3 * j + 2]) == bs[j]
  {
    var e, rest := EscapeBytes(bs), EscapeBytes(bs[1..]);
    assert e == EscapeByte(bs[0]) + rest;
    if j > 0 {
      EscapeBytesAt(bs[1..], j - 1);
      assert bs[j] == bs[1..][j - 1];
      assert e[3 * j] == rest[3 * (j - 1)];
      assert e[3 * j + 1] == rest[3 * (j - 1) + 1];
      assert e[3 * j + 2] == rest[3 * (j - 1) + 2];
    }
  }

  /** Every escaped octet is spelled out at its own three positions, so every
      character is unreserved or `%`. */
  lemma EscapeBytesAlphabet(bs: seq<byte>)
    ensures forall j :: 0 <= j < |bs| ==>
      && EscapeBytes(bs)[3 * j] == '%'
      && IsUpperHexDigit(EscapeBytes(bs)[3 * j + 1]) && IsUpperHexDigit(EscapeBytes(bs)[3 * j + 2])
      && HexValue(EscapeBytes(bs)[3 * j + 1]) * 16 + HexValue(EscapeBytes(bs)[3 * j + 2]) == bs[j]
    ensures forall i :: 0 <= i < |EscapeBytes(bs)| ==>
      IsUnreserved(EscapeBytes(bs)[i]) || EscapeBytes(bs)[i] == '%'
  {
    var e := EscapeBytes(bs);
    forall j | 0 <= j < |bs|
      ensures e[3 * j] == '%' && IsUpperHexDigit(e[3 * j + 1]) && IsUpperHexDigit(e[3 * j + 2])
      ensures HexValue(e[3 * j + 1]) * 16 + HexValue(e[3 * j + 2]) == bs[j]
    {
      EscapeBytesAt(bs, j);
    }
    forall i | 0 <= i < |e| ensures IsUnreserved(e[i]) || e[i] == '%' {
      var j := i / 3;
      EscapeBytesAt(bs, j);
      assert i == 3 * j || i == 3 * j + 1 || i == 3 * j + 2;
    }
  }

  // ---- the collapse in toBase64 ----

  /** The "binary string" whose character codes are the given octets. */
  function Latin1(bs: seq<byte>): (t: string)
    ensures |t| == |bs|
    ensures forall i :: 0 <= i < |bs| ==> t[i] as int == bs[i]
  {
    if bs == [] then [] else [bs[0] as char] + Latin1(bs[1..])
  }

  lemma {:induction false} Latin1Append(a: seq<byte>, b: seq<byte>)
    ensures Latin1(a + b) == Latin1(a) + Latin1(b)
  {
    if a == [] {
      assert a + b == b;
    } else {
      assert (a + b)[0] == a[0];
      assert (a + b)[1..] == a[1..] + b;
      Latin1Append(a[1..], b);
      AppendAssoc([a[0] as char], Latin1(a[1..]), Latin1(b));
    }
  }

  /** `s.replace(/%([0-9A-F]{2})/g, (m, p1) => String.fromCharCode(parseInt(p1, 16)))`:
      scanning left to right, each `%` followed by two upper-case hexadecimal
      digits becomes the character with that code. */
  function CollapseEscapes(s: string): string {
    if s == [] then []
    else if |s| >= 3 && s[0] == '%' && IsUpperHexDigit(s[1]) && IsUpperHexDigit(s[2]) then
      [(HexValue(s[1]) * 16 + HexValue(s[2])) as char] + CollapseEscapes(s[3..])
    else [s[0]] + CollapseEscapes(s[1..])
  }

  lemma {:induction false} CollapseEscapeBytes(bs: seq<byte>, rest: string)
    ensures CollapseEscapes(EscapeBytes(bs) + rest) == Latin1(bs) + CollapseEscapes(rest)
  {
    if bs == [] {
      assert EscapeBytes(bs) + rest == rest;
    } else {
      var t := EscapeBytes(bs) + rest;
      assert t == EscapeByte(bs[0]) + (EscapeBytes(bs[1..]) + rest);
      assert t[3..] == EscapeBytes(bs[1..]) + rest;
      CollapseEscapeBytes(bs[1..], rest);
    }
  }

  /** The collapse undoes exactly the escaping, leaving the UTF-8 octets of the
      input as a binary string: this is how `toBase64` obtains UTF-8. */
  lemma {:induction false} CollapseEncodeUriComponent(s: string)
    ensures CollapseEscapes(EncodeUriComponent(s)) == Latin1(Utf8.Encode(s))
  {
    if s != [] {
      var rest := EncodeUriComponent(s[1..]);
      CollapseEncodeUriComponent(s[1..]);
      Latin1Append(Utf8.EncodeChar(s[0]), Utf8.Encode(s[1..]));
      if IsUnreserved(s[0]) {
        assert ([s[0]] + rest)[1..] == rest;
      } else {
        CollapseEscapeBytes(Utf8.EncodeChar(s[0]), rest);
      }
    }
  }

  // ---- the re-escaping and decodeURIComponent in fromBase64 ----

  /** `t.split('').map(c => '%' + ('00' + c.charCodeAt(0).toString(16)).slice(-2)).join('')`:
      each character becomes `%` and the last two lower-case hexadecimal digits of its code. */
  function EscapeBinary(t: string): (r: string)
    ensures |r| == 3 * |t|
  {
    if t == [] then []
    else ['%', HexLower((t[0] as int / 16) % 16), HexLower(t[0] as int % 16)] + EscapeBinary(t[1..])
  }

  /** The octets a string for `decodeURIComponent` stands for: an escape gives
      its octet, any other character its UTF-8 octets; a `%` that does not
      start an escape makes it fail. */
  function Unescape(s: string): Option<seq<byte>> {
    if s == [] then Some([])
    else if s[0] == '%' then
      if |s| >= 3 && IsHexDigit(s[1]) && IsHexDigit(s[2]) then
        match Unescape(s[3..])
        case None => None
        case Some(rest) => Some([HexValue(s[1]) * 16 + HexValue(s[2])] + rest)
      else None
    else
      match Unescape(s[1..])
      case None => None
      case Some(rest) => Some(Utf8.EncodeChar(s[0]) + rest)
  }

  /** `decodeURIComponent(s)`, None standing for the URIError it throws.
      ECMAScript decodes escaped octets group by group and copies other
      characters; since the first UTF-8 octet of a character is never a
      continuation octet, that fails exactly when the octets of `Unescape`
      are not well-formed UTF-8. */
  function DecodeUriComponent(s: string): (r: Option<string>)
    ensures r.Some? ==> Unescape(s).Some? && Utf8.Encode(r.value) == Unescape(s).value
  {
    match Unescape(s)
    case None => None
    case Some(bs) =>
      if Utf8.Decode(bs).Some? then Utf8.EncodeDecode(bs, Utf8.Decode(bs).value); Utf8.Decode(bs)
      else None
  }

  lemma {:induction false} UnescapeEscapeBinary(bs: seq<byte>)
    ensures Unescape(EscapeBinary(Latin1(bs))) == Some(bs)
  {
    if bs != [] {
      var t := Latin1(bs);
      assert t[1..] == Latin1(bs[1..]);
      UnescapeEscapeBinary(bs[1..]);
      UnescapeLowerEscape(bs[0], EscapeBinary(t[1..]), bs[1..]);
      assert bs == [bs[0]] + bs[1..];
    }
  }

  /** One lower-case escape gives back its octet. */
  lemma UnescapeLowerEscape(b: byte, rest: string, tail: seq<byte>)
    requires Unescape(rest) == Some(tail)
    ensures Unescape(['%', HexLower((b / 16) % 16), HexLower(b % 16)] + rest) == Some([b] + tail)
  {
    var e := ['%', HexLower((b / 16) % 16), HexLower(b % 16)] + rest;
    assert e[3..] == rest;
    assert HexValue(e[1]) * 16 + HexValue(e[2]) == b;
  }

  /** Re-escaping a binary string and decoding it is strict UTF-8 decoding of its octets. */
  lemma DecodeEscapedBinary(bs: seq<byte>)
    ensures DecodeUriComponent(EscapeBinary(Latin1(bs))) == Utf8.Decode(bs)
  {
    UnescapeEscapeBinary(bs);
  }

  // ---- application/x-www-form-urlencoded parsing (URLSearchParams) ----

  predicate IsHexByte(b: byte) {
    IsHexDigit(b as char)
  }

  /** Percent-decoding of octets (WHATWG URL Standard): an escape gives its
      octet, a `%` that does not start an escape is kept as it is. */
  function PercentDecodeBytes(bs: seq<byte>): seq<byte> {
    if bs == [] then []
    else if bs[0] == 0x25 && |bs| >= 3 && IsHexByte(bs[1]) && IsHexByte(bs[2]) then
      [HexValue(bs[1] as char) * 16 + HexValue(bs[2] as char)] + PercentDecodeBytes(bs[3..])
    else [bs[0]] + PercentDecodeBytes(bs[1..])
  }

  /** A name or value of a form-encoded pair: `+` becomes a space, then the
      percent-decoded UTF-8 octets are decoded replacing malformed parts. */
  function FormDecode(s: string): string {
    Utf8.DecodeLossy(PercentDecodeBytes(Utf8.Encode(ReplaceChar(s, '+', ' '))))
  }

  /** Splits on every occurrence of `sep`; always at least one piece, and no
      piece holds the separator. */
  function SplitOn(s: string, sep: char): (r: seq<string>)
    ensures |r| >= 1
    ensures forall i :: 0 <= i < |r| ==> sep !in r[i]
  {
    if s == [] then [""]
    else
      var rest := SplitOn(s[1..], sep);
      if s[0] == sep then [""] + rest else [[s[0]] + rest[0]] + rest[1..]
  }

  datatype Pair = Pair(name: string, value: string)

  /** One non-empty piece: the name is what precedes the first `=`, the value
      what follows it (empty when there is no `=`). */
  function ParsePiece(p: string): Pair {
    if '=' in p then
      var i := IndexOf(p, '=');
      Pair(FormDecode(p[..i]), FormDecode(p[i + 1..]))
    else Pair(FormDecode(p), "")
  }

  function ParsePieces(pieces: seq<string>): seq<Pair> {
    if pieces == [] then []
    else if pieces[0] == "" then ParsePieces(pieces[1..])
    else [ParsePiece(pieces[0])] + ParsePieces(pieces[1..])
  }

  /** `new URLSearchParams(init)` for a string `init`: a leading `?` is dropped. */
  function SearchParams(init: string): seq<Pair> {
    var query := if |init| > 0 && init[0] == '?' then init[1..] else init;
    ParsePieces(SplitOn(query, '&'))
  }

  /** `params.get(name)`: the value of the first pair with that name. */
  function Get(params: seq<Pair>, name: string): (r: Option<string>)
    ensures r.Some? <==> exists i :: 0 <= i < |params| && params[i].name == name
  {
    if params == [] then None
    else if params[0].name == name then Some(params[0].value)
    else Get(params[1..], name)
  }

  /** The value found is that of a pair with the name, and no earlier pair has it. */
  lemma {:induction false} GetFirst(params: seq<Pair>, name: string, i: nat)
    requires i < |params| && params[i].name == name
    requires forall j :: 0 <= j < i ==> params[j].name != name
    ensures Get(params, name) == Some(params[i].value)
  {
    if i > 0 {
      assert params[1..][i - 1] == params[i];
      GetFirst(params[1..], name, i - 1);
    }
  }

  // ---- lemmas about form decoding ----

  /** The pieces joined with `sep` between them. */
  function JoinWith(pieces: seq<string>, sep: char): string
    requires |pieces| >= 1
  {
    if |pieces| == 1 then pieces[0] else pieces[0] + [sep] + JoinWith(pieces[1..], sep)
  }

  /** A character put in front of the first piece comes first in the join. */
  lemma JoinWithCons(c: char, pieces: seq<string>, sep: char)
    requires |pieces| >= 1
    ensures JoinWith([[c] + pieces[0]] + pieces[1..], sep) == [c] + JoinWith(pieces, sep)
  {
    var r := [[c] + pieces[0]] + pieces[1..];
    if |pieces| > 1 {
      assert r[1..] == pieces[1..];
      var tail := [sep] + JoinWith(pieces[1..], sep);
      assert JoinWith(r, sep) == ([c] + pieces[0]) + tail;
      assert JoinWith(pieces, sep) == pieces[0] + tail;
      AppendAssoc([c], pieces[0], tail);
    }
  }

  /** Splitting loses nothing: joining the pieces with the separator gives the
      string back. */
  lemma {:induction false} JoinSplitOn(s: string, sep: char)
    ensures JoinWith(SplitOn(s, sep), sep) == s
  {
    if s != [] {
      var rest := SplitOn(s[1..], sep);
      JoinSplitOn(s[1..], sep);
      assert [s[0]] + s[1..] == s;
      if s[0] == sep {
        assert JoinWith([""] + rest, sep) == "" + [sep] + JoinWith(rest, sep);
      } else {
        JoinWithCons(s[0], rest, sep);
      }
    }
  }

  lemma {:induction false} SplitOnAbsent(s: string, sep: char)
    requires sep !in s
    ensures SplitOn(s, sep) == [s]
  {
    if s != [] {
      SplitOnAbsent(s[1..], sep);
      assert [s[0]] + s[1..] == s;
    }
  }

  lemma ReplaceCharAbsent(s: string, from: char, to: char)
    requires from !in s
    ensures ReplaceChar(s, from, to) == s
  {
  }

  lemma {:induction false} PercentDecodeNoPercent(bs: seq<byte>)
    requires 0x25 !in bs
    ensures PercentDecodeBytes(bs) == bs
  {
    if bs != [] {
      PercentDecodeNoPercent(bs[1..]);
      assert bs == [bs[0]] + bs[1..];
    }
  }

  /** An ASCII string without `%` only has its `+` turned into spaces. */
  lemma FormDecodeAscii(s: string)
    requires forall i :: 0 <= i < |s| ==> s[i] as int < 0x80 && s[i] != '%'
    ensures FormDecode(s) == ReplaceChar(s, '+', ' ')
  {
    var t := ReplaceChar(s, '+', ' ');
    Utf8.EncodeAscii(t);
    var bs := Utf8.Encode(t);
    assert forall i :: 0 <= i < |bs| ==> bs[i] != 0x25 by {
      forall i | 0 <= i < |bs| ensures bs[i] != 0x25 {
        assert bs[i] == t[i] as int;
      }
    }
    PercentDecodeNoPercent(bs);
    Utf8.DecodeLossyEncode(t);
  }

  lemma EncodeEscapeByte(b: byte)
    ensures Utf8.Encode(EscapeByte(b)) == [0x25, HexUpper(b / 16) as int, HexUpper(b % 16) as int]
  {
    Utf8.EncodeAscii(EscapeByte(b));
  }

  lemma PercentDecodeOneEscape(b: byte, rest: seq<byte>)
    ensures PercentDecodeBytes(Utf8.Encode(EscapeByte(b)) + rest) == [b] + PercentDecodeBytes(rest)
  {
    EncodeEscapeByte(b);
    var t := Utf8.Encode(EscapeByte(b)) + rest;
    assert t[0] == 0x25 && t[1] == HexUpper(b / 16) as int && t[2] == HexUpper(b % 16) as int;
    assert t[1] as char == HexUpper(b / 16) && t[2] as char == HexUpper(b % 16);
    assert t[3..] == rest;
  }

  lemma {:induction false} PercentDecodeEscapes(bs: seq<byte>, rest: seq<byte>)
    ensures PercentDecodeBytes(Utf8.Encode(EscapeBytes(bs)) + rest) == bs + PercentDecodeBytes(rest)
  {
    if bs == [] {
      assert Utf8.Encode(EscapeBytes(bs)) + rest == rest;
    } else {
      var e, es := EscapeByte(bs[0]), EscapeBytes(bs[1..]);
      var tail := Utf8.Encode(es) + rest;
      Utf8.EncodeAppend(e, es);
      var x := Utf8.Encode(EscapeBytes(bs)) + rest;
      AppendAssoc(Utf8.Encode(e), Utf8.Encode(es), rest);
      assert x == Utf8.Encode(e) + tail;
      PercentDecodeOneEscape(bs[0], tail);
      PercentDecodeEscapes(bs[1..], rest);
      ConsAppend(bs, PercentDecodeBytes(rest));
    }
  }

  lemma {:induction false} PercentDecodeEncodeUriComponent(s: string)
    ensures PercentDecodeBytes(Utf8.Encode(EncodeUriComponent(s))) == Utf8.Encode(s)
  {
    if s != [] {
      var rest := EncodeUriComponent(s[1..]);
      PercentDecodeEncodeUriComponent(s[1..]);
      if IsUnreserved(s[0]) {
        Utf8.EncodeAppend([s[0]], rest);
        assert Utf8.Encode([s[0]]) == [s[0] as int];
        assert (Utf8.Encode([s[0]]) + Utf8.Encode(rest))[1..] == Utf8.Encode(rest);
      } else {
        Utf8.EncodeAppend(EscapeBytes(Utf8.EncodeChar(s[0])), rest);
        PercentDecodeEscapes(Utf8.EncodeChar(s[0]), Utf8.Encode(rest));
      }
    }
  }

  /** Form decoding inverts `encodeURIComponent` for every string. */
  lemma FormDecodeEncodeUriComponent(s: string)
    ensures FormDecode(EncodeUriComponent(s)) == s
  {
    var e := EncodeUriComponent(s);
    EncodeUriComponentAlphabet(s);
    assert '+' !in e by {
      forall i | 0 <= i < |e| ensures e[i] != '+' {
        assert IsUnreserved(e[i]) || e[i] == '%';
      }
    }
    ReplaceCharAbsent(e, '+', ' ');
    PercentDecodeEncodeUriComponent(s);
    Utf8.DecodeLossyEncode(s);
  }

  /** A fragment made of one `name=value` pair whose value holds no `&`
      parses to that single pair. */
  lemma SearchParamsSinglePair(name: string, value: string)
    requires |name| > 0 && name[0] != '?'
    requires forall i :: 0 <= i < |name| ==> name[i] as int < 0x80 && name[i] !in "%+=&"
    requires '&' !in value
    ensures SearchParams(name + "=" + value) == [Pair(name, FormDecode(value))]
  {
    var p := name + "=" + value;
    assert p[0] == name[0];
    assert forall i :: 0 <= i < |name| ==> p[i] == name[i];
    assert '&' !in p by {
      forall i | 0 <= i < |p| ensures p[i] != '&' {
        if i > |name| { assert p[i] == value[i - |name| - 1]; }
      }
    }
    SplitOnAbsent(p, '&');
    assert p[|name|] == '=';
    assert '=' !in p[..|name|] by { assert p[..|name|] == name; }
    var i := IndexOf(p, '=');
    assert i == |name|;
    assert p[..i] == name && p[i + 1..] == value;
    FormDecodeAscii(name);
    ReplaceCharAbsent(name, '+', ' ');
    assert ParsePieces([p][1..]) == [];
  }
}
