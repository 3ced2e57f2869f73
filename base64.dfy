/** Base64 (RFC 4648 section 4) as the browser provides it: `btoa`, which
    encodes the octets of a binary string with `=` padding, and `atob`, which
    runs the forgiving-base64 decode of the WHATWG Infra Standard. */
module Base64 {
  import opened Common
  import Utf8
  import Percent

  type byte = Utf8.byte

  /** The 64 characters of the Base64 alphabet (RFC 4648 section 4, table 1). */
  predicate IsAlphabetChar(c: char) {
    'A' <= c <= 'Z' || 'a' <= c <= 'z' || '0' <= c <= '9' || c == '+' || c == '/'
  }

  function SextetChar(n: int): (c: char)
    requires 0 <= n < 64
    ensures IsAlphabetChar(c) && SextetValue(c) == n
  {
    if n < 26 then ('A' as int + n) as char
    else if n < 52 then ('a' as int + n - 26) as char
    else if n < 62 then ('0' as int + n - 52) as char
    else if n == 62 then '+'
    else '/'
  }

  function SextetValue(c: char): (n: int)
    requires IsAlphabetChar(c)
    ensures 0 <= n < 64
  {
    if 'A' <= c <= 'Z' then c as int - 'A' as int
    else if 'a' <= c <= 'z' then c as int - 'a' as int + 26
    else if '0' <= c <= '9' then c as int - '0' as int + 52
    else if c == '+' then 62
    else 63
  }

  // ---- encoding ----

  /** Three octets as four characters, most significant bits first. */
  function EncodeGroup(b0: byte, b1: byte, b2: byte): string {
    [SextetChar(b0 / 4), SextetChar((b0 % 4) * 16 + b1 / 16), SextetChar((b1 % 16) * 4 + b2 / 64), SextetChar(b2 % 64)]
  }

  /** The final one or two octets, zero-filled and padded with `=`. */
  function EncodeTail(b: seq<byte>): (r: string)
    requires |b| < 3
  {
    if |b| == 0 then []
    else if |b| == 1 then [SextetChar(b[0] / 4), SextetChar((b[0] % 4) * 16), '=', '=']
    else [SextetChar(b[0] / 4), SextetChar((b[0] % 4) * 16 + b[1] / 16), SextetChar((b[1] % 16) * 4), '=']
  }

  /** The padded Base64 encoding of an octet sequence: whole groups of three
      octets, then the padded tail. */
  function Encode(b: seq<byte>): string {
    if |b| < 3 then EncodeTail(b) else EncodeGroup(b[0], b[1], b[2]) + Encode(b[3..])
  }

  /** The octets of a binary string (every character code below 256). */
  function BinaryBytes(t: string): (bs: seq<byte>)
    requires forall i :: 0 <= i < |t| ==> t[i] as int < 256
    ensures |bs| == |t| && forall i :: 0 <= i < |t| ==> bs[i] == t[i] as int
  {
    if t == [] then [] else [t[0] as int] + BinaryBytes(t[1..])
  }

  /** The encoded length of section 4 of RFC 4648: four characters for every
      started group of three octets. */
  lemma {:induction false} EncodeLength(b: seq<byte>)
    ensures |Encode(b)| == 4 * ((|b| + 2) / 3)
    decreases |b|
  {
    if |b| >= 3 {
      EncodeLength(b[3..]);
      assert (|b| + 2) / 3 == (|b[3..]| + 2) / 3 + 1;
    }
  }

  /** `btoa(t)`; None stands for the InvalidCharacterError thrown when a
      character code exceeds 255. */
  function Btoa(t: string): Option<string> {
    if forall i :: 0 <= i < |t| ==> t[i] as int < 256 then Some(Encode(BinaryBytes(t))) else None
  }

  lemma BinaryBytesLatin1(bs: seq<byte>)
    ensures BinaryBytes(Percent.Latin1(bs)) == bs
  {
  }

  // ---- forgiving-base64 decode ----

  /** ASCII whitespace of the WHATWG Infra Standard: tab, line feed, form feed,
      carriage return and space. */
  predicate IsAsciiWhitespace(c: char) {
    c == '\t' || c == '\n' || c == '\U{000C}' || c == '\r' || c == ' '
  }

  function RemoveWhitespace(s: string): (r: string)
    ensures |r| <= |s|
    ensures forall i :: 0 <= i < |r| ==> !IsAsciiWhitespace(r[i])
  {
    if s == [] then []
    else if IsAsciiWhitespace(s[0]) then RemoveWhitespace(s[1..])
    else [s[0]] + RemoveWhitespace(s[1..])
  }

  /** Every other character is kept, as often as it occurs in `s`. */
  lemma {:induction false} RemoveWhitespaceCount(s: string)
    ensures forall c :: multiset(RemoveWhitespace(s))[c] == if IsAsciiWhitespace(c) then 0 else multiset(s)[c]
    ensures forall c :: c in RemoveWhitespace(s) <==> c in s && !IsAsciiWhitespace(c)
  {
    if s != [] {
      assert s == [s[0]] + s[1..];
      RemoveWhitespaceCount(s[1..]);
    }
  }

  /** When the length is a multiple of four, one or two final `=` are dropped. */
  function StripPadding(d: string): string {
    if |d| % 4 == 0 && |d| >= 2 && d[|d| - 1] == '=' && d[|d| - 2] == '=' then d[..|d| - 2]
    else if |d| % 4 == 0 && |d| >= 1 && d[|d| - 1] == '=' then d[..|d| - 1]
    else d
  }

  predicate AllAlphabet(d: string) {
    forall i :: 0 <= i < |d| ==> IsAlphabetChar(d[i])
  }

  /** Groups of four characters give three octets; a final group of two or
      three gives one or two, the left-over bits being discarded. */
  function DecodeSextets(d: string): seq<byte>
    requires AllAlphabet(d) && |d| % 4 != 1
  {
    if |d| == 0 then []
    else if |d| == 2 then [SextetValue(d[0]) * 4 + SextetValue(d[1]) / 16]
    else if |d| == 3 then
      [SextetValue(d[0]) * 4 + SextetValue(d[1]) / 16, (SextetValue(d[1]) % 16) * 16 + SextetValue(d[2]) / 4]
    else
      var v0, v1, v2, v3 := SextetValue(d[0]), SextetValue(d[1]), SextetValue(d[2]), SextetValue(d[3]);
      [v0 * 4 + v1 / 16, (v1 % 16) * 16 + v2 / 4, (v2 % 4) * 64 + v3] + DecodeSextets(d[4..])
  }

  /** Forgiving-base64 decode; None stands for failure. */
  function ForgivingDecode(s: string): Option<seq<byte>> {
    var d := StripPadding(RemoveWhitespace(s));
    if |d| % 4 == 1 || !AllAlphabet(d) then None else Some(DecodeSextets(d))
  }

  /** `atob(s)`: the decoded octets as a binary string; None stands for the
      InvalidCharacterError it throws. */
  function Atob(s: string): Option<string> {
    match ForgivingDecode(s)
    case None => None
    case Some(bs) => Some(Percent.Latin1(bs))
  }

  // ---- properties ----

  /** The encoding without its `=` padding. */
  function Unpadded(b: seq<byte>): (r: string)
    ensures AllAlphabet(r) && |r| % 4 != 1
  {
    if |b| == 0 then []
    else if |b| == 1 then EncodeTail(b)[..2]
    else if |b| == 2 then EncodeTail(b)[..3]
    else EncodeGroup(b[0], b[1], b[2]) + Unpadded(b[3..])
  }

  /** The padding that follows it: none, `==` or `=`, as `|b| mod 3` is 0, 1 or 2. */
  function Padding(b: seq<byte>): (r: string)
    ensures r == (if |b| % 3 == 0 then "" else if |b| % 3 == 1 then "==" else "=")
  {
    if |b| < 3 then (if |b| == 0 then "" else if |b| == 1 then "==" else "=") else Padding(b[3..])
  }

  /** Every encoding is alphabet characters followed by the padding, and its
      length is a multiple of four. */
  lemma {:induction false} EncodeShape(b: seq<byte>)
    ensures Encode(b) == Unpadded(b) + Padding(b)
    ensures |Encode(b)| % 4 == 0
    ensures |Unpadded(b)| % 4 == (if |b| % 3 == 0 then 0 else if |b| % 3 == 1 then 2 else 3)
  {
    if |b| >= 3 {
      var g, rest := EncodeGroup(b[0], b[1], b[2]), b[3..];
      EncodeShape(rest);
      StepMod3(|rest|);
      StepMod4(|Unpadded(rest)|);
      assert Encode(b) == g + Encode(rest);
      assert Unpadded(b) == g + Unpadded(rest);
      assert Padding(b) == Padding(rest);
      assert g + (Unpadded(rest) + Padding(rest)) == (g + Unpadded(rest)) + Padding(rest);
      assert |Unpadded(b)| == |Unpadded(rest)| + 4;
      assert |Encode(b)| == |Unpadded(b)| + |Padding(b)|;
      PaddedLength(|Unpadded(b)|, |Padding(b)|);
    } else {
      assert |b| % 3 == |b|;
      assert |Encode(b)| == (if |b| == 0 then 0 else 4);
    }
  }

  lemma StepMod3(n: nat)
    ensures (n + 3) % 3 == n % 3
  {
  }

  lemma StepMod4(n: nat)
    ensures (n + 4) % 4 == n % 4
  {
  }

  /** The unpadded lengths 0, 2, 3 mod 4 and their paddings 0, 2, 1 add up to a
      multiple of four. */
  lemma PaddedLength(u: nat, p: nat)
    requires (u % 4 == 0 && p == 0) || (u % 4 == 2 && p == 2) || (u % 4 == 3 && p == 1)
    ensures (u + p) % 4 == 0
  {
    var q := u / 4;
    assert u == 4 * q + u % 4;
    assert u + p == 4 * (q + (if p == 0 then 0 else 1));
  }

  lemma EncodeAlphabet(b: seq<byte>)
    ensures forall i :: 0 <= i < |Encode(b)| ==> IsAlphabetChar(Encode(b)[i]) || Encode(b)[i] == '='
  {
    EncodeShape(b);
    var u, p := Unpadded(b), Padding(b);
    forall i | 0 <= i < |Encode(b)| ensures IsAlphabetChar(Encode(b)[i]) || Encode(b)[i] == '=' {
      if i < |u| { assert Encode(b)[i] == u[i]; } else { assert Encode(b)[i] == p[i - |u|]; }
    }
  }

  lemma DivMod16(q: int, r: int)
    requires 0 <= r < 16
    ensures (q * 16 + r) / 16 == q && (q * 16 + r) % 16 == r
  {
  }

  lemma DivMod4(q: int, r: int)
    requires 0 <= r < 4
    ensures (q * 4 + r) / 4 == q && (q * 4 + r) % 4 == r
  {
  }

  /** The bit arithmetic of one group: the four sextets reassemble the octets. */
  lemma GroupArithmetic(b0: byte, b1: byte, b2: byte)
    ensures var g := EncodeGroup(b0, b1, b2);
      var v0, v1, v2, v3 := SextetValue(g[0]), SextetValue(g[1]), SextetValue(g[2]), SextetValue(g[3]);
      && v0 * 4 + v1 / 16 == b0
      && (v1 % 16) * 16 + v2 / 4 == b1
      && (v2 % 4) * 64 + v3 == b2
  {
    DivMod16(b0 % 4, b1 / 16);
    DivMod4(b1 % 16, b2 / 64);
  }

  /** Decoding splits after a whole group of four characters. */
  lemma DecodeSextetsAppend(g: string, rest: string)
    requires |g| == 4 && AllAlphabet(g) && AllAlphabet(rest) && |rest| % 4 != 1
    ensures AllAlphabet(g + rest) && |g + rest| % 4 != 1
    ensures DecodeSextets(g + rest) == DecodeSextets(g) + DecodeSextets(rest)
  {
    var d := g + rest;
    assert d[4..] == rest;
    assert g[4..] == [];
    assert d[0] == g[0] && d[1] == g[1] && d[2] == g[2] && d[3] == g[3];
    assert AllAlphabet(d) by {
      forall i | 0 <= i < |d| ensures IsAlphabetChar(d[i]) {
        if i >= 4 { assert d[i] == rest[i - 4]; }
      }
    }
  }

  lemma DecodeGroup(b0: byte, b1: byte, b2: byte, rest: string)
    requires AllAlphabet(rest) && |rest| % 4 != 1
    ensures AllAlphabet(EncodeGroup(b0, b1, b2) + rest)
    ensures |EncodeGroup(b0, b1, b2) + rest| % 4 != 1
    ensures DecodeSextets(EncodeGroup(b0, b1, b2) + rest) == [b0, b1, b2] + DecodeSextets(rest)
  {
    DecodeSextetsAppend(EncodeGroup(b0, b1, b2), rest);
    DecodeEncodeGroup(b0, b1, b2);
  }

  /** One whole group of four characters decodes to the three octets its
      sextets spell. */
  lemma DecodeFour(g: string)
    requires |g| == 4 && AllAlphabet(g)
    ensures var v0, v1, v2, v3 := SextetValue(g[0]), SextetValue(g[1]), SextetValue(g[2]), SextetValue(g[3]);
      DecodeSextets(g) == [v0 * 4 + v1 / 16, (v1 % 16) * 16 + v2 / 4, (v2 % 4) * 64 + v3]
  {
    assert g[4..] == [];
  }

  lemma DecodeEncodeGroup(b0: byte, b1: byte, b2: byte)
    ensures DecodeSextets(EncodeGroup(b0, b1, b2)) == [b0, b1, b2]
  {
    var g := EncodeGroup(b0, b1, b2);
    DecodeFour(g);
    GroupArithmetic(b0, b1, b2);
  }

  /** A final single octet survives its zero-filled pair of sextets. */
  lemma DecodeOneOctet(b0: byte)
    ensures DecodeSextets(Unpadded([b0])) == [b0]
  {
    var d := Unpadded([b0]);
    assert d == [SextetChar(b0 / 4), SextetChar((b0 % 4) * 16)];
    var v0, v1 := SextetValue(d[0]), SextetValue(d[1]);
    assert v0 == b0 / 4 && v1 == (b0 % 4) * 16;
    DivMod16(b0 % 4, 0);
    assert v0 * 4 + v1 / 16 == b0;
  }

  /** A final pair of octets survives its three sextets. */
  lemma DecodeTwoOctets(b0: byte, b1: byte)
    ensures DecodeSextets(Unpadded([b0, b1])) == [b0, b1]
  {
    var d := Unpadded([b0, b1]);
    assert d == [SextetChar(b0 / 4), SextetChar((b0 % 4) * 16 + b1 / 16), SextetChar((b1 % 16) * 4)];
    var v0, v1, v2 := SextetValue(d[0]), SextetValue(d[1]), SextetValue(d[2]);
    assert v0 == b0 / 4 && v1 == (b0 % 4) * 16 + b1 / 16 && v2 == (b1 % 16) * 4;
    DivMod16(b0 % 4, b1 / 16);
    DivMod4(b1 % 16, 0);
    assert v0 * 4 + v1 / 16 == b0;
    assert (v1 % 16) * 16 + v2 / 4 == b1;
  }

  /** The final one or two octets survive the zero-filled tail. */
  lemma DecodeTailUnpadded(b: seq<byte>)
    requires |b| < 3
    ensures DecodeSextets(Unpadded(b)) == b
  {
    if |b| == 1 {
      DecodeOneOctet(b[0]);
      assert b == [b[0]];
    } else if |b| == 2 {
      DecodeTwoOctets(b[0], b[1]);
      assert b == [b[0], b[1]];
    }
  }

  lemma {:induction false} DecodeUnpadded(b: seq<byte>)
    ensures DecodeSextets(Unpadded(b)) == b
  {
    if |b| < 3 {
      DecodeTailUnpadded(b);
    } else {
      var rest := b[3..];
      DecodeUnpadded(rest);
      assert Unpadded(b) == EncodeGroup(b[0], b[1], b[2]) + Unpadded(rest);
      DecodeGroup(b[0], b[1], b[2], Unpadded(rest));
      SplitThree(b);
    }
  }

  lemma RemoveWhitespaceNone(s: string)
    requires forall i :: 0 <= i < |s| ==> !IsAsciiWhitespace(s[i])
    ensures RemoveWhitespace(s) == s
  {
    if s != [] {
      RemoveWhitespaceNone(s[1..]);
      assert s == [s[0]] + s[1..];
    }
  }

  /** Forgiving decode removes exactly the padding of an encoding. */
  lemma StripEncoding(b: seq<byte>)
    ensures StripPadding(Encode(b)) == Unpadded(b)
  {
    EncodeShape(b);
    var u, e := Unpadded(b), Encode(b);
    if |b| % 3 == 0 {
      if |e| > 0 {
        assert e[|e| - 1] == u[|u| - 1];
      }
    } else if |b| % 3 == 1 {
      assert e[..|e| - 2] == u;
    } else {
      assert e[|e| - 2] == u[|u| - 1];
      assert e[..|e| - 1] == u;
    }
  }

  /** Decoding inverts encoding (RFC 4648 section 4). */
  lemma DecodeEncode(b: seq<byte>)
    ensures ForgivingDecode(Encode(b)) == Some(b)
  {
    EncodeAlphabet(b);
    RemoveWhitespaceNone(Encode(b));
    StripEncoding(b);
    DecodeUnpadded(b);
  }

  /** `atob(btoa(t))` gives back every binary string. */
  lemma AtobBtoa(bs: seq<byte>)
    ensures Btoa(Percent.Latin1(bs)) == Some(Encode(bs))
    ensures Atob(Encode(bs)) == Some(Percent.Latin1(bs))
  {
    BinaryBytesLatin1(bs);
    DecodeEncode(bs);
  }

  /** The padding strip drops only final `=`: every other character stays. */
  lemma StripPaddingKeeps(w: string, c: char)
    requires c in w && c != '='
    ensures c in StripPadding(w)
  {
    var k :| 0 <= k < |w| && w[k] == c;
    var d := StripPadding(w);
    assert k < |d| && d == w[..|d|];
    assert d[k] == c;
  }

  /** A character anywhere in the input that is outside the alphabet and is
      neither whitespace nor `=` makes forgiving decode fail. */
  lemma RejectsForeignCharacter(s: string, k: nat)
    requires k < |s| && !IsAlphabetChar(s[k]) && !IsAsciiWhitespace(s[k]) && s[k] != '='
    ensures ForgivingDecode(s) == None
  {
    var c := s[k];
    var w := RemoveWhitespace(s);
    RemoveWhitespaceCount(s);
    assert c in s;
    assert c in w;
    StripPaddingKeeps(w, c);
    var d := StripPadding(w);
    var i :| 0 <= i < |d| && d[i] == c;
    assert !IsAlphabetChar(d[i]);
  }

  /** A data length of one more than a multiple of four, once whitespace is
      removed, makes forgiving decode fail: the padding strip never applies. */
  lemma RejectsLoneCharacter(s: string)
    requires |RemoveWhitespace(s)| % 4 == 1
    ensures ForgivingDecode(s) == None
  {
  }

  /** Whitespace anywhere is dropped before the padding is looked at, so it
      never changes the outcome. */
  lemma IgnoresWhitespace(s: string)
    ensures ForgivingDecode(s) == ForgivingDecode(RemoveWhitespace(s))
  {
    RemoveWhitespaceNone(RemoveWhitespace(s));
  }

  lemma {:induction false} RemoveWhitespaceAppend(a: string, b: string)
    ensures RemoveWhitespace(a + b) == RemoveWhitespace(a) + RemoveWhitespace(b)
  {
    if a == [] {
      assert a + b == b;
    } else {
      assert (a + b)[1..] == a[1..] + b;
      RemoveWhitespaceAppend(a[1..], b);
    }
  }

  /** An encoding ends in at most two `=`: an alphabet character precedes them. */
  lemma EncodePaddingAtMostTwo(b: seq<byte>, k: nat)
    requires k <= |Encode(b)|
    requires forall i :: |Encode(b)| - k <= i < |Encode(b)| ==> Encode(b)[i] == '='
    ensures k <= 2 && k <= |Padding(b)|
  {
    EncodeShape(b);
    var e, u := Encode(b), Unpadded(b);
    assert forall i :: 0 <= i < |u| ==> e[i] == u[i];
    if k > 0 {
      assert e[|e| - k] == '=';
    }
  }

  /** Only the empty sequence has the empty encoding. */
  lemma EncodeNonEmpty(b: seq<byte>)
    requires b != []
    ensures Encode(b) != []
  {
  }
}
