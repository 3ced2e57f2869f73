/** UTF-8 (RFC 3629): the mapping from code points to octets that
    `encodeURIComponent` applies before escaping, the strict decoder that
    `decodeURIComponent` applies after unescaping, and the replacing decoder
    that URL parameter parsing uses. */
module Utf8 {
  import opened Common

  /** An octet. */
  type byte = x: int | 0 <= x < 256

  /** The character U+FFFD that replaces malformed input in the replacing decoder. */
  const Replacement: char := '�'

  /** The octets of one code point (RFC 3629 section 3). */
  function EncodeChar(c: char): (r: seq<byte>)
    ensures 1 <= |r| <= 4
    ensures (|r| == 1) == (c as int < 0x80)
    ensures |r| == 1 ==> r[0] == c as int
  {
    var cp := c as int;
    if cp < 0x80 then [cp]
    else if cp < 0x800 then [0xC0 + cp / 64, 0x80 + cp % 64]
    else if cp < 0x10000 then [0xE0 + cp / 4096, 0x80 + (cp / 64) % 64, 0x80 + cp % 64]
    else [0xF0 + cp / 262144, 0x80 + (cp / 4096) % 64, 0x80 + (cp / 64) % 64, 0x80 + cp % 64]
  }

  /** The octets of a string: the concatenation of the octets of its code points. */
  function Encode(s: string): (r: seq<byte>)
    ensures |r| >= |s|
  {
    if s == [] then [] else EncodeChar(s[0]) + Encode(s[1..])
  }

  lemma {:induction false} EncodeAppend(a: string, b: string)
    ensures Encode(a + b) == Encode(a) + Encode(b)
  {
    if a != [] {
      assert (a + b)[1..] == a[1..] + b;
      EncodeAppend(a[1..], b);
    } else {
      assert a + b == b;
    }
  }

  /** A string of code points below 0x80 is encoded one octet per character. */
  lemma {:induction false} EncodeAscii(s: string)
    requires forall i :: 0 <= i < |s| ==> s[i] as int < 0x80
    ensures |Encode(s)| == |s|
    ensures forall i :: 0 <= i < |s| ==> Encode(s)[i] == s[i] as int
  {
    if s != [] {
      EncodeAscii(s[1..]);
      assert Encode(s) == [s[0] as int] + Encode(s[1..]);
    }
  }

  // ---- the well-formed octet sequences of RFC 3629 section 4 ----

  predicate IsContinuation(b: byte) { 0x80 <= b <= 0xBF }

  /** Number of octets announced by a lead octet; 0 when it cannot start a sequence. */
  function SequenceLength(lead: byte): nat {
    if lead < 0x80 then 1
    else if 0xC2 <= lead <= 0xDF then 2
    else if 0xE0 <= lead <= 0xEF then 3
    else if 0xF0 <= lead <= 0xF4 then 4
    else 0
  }

  /** Range allowed for the second octet: narrower after E0, ED, F0 and F4,
      which excludes overlong forms, surrogates and values above U+10FFFF. */
  function SecondLow(lead: byte): byte {
    if lead == 0xE0 then 0xA0 else if lead == 0xF0 then 0x90 else 0x80
  }

  function SecondHigh(lead: byte): byte {
    if lead == 0xED then 0x9F else if lead == 0xF4 then 0x8F else 0xBF
  }

  /** A complete well-formed sequence starts at the front of `b`. */
  predicate WellFormedAt(b: seq<byte>)
    requires |b| > 0
  {
    var n := SequenceLength(b[0]);
    && 0 < n <= |b|
    && (n >= 2 ==> SecondLow(b[0]) <= b[1] <= SecondHigh(b[0]))
    && (n >= 3 ==> IsContinuation(b[2]))
    && (n >= 4 ==> IsContinuation(b[3]))
  }

  /** The code point of the well-formed sequence at the front of `b`. */
  function ScalarAt(b: seq<byte>): char
    requires |b| > 0 && WellFormedAt(b)
  {
    var n := SequenceLength(b[0]);
    var b0: int := b[0];
    if n == 1 then b0 as char
    else if n == 2 then ((b0 - 0xC0) * 64 + (b[1] as int - 0x80)) as char
    else if n == 3 then ((b0 - 0xE0) * 4096 + (b[1] as int - 0x80) * 64 + (b[2] as int - 0x80)) as char
    else ((b0 - 0xF0) * 262144 + (b[1] as int - 0x80) * 4096 + (b[2] as int - 0x80) * 64 + (b[3] as int - 0x80)) as char
  }

  /** Strict decoding: the string whose encoding `b` is, or None when `b` is
      not a concatenation of well-formed sequences. */
  function Decode(b: seq<byte>): Option<string>
    decreases |b|
  {
    if b == [] then Some([])
    else if !WellFormedAt(b) then None
    else match Decode(b[SequenceLength(b[0])..])
      case None => None
      case Some(rest) => Some([ScalarAt(b)] + rest)
  }

  /** Number of octets a malformed sequence at the front of `b` spans: its lead
      and the continuation octets that still fit it (its maximal subpart). */
  function MaximalSubpart(b: seq<byte>): (n: nat)
    requires |b| > 0
    ensures 1 <= n <= |b|
  {
    var len := SequenceLength(b[0]);
    if len <= 1 || |b| < 2 || !(SecondLow(b[0]) <= b[1] <= SecondHigh(b[0])) then 1
    else if len == 2 || |b| < 3 || !IsContinuation(b[2]) then 2
    else if len == 3 || |b| < 4 || !IsContinuation(b[3]) then 3
    else 4
  }

  /** The "UTF-8 decode without BOM" of the WHATWG Encoding Standard: every
      maximal malformed subpart becomes one U+FFFD. */
  function DecodeLossy(b: seq<byte>): (r: string)
    ensures |r| <= |b|
    decreases |b|
  {
    if b == [] then []
    else if WellFormedAt(b) then [ScalarAt(b)] + DecodeLossy(b[SequenceLength(b[0])..])
    else [Replacement] + DecodeLossy(b[MaximalSubpart(b)..])
  }

  /** Octet sequences that are the encoding of some string. */
  ghost predicate Valid(b: seq<byte>) {
    exists s :: Encode(s) == b
  }

  // ---- correctness of the decoders ----

  lemma DivMod64(q: int, r: int)
    requires 0 <= r < 64
    ensures (q * 64 + r) / 64 == q && (q * 64 + r) % 64 == r
  {
  }

  /** The encoding of one code point is a well-formed sequence that decodes to it,
      whatever follows it. */
  lemma EncodeCharAt(c: char, rest: seq<byte>)
    ensures var b := EncodeChar(c) + rest;
      |b| > 0 && WellFormedAt(b) && SequenceLength(b[0]) == |EncodeChar(c)| && ScalarAt(b) == c
  {
    var cp := c as int;
    if cp < 0x80 {
    } else if cp < 0x800 {
      DivMod64(cp / 64, cp % 64);
    } else if cp < 0x10000 {
      var x0, x1, x2 := cp / 4096, (cp / 64) % 64, cp % 64;
      Radix64Digits3(cp);
      ThreeOctetsAt(c, x0, x1, x2, rest);
    } else {
      var x0, x1, x2, x3 := cp / 262144, (cp / 4096) % 64, (cp / 64) % 64, cp % 64;
      Radix64Digits4(cp);
      FourOctetsAt(c, x0, x1, x2, x3, rest);
    }
  }

  /** A number below 0x10000 written as three digits in radix 64. */
  lemma Radix64Digits3(cp: nat)
    requires cp < 0x10000
    ensures cp == (cp / 4096) * 4096 + ((cp / 64) % 64) * 64 + cp % 64
    ensures cp / 4096 < 16
  {
    var q := cp / 64;
    assert cp == q * 64 + cp % 64;
    assert q == (q / 64) * 64 + q % 64;
    assert cp / 4096 == q / 64;
  }

  /** A number below 0x110000 written as four digits in radix 64. */
  lemma Radix64Digits4(cp: nat)
    requires cp < 0x110000
    ensures cp == (cp / 262144) * 262144 + ((cp / 4096) % 64) * 4096 + ((cp / 64) % 64) * 64 + cp % 64
    ensures cp / 262144 < 5
  {
    var q := cp / 64;
    var q2 := q / 64;
    assert cp == q * 64 + cp % 64;
    assert q == q2 * 64 + q % 64;
    assert q2 == (q2 / 64) * 64 + q2 % 64;
    assert cp / 4096 == q2;
    assert cp / 262144 == q2 / 64;
  }

  /** The three-octet form decodes to its code point whatever follows it. */
  lemma ThreeOctetsAt(c: char, x0: int, x1: int, x2: int, rest: seq<byte>)
    requires 0x800 <= c as int < 0x10000
    requires 0 <= x0 < 16 && 0 <= x1 < 64 && 0 <= x2 < 64 && c as int == x0 * 4096 + x1 * 64 + x2
    requires EncodeChar(c) == [0xE0 + x0, 0x80 + x1, 0x80 + x2]
    ensures var b := EncodeChar(c) + rest;
      |b| > 0 && WellFormedAt(b) && SequenceLength(b[0]) == 3 && ScalarAt(b) == c
  {
    var b := EncodeChar(c) + rest;
    assert b[0] == 0xE0 + x0 && b[1] == 0x80 + x1 && b[2] == 0x80 + x2;
    assert x0 == 0 ==> x1 >= 32;
    assert x0 == 13 ==> x1 < 32;
  }

  /** The four-octet form decodes to its code point whatever follows it. */
  lemma FourOctetsAt(c: char, x0: int, x1: int, x2: int, x3: int, rest: seq<byte>)
    requires 0x10000 <= c as int
    requires 0 <= x0 < 5 && 0 <= x1 < 64 && 0 <= x2 < 64 && 0 <= x3 < 64
    requires c as int == x0 * 262144 + x1 * 4096 + x2 * 64 + x3
    requires EncodeChar(c) == [0xF0 + x0, 0x80 + x1, 0x80 + x2, 0x80 + x3]
    ensures var b := EncodeChar(c) + rest;
      |b| > 0 && WellFormedAt(b) && SequenceLength(b[0]) == 4 && ScalarAt(b) == c
  {
    var b := EncodeChar(c) + rest;
    assert b[0] == 0xF0 + x0 && b[1] == 0x80 + x1 && b[2] == 0x80 + x2 && b[3] == 0x80 + x3;
    assert x0 == 0 ==> x1 >= 16;
    assert x0 == 4 ==> x1 < 16;
  }

  /** Strict decoding inverts encoding. */
  lemma {:induction false} DecodeEncode(s: string)
    ensures Decode(Encode(s)) == Some(s)
  {
    if s != [] {
      EncodeCharAt(s[0], Encode(s[1..]));
      var b := Encode(s);
      assert b[SequenceLength(b[0])..] == Encode(s[1..]);
      DecodeEncode(s[1..]);
      assert s == [s[0]] + s[1..];
    }
  }

  lemma DivMod4096(q: int, r: int)
    requires 0 <= r < 4096
    ensures (q * 4096 + r) / 4096 == q
  {
  }

  lemma DivMod262144(q: int, r: int)
    requires 0 <= r < 262144
    ensures (q * 262144 + r) / 262144 == q
  {
  }

  /** The two-octet form of a code point written in base 64 as `x0 x1`. */
  lemma EncodeTwo(c: char, x0: int, x1: int)
    requires 2 <= x0 < 32 && 0 <= x1 < 64 && c as int == x0 * 64 + x1
    ensures EncodeChar(c) == [0xC0 + x0, 0x80 + x1]
  {
    DivMod64(x0, x1);
  }

  /** The three-octet form of a code point written in base 64 as `x0 x1 x2`. */
  lemma EncodeThree(c: char, x0: int, x1: int, x2: int)
    requires 0 <= x0 < 16 && 0 <= x1 < 64 && 0 <= x2 < 64
    requires c as int == x0 * 4096 + x1 * 64 + x2 && 0x800 <= c as int
    ensures EncodeChar(c) == [0xE0 + x0, 0x80 + x1, 0x80 + x2]
  {
    var cp := c as int;
    DivMod4096(x0, x1 * 64 + x2);
    assert cp == (x0 * 64 + x1) * 64 + x2;
    DivMod64(x0 * 64 + x1, x2);
    DivMod64(x0, x1);
  }

  /** The four-octet form of a code point written in base 64 as `x0 x1 x2 x3`. */
  lemma EncodeFour(c: char, x0: int, x1: int, x2: int, x3: int)
    requires 0 <= x0 < 8 && 0 <= x1 < 64 && 0 <= x2 < 64 && 0 <= x3 < 64
    requires c as int == x0 * 262144 + x1 * 4096 + x2 * 64 + x3 && 0x10000 <= c as int
    ensures EncodeChar(c) == [0xF0 + x0, 0x80 + x1, 0x80 + x2, 0x80 + x3]
  {
    var cp := c as int;
    DivMod262144(x0, x1 * 4096 + x2 * 64 + x3);
    assert cp == (x0 * 64 + x1) * 4096 + (x2 * 64 + x3);
    DivMod4096(x0 * 64 + x1, x2 * 64 + x3);
    DivMod64(x0, x1);
    assert cp == ((x0 * 64 + x1) * 64 + x2) * 64 + x3;
    DivMod64((x0 * 64 + x1) * 64 + x2, x3);
    DivMod64(x0 * 64 + x1, x2);
  }

  /** A well-formed sequence is the encoding of the code point it decodes to. */
  lemma ScalarAtEncodes(b: seq<byte>)
    requires |b| > 0 && WellFormedAt(b)
    ensures EncodeChar(ScalarAt(b)) == b[..SequenceLength(b[0])]
  {
    var n := SequenceLength(b[0]);
    var c := ScalarAt(b);
    var b0: int := b[0];
    if n == 2 {
      EncodeTwo(c, b0 - 0xC0, b[1] - 0x80);
      assert b[..2] == [b[0], b[1]];
    } else if n == 3 {
      EncodeThree(c, b0 - 0xE0, b[1] - 0x80, b[2] - 0x80);
      assert b[..3] == [b[0], b[1], b[2]];
    } else if n == 4 {
      EncodeFour(c, b0 - 0xF0, b[1] - 0x80, b[2] - 0x80, b[3] - 0x80);
      assert b[..4] == [b[0], b[1], b[2], b[3]];
    }
  }

  lemma EncodeCons(c: char, rest: string)
    ensures Encode([c] + rest) == EncodeChar(c) + Encode(rest)
  {
    assert ([c] + rest)[1..] == rest;
  }

  /** Decoding succeeds only on the encoding of what it returns. */
  lemma {:induction false} EncodeDecode(b: seq<byte>, s: string)
    requires Decode(b) == Some(s)
    ensures Encode(s) == b
    decreases |b|
  {
    if b != [] {
      var n := SequenceLength(b[0]);
      var c, rest := ScalarAt(b), Decode(b[n..]).value;
      assert s == [c] + rest;
      EncodeDecode(b[n..], rest);
      ScalarAtEncodes(b);
      EncodeCons(c, rest);
      TakeDrop(b, n);
    }
  }

  /** Strict decoding fails exactly on octet sequences that are not valid UTF-8. */
  lemma DecodeSucceedsIffValid(b: seq<byte>)
    ensures Decode(b).Some? <==> Valid(b)
  {
    if Decode(b).Some? {
      EncodeDecode(b, Decode(b).value);
    }
    if Valid(b) {
      var s :| Encode(s) == b;
      DecodeEncode(s);
    }
  }

  /** On valid input the replacing decoder agrees with the strict one. */
  lemma {:induction false} DecodeLossyOfValid(b: seq<byte>, s: string)
    requires Decode(b) == Some(s)
    ensures DecodeLossy(b) == s
    decreases |b|
  {
    if b != [] {
      var n := SequenceLength(b[0]);
      var rest :| Decode(b[n..]) == Some(rest) && s == [ScalarAt(b)] + rest;
      DecodeLossyOfValid(b[n..], rest);
    }
  }

  lemma DecodeLossyEncode(s: string)
    ensures DecodeLossy(Encode(s)) == s
  {
    DecodeEncode(s);
    DecodeLossyOfValid(Encode(s), s);
  }

  /** Two of the forms RFC 3629 forbids: an overlong NUL and an encoded surrogate. */
  lemma RejectsOverlongAndSurrogate()
    ensures Decode([0xC0, 0x80]) == None
    ensures Decode([0xED, 0xA0, 0x80]) == None
    ensures DecodeLossy([0xC0, 0x80]) == [Replacement, Replacement]
    ensures DecodeLossy([0xE4, 0xB8]) == [Replacement]
  {
    var b: seq<byte> := [0xC0, 0x80];
    assert b[1..] == [0x80];
    assert b[1..][1..] == [];
    var t: seq<byte> := [0xE4, 0xB8];
    assert MaximalSubpart(t) == 2;
    assert t[2..] == [];
  }
}
