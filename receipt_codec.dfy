/** The shareable-receipt codec of the receipt generator: a document is
    serialized to JSON, its UTF-8 octets are Base64-encoded, and the token is
    percent-encoded into the `config` parameter of the URL fragment; loading
    reverses every step and repairs two kinds of damage a token suffers when
    it is pasted by hand. */
module ReceiptCodec {
  import opened Common
  import Utf8
  import Percent
  import Base64
  import opened ReceiptTypes

  /** The one error `fromBase64` throws, whatever went wrong. */
  const InvalidConfig: string := "Invalid config string"

  // ---- toBase64 ----

  /** `toBase64(str)`: the `%XX` escapes of `encodeURIComponent(str)` are
      collapsed into the octets they stand for, which yields the UTF-8 octets of
      `str` as a binary string, and `btoa` encodes them. */
  function ToBase64(str: string): (r: string)
    ensures r == Base64.Encode(Utf8.Encode(str))
    ensures |r| % 4 == 0
    ensures forall i :: 0 <= i < |r| ==> Base64.IsAlphabetChar(r[i]) || r[i] == '='
  {
    Percent.CollapseEncodeUriComponent(str);
    Base64.AtobBtoa(Utf8.Encode(str));
    Base64.EncodeShape(Utf8.Encode(str));
    Base64.EncodeAlphabet(Utf8.Encode(str));
    Base64.Btoa(Percent.CollapseEscapes(Percent.EncodeUriComponent(str))).value
  }

  // ---- fromBase64 ----

  /** The shortest extension of `s` by `=` whose length is a multiple of four. */
  function Padded(s: string): (r: string)
    ensures |s| <= |r| < |s| + 4 && |r| % 4 == 0
    ensures r[..|s|] == s
    ensures forall i :: |s| <= i < |r| ==> r[i] == '='
  {
    s + seq((4 - |s| % 4) % 4, _ => '=')
  }

  /** `while (safeStr.length % 4) safeStr += '='`. */
  method PadToken(s: string) returns (safeStr: string)
    ensures safeStr == Padded(s)
  {
    safeStr := s;
    while |safeStr| % 4 != 0
      invariant |s| <= |safeStr| <= |s| + (4 - |s| % 4) % 4
      invariant safeStr == s + seq(|safeStr| - |s|, _ => '=')
      decreases |s| + (4 - |s| % 4) % 4 - |safeStr|
    {
      safeStr := safeStr + "=";
    }
    MultipleOfFourUnique(|safeStr|, |Padded(s)|);
  }

  /** What `fromBase64(str)` returns: spaces are turned back into `+`, padding is
      restored, `atob` decodes, each character of the binary string is
      re-escaped as `%xx` and `decodeURIComponent` decodes the octets as UTF-8.
      Any failure on the way is the single error `InvalidConfig`. */
  function DecodeToken(str: string): (r: Result<string>)
    ensures r.Err? ==> r == Err(InvalidConfig)
  {
    match Base64.Atob(Padded(ReplaceChar(str, ' ', '+')))
    case None => Err(InvalidConfig)
    case Some(binary) =>
      match Percent.DecodeUriComponent(Percent.EscapeBinary(binary))
      case None => Err(InvalidConfig)
      case Some(s) => Ok(s)
  }

  /** `fromBase64(str)`, with its `try`/`catch` turned into a `Result`. */
  method FromBase64(str: string) returns (r: Result<string>)
    ensures r == DecodeToken(str)
  {
    var safeStr := ReplaceChar(str, ' ', '+');
    safeStr := PadToken(safeStr);
    var binary := Base64.Atob(safeStr);
    if binary.None? {
      return Err(InvalidConfig);
    }
    var decoded := Percent.DecodeUriComponent(Percent.EscapeBinary(binary.value));
    if decoded.None? {
      return Err(InvalidConfig);
    }
    return Ok(decoded.value);
  }

  // ---- properties of the codec ----

  /** The octets a token decodes to before the UTF-8 step. */
  function TokenBytes(str: string): Option<seq<Utf8.byte>> {
    Base64.ForgivingDecode(Padded(ReplaceChar(str, ' ', '+')))
  }

  /** Decoding succeeds exactly when the token is Base64 for valid UTF-8, and
      then its result is the whole string those octets encode, never a part. */
  lemma DecodeTokenCases(str: string)
    ensures DecodeToken(str).Ok? <==> TokenBytes(str).Some? && Utf8.Valid(TokenBytes(str).value)
    ensures DecodeToken(str).Ok? ==> Utf8.Encode(DecodeToken(str).value) == TokenBytes(str).value
  {
    var bytes := TokenBytes(str);
    if bytes.Some? {
      Percent.DecodeEscapedBinary(bytes.value);
      Utf8.DecodeSucceedsIffValid(bytes.value);
      if DecodeToken(str).Ok? {
        Utf8.EncodeDecode(bytes.value, DecodeToken(str).value);
      }
    }
  }

  /** Text of the shape `btoa` writes needs neither repair. */
  lemma CleanTokenUnchanged(t: string)
    requires |t| % 4 == 0
    requires forall i :: 0 <= i < |t| ==> Base64.IsAlphabetChar(t[i]) || t[i] == '='
    ensures ReplaceChar(t, ' ', '+') == t
    ensures Padded(t) == t
  {
    assert ' ' !in t by {
      forall i | 0 <= i < |t| ensures t[i] != ' ' {
        assert Base64.IsAlphabetChar(t[i]) || t[i] == '=';
      }
    }
    Percent.ReplaceCharAbsent(t, ' ', '+');
    PaddedWhole(t);
  }

  /** A length that is already a multiple of four gets no padding. */
  lemma PaddedWhole(s: string)
    requires |s| % 4 == 0
    ensures Padded(s) == s
  {
    var m := |s| % 4;
    assert (4 - m) % 4 == 0;
    assert seq((4 - m) % 4, _ => '=') == [];
  }

  /** A token needs neither repair. */
  lemma TokenUnchangedByRepairs(s: string)
    ensures ReplaceChar(ToBase64(s), ' ', '+') == ToBase64(s)
    ensures Padded(ToBase64(s)) == ToBase64(s)
  {
    CleanTokenUnchanged(ToBase64(s));
  }

  /** Decoding the octets of a token's Base64 gives back the string. */
  lemma DecodeTokenOfBase64(s: string, t: string)
    requires t == Base64.Encode(Utf8.Encode(s))
    ensures DecodeToken(t) == Ok(s)
  {
    var bs := Utf8.Encode(s);
    TokenUnchangedByRepairs(s);
    Base64.AtobBtoa(bs);
    assert Base64.Atob(Padded(ReplaceChar(t, ' ', '+'))) == Some(Percent.Latin1(bs));
    Percent.DecodeEscapedBinary(bs);
    Utf8.DecodeEncode(s);
  }

  /** Every string survives the round trip through a token, whatever code
      points it holds. */
  lemma DecodeEncodeToken(s: string)
    ensures DecodeToken(ToBase64(s)) == Ok(s)
  {
    DecodeTokenOfBase64(s, ToBase64(s));
  }

  /** `d` is token `t` as it may arrive from a pasted link: any of its `+` read
      as spaces and any number of its final `=` dropped. */
  predicate Damaged(t: string, d: string) {
    && |d| <= |t|
    && (forall i :: 0 <= i < |d| ==> d[i] == t[i] || (t[i] == '+' && d[i] == ' '))
    && (forall i :: |d| <= i < |t| ==> t[i] == '=')
  }

  lemma MultipleOfFourUnique(a: nat, b: nat)
    requires a % 4 == 0 && b % 4 == 0 && a - 4 < b < a + 4
    ensures a == b
  {
  }

  /** Repairing a damaged token rebuilds the token, provided the token's length
      is a multiple of four, it has no spaces and at most two `=` were lost. */
  lemma RepairDamaged(t: string, d: string)
    requires Damaged(t, d) && |t| % 4 == 0 && |t| - |d| <= 2
    requires forall i :: 0 <= i < |t| ==> t[i] != ' '
    ensures Padded(ReplaceChar(d, ' ', '+')) == t
  {
    var repaired := ReplaceChar(d, ' ', '+');
    assert repaired == t[..|d|] by {
      forall i | 0 <= i < |d| ensures repaired[i] == t[i] {
        assert t[i] != ' ';
      }
    }
    var p := Padded(repaired);
    MultipleOfFourUnique(|p|, |t|);
    forall i | 0 <= i < |t| ensures p[i] == t[i] {
      if i < |d| {
        assert p[i] == repaired[i];
      }
    }
  }

  /** The two repairs of `fromBase64` undo that damage: a damaged token still
      decodes to the original string. */
  lemma DecodeDamagedToken(s: string, d: string)
    requires Damaged(ToBase64(s), d)
    ensures DecodeToken(d) == Ok(s)
  {
    var t := ToBase64(s);
    Base64.EncodePaddingAtMostTwo(Utf8.Encode(s), |t| - |d|);
    assert forall i :: 0 <= i < |t| ==> t[i] != ' ' by {
      forall i | 0 <= i < |t| ensures t[i] != ' ' {
        assert Base64.IsAlphabetChar(t[i]) || t[i] == '=';
      }
    }
    RepairDamaged(t, d);
    DecodeEncodeToken(s);
    TokenUnchangedByRepairs(s);
  }

  /** Every `+` read as a space. */
  lemma DecodePlusAsSpace(s: string)
    ensures DecodeToken(ReplaceChar(ToBase64(s), '+', ' ')) == Ok(s)
  {
    DecodeDamagedToken(s, ReplaceChar(ToBase64(s), '+', ' '));
  }

  /** All padding dropped. */
  lemma DecodeWithoutPadding(s: string, k: nat)
    requires k <= |ToBase64(s)|
    requires forall i :: |ToBase64(s)| - k <= i < |ToBase64(s)| ==> ToBase64(s)[i] == '='
    ensures DecodeToken(ToBase64(s)[..|ToBase64(s)| - k]) == Ok(s)
  {
    DecodeDamagedToken(s, ToBase64(s)[..|ToBase64(s)| - k]);
  }

  lemma PaddedThree(s: string)
    requires |s| % 4 == 1
    ensures Padded(s) == s + "==="
  {
    var m := |s| % 4;
    assert (4 - m) % 4 == 3;
    assert seq((4 - m) % 4, _ => '=') == "===";
  }

  /** A token whose length is one more than a multiple of four cannot be
      repaired: the loop appends three `=`, and `atob` removes at most two. */
  lemma DecodeFailsOnLengthOneModFour(str: string)
    requires |str| % 4 == 1
    ensures DecodeToken(str) == Err(InvalidConfig)
  {
    var a := ReplaceChar(str, ' ', '+');
    var p := Padded(a);
    PaddedThree(a);
    Base64.RemoveWhitespaceAppend(a, "===");
    assert Base64.RemoveWhitespace("===") == "===";
    var w := Base64.RemoveWhitespace(p);
    var d := Base64.StripPadding(w);
    assert w[|w| - 3] == '=';
    assert d[|w| - 3] == '=' && !Base64.IsAlphabetChar(d[|w| - 3]);
  }

  /** A token that is valid Base64, once repaired, of octets that are not UTF-8
      fails with the error. */
  lemma DecodeFailsOnInvalidUtf8(str: string)
    requires TokenBytes(str).Some? && !Utf8.Valid(TokenBytes(str).value)
    ensures DecodeToken(str) == Err(InvalidConfig)
  {
    DecodeTokenCases(str);
  }

  /** Such a token: `/w==` decodes to the lone octet 0xFF. */
  lemma DecodeFailsOnLoneFF()
    ensures TokenBytes("/w==") == Some([255])
    ensures DecodeToken("/w==") == Err(InvalidConfig)
  {
    var t := "/w==";
    assert ReplaceChar(t, ' ', '+') == t;
    assert Padded(t) == t;
    assert Base64.RemoveWhitespace(t) == t;
    assert Base64.StripPadding(t) == "/w";
    assert Base64.DecodeSextets("/w") == [255];
    assert Base64.Atob(t) == Some(Percent.Latin1([255]));
    Percent.DecodeEscapedBinary([255]);
    assert Utf8.Decode([255]) == None;
  }

  // ---- placement in the URL fragment ----

  /** `config=${encodeURIComponent(toBase64(jsonString))}`: the fragment
      `handleSave` writes for a serialized document. */
  function SaveHash(json: string): (h: string)
    ensures StartsWith(h, "config=")
    ensures forall i :: 7 <= i < |h| ==> Percent.IsUnreserved(h[i]) || h[i] == '%'
  {
    Percent.EncodeUriComponentAlphabet(ToBase64(json));
    "config=" + Percent.EncodeUriComponent(ToBase64(json))
  }

  /** `configStr` in `handleStateLoad`: the `config` parameter of the fragment
      after its `#`, or the empty string when it is absent. */
  function ConfigString(hash: string): string {
    var params := Percent.SearchParams(Substring1(hash));
    match Percent.Get(params, "config")
    case None => ""
    case Some(v) => v
  }

  datatype LoadOutcome = NothingToLoad | Loaded(doc: ReceiptData) | LoadFailed

  /** What `handleStateLoad` makes of `window.location.hash`: no `config` value
      means nothing to load; otherwise the token is decoded and parsed, and
      either step may fail. */
  function LoadConfig(parse: string -> Option<ReceiptData>, hash: string): (r: LoadOutcome)
    ensures r.NothingToLoad? <==> ConfigString(hash) == ""
  {
    var configStr := ConfigString(hash);
    if configStr == "" then NothingToLoad
    else match DecodeToken(configStr)
      case Err(_) => LoadFailed
      case Ok(json) =>
        match parse(json)
        case None => LoadFailed
        case Some(d) => Loaded(d)
  }

  /** `JSON.parse(JSON.stringify(d))` gives `d` back, and a serialized document
      is never the empty string. */
  ghost predicate JsonRoundTrip(serialize: ReceiptData -> string, parse: string -> Option<ReceiptData>) {
    forall d :: parse(serialize(d)) == Some(d) && serialize(d) != ""
  }

  lemma ConfigStringOf(value: string)
    requires '&' !in value
    ensures ConfigString("#" + ("config=" + value)) == Percent.FormDecode(value)
  {
    var h := "#" + ("config=" + value);
    assert Substring1(h) == "config=" + value;
    assert "config=" + value == "config" + "=" + value;
    Percent.SearchParamsSinglePair("config", value);
  }

  lemma TokenNonEmpty(json: string)
    requires json != ""
    ensures ToBase64(json) != ""
  {
    Base64.EncodeNonEmpty(Utf8.Encode(json));
  }

  /** The escaped token has no `&` to split the parameters at. */
  lemma EscapedTokenUnsplit(t: string)
    ensures '&' !in Percent.EncodeUriComponent(t)
  {
    var e := Percent.EncodeUriComponent(t);
    Percent.EncodeUriComponentAlphabet(t);
    forall i | 0 <= i < |e| ensures e[i] != '&' {
      assert Percent.IsUnreserved(e[i]) || e[i] == '%';
    }
  }

  /** A fragment whose `config` value decodes to `json` loads what `parse`
      makes of it. */
  lemma LoadDecoded(parse: string -> Option<ReceiptData>, hash: string, json: string, d: ReceiptData)
    requires ConfigString(hash) != "" && DecodeToken(ConfigString(hash)) == Ok(json)
    requires parse(json) == Some(d)
    ensures LoadConfig(parse, hash) == Loaded(d)
  {
  }

  /** A saved document loads back from the fragment `handleSave` writes. */
  lemma LoadSaved(serialize: ReceiptData -> string, parse: string -> Option<ReceiptData>, d: ReceiptData)
    requires JsonRoundTrip(serialize, parse)
    ensures LoadConfig(parse, "#" + SaveHash(serialize(d))) == Loaded(d)
  {
    var json := serialize(d);
    var t := ToBase64(json);
    var e := Percent.EncodeUriComponent(t);
    var h := "#" + SaveHash(json);
    EscapedTokenUnsplit(t);
    ConfigStringOf(e);
    Percent.FormDecodeEncodeUriComponent(t);
    assert ConfigString(h) == t;
    TokenNonEmpty(json);
    DecodeEncodeToken(json);
    LoadDecoded(parse, h, json, d);
  }

  /** A link whose token was pasted without percent-encoding, with its `+`
      turned into spaces by form decoding and perhaps its padding lost, still
      loads: this is what the repairs in `fromBase64` are for. */
  lemma LoadRawToken(serialize: ReceiptData -> string, parse: string -> Option<ReceiptData>, d: ReceiptData, k: nat)
    requires JsonRoundTrip(serialize, parse)
    requires k < |ToBase64(serialize(d))|
    requires forall i :: |ToBase64(serialize(d))| - k <= i < |ToBase64(serialize(d))| ==> ToBase64(serialize(d))[i] == '='
    ensures LoadConfig(parse, "#" + ("config=" + ToBase64(serialize(d))[..|ToBase64(serialize(d))| - k])) == Loaded(d)
  {
    var json := serialize(d);
    var t := ToBase64(json);
    var v := t[..|t| - k];
    RawTokenArrives(t, k);
    DecodeDamagedToken(json, ReplaceChar(v, '+', ' '));
    LoadDecoded(parse, "#" + ("config=" + v), json, d);
  }

  /** A Base64 text pasted into the fragment as it is, perhaps without its
      final `=`, reaches the decoder with its `+` turned into spaces. */
  lemma RawTokenArrives(t: string, k: nat)
    requires k < |t|
    requires forall i :: 0 <= i < |t| ==> Base64.IsAlphabetChar(t[i]) || t[i] == '='
    requires forall i :: |t| - k <= i < |t| ==> t[i] == '='
    ensures var v := t[..|t| - k];
      && ConfigString("#" + ("config=" + v)) == ReplaceChar(v, '+', ' ')
      && ReplaceChar(v, '+', ' ') != ""
      && Damaged(t, ReplaceChar(v, '+', ' '))
  {
    var v := t[..|t| - k];
    assert forall i :: 0 <= i < |v| ==> v[i] as int < 0x80 && v[i] != '%' && v[i] != '&' by {
      forall i | 0 <= i < |v| ensures v[i] as int < 0x80 && v[i] != '%' && v[i] != '&' {
        assert Base64.IsAlphabetChar(t[i]) || t[i] == '=';
      }
    }
    ConfigStringOf(v);
    Percent.FormDecodeAscii(v);
    var decoded := ReplaceChar(v, '+', ' ');
    assert |decoded| > 0;
    assert Damaged(t, decoded);
  }
}
