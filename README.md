# The Life Receipt, modelled in Dafny

The Life Receipt is a small web app built around a printable "receipt of
your life". This project models its core logic and proves properties of it:

- **Share token.** The receipt is saved into the URL fragment as
  `#config=<token>`. The token is Base64 of the UTF-8 bytes of the JSON text,
  percent-encoded. Loading parses the fragment with `URLSearchParams`,
  repairs spaces and missing padding, decodes, and parses the JSON.
- **Editor.** Handlers rebuild the receipt field by field, item by item, and
  entry by entry in the pool of hidden content.
- **Barcode.** Clicking the barcode reveals a polaroid: a random image and a
  random text from the pool. With no pool, it shows a keyword-selected story
  for a random receipt item.
- **Offline generator.** It assembles random receipts from fixed tables.
- **Mini tools.** A snake game, an ambiance mixer (a map from sound to
  volume), and the home page carousel.

The browser built-ins the share token depends on are modelled concretely:

- `encodeURIComponent`;
- the `%XX` collapse to binary characters;
- `btoa` (section 4 of RFC 4648);
- `atob` (the WHATWG forgiving-base64 decode);
- `decodeURIComponent` as strict UTF-8 (RFC 3629);
- the `application/x-www-form-urlencoded` parser behind `URLSearchParams`,
  with its lossy UTF-8 decode.

The main result is that a saved document always loads back unchanged. The
model also shows that it still loads when `+` became a space or the padding
was dropped on the way. The proof uses only an assumed round trip of the
JSON pair.

Modules, one per source file plus shared pieces:

- `Common`: strings, decimal ids, `Math.floor(Math.random() * n)`.
- `Utf8`, `Percent`, `Base64`: the built-ins above.
- `ReceiptTypes`: `types.ts`.
- `ReceiptCodec` and `ReceiptGenerator`: `components/ReceiptGenerator.tsx`.
- `Editor`: `components/Editor.tsx`.
- `GeminiService`: `services/geminiService.ts`.
- `RetroSnake`: `components/RetroSnake.tsx`.
- `AmbianceMixer`: `components/AmbianceMixer.tsx`.
- `Blog`: `Blog.tsx`.

Conventions:

- Each `Math.random()` the code draws is a `real` parameter in `[0, 1)`.
- The random sort of `getRandomSubset` is a permutation `order` of the table
  positions.
- `Date.now()` is a `nat` parameter.
- The formatted date is a string parameter.
- The outcome of the clipboard write is a `bool` parameter.
- `JSON.stringify` and `JSON.parse` are function parameters `serialize` and
  `parse`.

Where the original code updates state in place, the model does too. The
React components are classes whose methods modify their fields. `updateItem`
and `moveHiddenContent` write into a fresh array copy. `fromBase64` pads in a
`while` loop.

## Model

Some rows name a definition that carries no contract of its own, such as a
browser built-in written out as a recursive function. Such a row names the
built-in or expression the definition stands for and the standard it follows.
The rows after it, for the lemmas about it, give what is proved of it.

| member | source | states |
|---|---|---|
| Common.ReplaceChar | components/ReceiptGenerator.tsx:42 | `replace(/ /g, '+')`: same length, each occurrence replaced, every other character kept |
| Common.ReplaceCharAppend | components/ReceiptGenerator.tsx:42 | the replacement distributes over concatenation |
| Common.ReplaceCharUndo | components/ReceiptGenerator.tsx:42 | replacing back restores a string that did not contain the replacement |
| Common.ContainsAt | services/geminiService.ts:75 | `includes` holds whenever the pattern starts at some position |
| Common.ContainsFirstChar | services/geminiService.ts:99-113 | a pattern whose first character never occurs is not included |
| Common.DecimalString | components/Editor.tsx:41 | `toString()` of a timestamp is a non-empty string of decimal digits |
| Common.DecimalStringValue | components/Editor.tsx:41 | the digits read back as the number, so the id determines the timestamp |
| Common.Substring1 | components/ReceiptGenerator.tsx:68 | `substring(1)` drops exactly the first character, and leaves an empty string empty |
| Common.Pick | services/geminiService.ts:48 | `Math.floor(Math.random() * n)` is a valid index below `n` |
| Utf8.Encode | components/ReceiptGenerator.tsx:35 | the UTF-8 encoding of section 3 of RFC 3629 that `encodeURIComponent` escapes; at least one octet per character |
| Utf8.EncodeChar | components/ReceiptGenerator.tsx:35 | one to four bytes per scalar, a single byte exactly for ASCII, equal to the code |
| Utf8.EncodeAppend | components/ReceiptGenerator.tsx:35 | the UTF-8 encoding distributes over concatenation |
| Utf8.EncodeAscii | components/ReceiptGenerator.tsx:35 | ASCII text encodes to its own codes, one byte each |
| Utf8.Decode | components/ReceiptGenerator.tsx:44 | the strict UTF-8 decode inside `decodeURIComponent`, failing on any ill-formed sequence (RFC 3629 section 4) |
| Utf8.DecodeEncode | components/ReceiptGenerator.tsx:44-46 | strict decoding inverts encoding for every string of scalars |
| Utf8.EncodeDecode | components/ReceiptGenerator.tsx:44-46 | whatever decodes, re-encodes to the same bytes |
| Utf8.DecodeSucceedsIffValid | components/ReceiptGenerator.tsx:44-46 | strict decoding succeeds exactly on well-formed UTF-8 |
| Utf8.DecodeLossy | components/ReceiptGenerator.tsx:69 | the WHATWG "UTF-8 decode without BOM" used by `URLSearchParams`: at most one character per octet, U+FFFD per maximal ill-formed subpart |
| Utf8.DecodeLossyOfValid | components/ReceiptGenerator.tsx:69 | the lossy decode of `URLSearchParams` agrees with the strict one on valid input |
| Utf8.DecodeLossyEncode | components/ReceiptGenerator.tsx:69 | the lossy decode inverts encoding |
| Utf8.RejectsOverlongAndSurrogate | components/ReceiptGenerator.tsx:44-46 | an overlong form and an encoded surrogate fail; the lossy decode writes U+FFFD per maximal subpart |
| Utf8.MaximalSubpart | components/ReceiptGenerator.tsx:69 | the lossy decoder skips between one byte and the rest of the input |
| Percent.HexUpper | components/ReceiptGenerator.tsx:35 | an uppercase hex digit of the given value |
| Percent.HexLower | components/ReceiptGenerator.tsx:45 | the lowercase hex digit `toString(16)` writes, of the given value |
| Percent.EscapeBytes | components/ReceiptGenerator.tsx:35 | three characters per escaped byte |
| Percent.EncodeUriComponent | components/ReceiptGenerator.tsx:35 | `encodeURIComponent` of ECMAScript: unreserved characters kept, every other character as the `%XX` escapes of its UTF-8 octets |
| Percent.EncodeUriComponentAlphabet | components/ReceiptGenerator.tsx:35 | `encodeURIComponent` writes only unreserved characters, `%` and hex digits |
| Percent.EscapeBytesAlphabet | components/ReceiptGenerator.tsx:35 | byte `j` becomes `%` at position `3j` and two uppercase hex digits whose value is the byte; only `%` and hex digits occur |
| Percent.Latin1 | components/ReceiptGenerator.tsx:36 | `String.fromCharCode` of each byte: same length, each character has the byte's code |
| Percent.Latin1Append | components/ReceiptGenerator.tsx:36 | the byte-to-character map distributes over concatenation |
| Percent.CollapseEscapes | components/ReceiptGenerator.tsx:35-36 | the `replace(/%([0-9A-F]{2})/g, …)` collapse, left to right, each match to the character of that code |
| Percent.CollapseEscapeBytes | components/ReceiptGenerator.tsx:35-36 | the `%XX` collapse turns escaped bytes back into those bytes as characters |
| Percent.CollapseEncodeUriComponent | components/ReceiptGenerator.tsx:35-36 | collapsing the escapes of `encodeURIComponent(s)` gives the UTF-8 bytes of `s` as characters |
| Percent.EscapeBinary | components/ReceiptGenerator.tsx:44-46 | the `'%' + hex` map writes three characters per binary character |
| Percent.UnescapeEscapeBinary | components/ReceiptGenerator.tsx:44-46 | unescaping the `%xx` text gives back the bytes |
| Percent.DecodeUriComponent | components/ReceiptGenerator.tsx:44 | `decodeURIComponent`: on success, the result is the string whose UTF-8 octets the `%xx` escapes spell |
| Percent.DecodeEscapedBinary | components/ReceiptGenerator.tsx:44-46 | `decodeURIComponent` of the `%xx` text is the strict UTF-8 decode of the bytes |
| Percent.SplitOn | components/ReceiptGenerator.tsx:69 | splitting on `&` always yields at least one piece, and no piece holds the `&` |
| Percent.JoinSplitOn | components/ReceiptGenerator.tsx:69 | joining the pieces with the separator gives back the input, so the pieces are exactly the runs between separators |
| Percent.SplitOnAbsent | components/ReceiptGenerator.tsx:69 | a string without `&` is a single piece |
| Percent.Get | components/ReceiptGenerator.tsx:71-72 | `get` finds a value exactly when some pair has that name |
| Percent.GetFirst | components/ReceiptGenerator.tsx:72 | the value found is that of the first pair with the name |
| Percent.ReplaceCharAbsent | components/ReceiptGenerator.tsx:69 | the `+`-to-space step changes nothing when there is no `+` |
| Percent.PercentDecodeNoPercent | components/ReceiptGenerator.tsx:69 | percent-decoding is the identity without `%` |
| Percent.FormDecode | components/ReceiptGenerator.tsx:69 | the `application/x-www-form-urlencoded` decode of a name or value in the WHATWG URL Standard: `+` to space, percent-decode, lossy UTF-8 |
| Percent.FormDecodeAscii | components/ReceiptGenerator.tsx:69 | on ASCII without `%`, form decoding only turns `+` into a space |
| Percent.EncodeEscapeByte | components/ReceiptGenerator.tsx:120 | an escape is the three bytes `%`, high digit, low digit |
| Percent.PercentDecodeOneEscape | components/ReceiptGenerator.tsx:69 | percent-decoding reads one escape back as its byte |
| Percent.PercentDecodeEscapes | components/ReceiptGenerator.tsx:69 | percent-decoding reads a run of escapes back as its bytes |
| Percent.PercentDecodeEncodeUriComponent | components/ReceiptGenerator.tsx:120 | percent-decoding undoes `encodeURIComponent` at the byte level |
| Percent.FormDecodeEncodeUriComponent | components/ReceiptGenerator.tsx:69 | the form decoder of `URLSearchParams` inverts `encodeURIComponent` |
| Percent.SearchParams | components/ReceiptGenerator.tsx:69 | `new URLSearchParams(init)`: a leading `?` dropped, split on `&`, empty pieces skipped, each piece split at its first `=` |
| Percent.SearchParamsSinglePair | components/ReceiptGenerator.tsx:68-72 | `name=value` with no `&` parses to that one pair, its value form-decoded |
| Base64.SextetChar | components/ReceiptGenerator.tsx:35 | each 6-bit value maps to an alphabet character that maps back to it |
| Base64.SextetValue | components/ReceiptGenerator.tsx:44 | each alphabet character has a 6-bit value |
| Base64.BinaryBytes | components/ReceiptGenerator.tsx:35 | each byte is the code of the binary character in the same position |
| Base64.BinaryBytesLatin1 | components/ReceiptGenerator.tsx:35 | reading bytes back from their characters gives the bytes |
| Base64.RemoveWhitespace | components/ReceiptGenerator.tsx:44 | `atob` drops ASCII whitespace: no whitespace is left and nothing is added |
| Base64.RemoveWhitespaceCount | components/ReceiptGenerator.tsx:44 | every other character is kept as often as it occurs, and nothing else occurs; with `RemoveWhitespaceAppend`, they keep their order |
| Base64.StripPaddingKeeps | components/ReceiptGenerator.tsx:44 | the padding strip removes only `=`, so any other character survives it |
| Base64.RemoveWhitespaceAppend | components/ReceiptGenerator.tsx:44 | whitespace removal distributes over concatenation |
| Base64.RemoveWhitespaceNone | components/ReceiptGenerator.tsx:44 | text without whitespace is kept as it is |
| Base64.Unpadded | components/ReceiptGenerator.tsx:35 | the unpadded encoding is all alphabet, with no length 1 mod 4 |
| Base64.Padding | components/ReceiptGenerator.tsx:35 | the padding is empty, `==` or `=` for lengths 0, 1, 2 mod 3 |
| Base64.Encode | components/ReceiptGenerator.tsx:35 | the padded Base64 encoding of section 4 of RFC 4648, group of three octets by group |
| Base64.EncodeLength | components/ReceiptGenerator.tsx:35 | four characters for every started group of three octets, as section 4 of RFC 4648 specifies |
| Base64.Btoa | components/ReceiptGenerator.tsx:35 | `btoa` of the HTML Standard: the encoding of the octets, failing when a character code exceeds 255 |
| Base64.EncodeShape | components/ReceiptGenerator.tsx:35 | `btoa` output is the unpadded encoding plus the padding, and a multiple of 4 long |
| Base64.EncodeAlphabet | components/ReceiptGenerator.tsx:35 | `btoa` output uses only the alphabet and `=` |
| Base64.EncodePaddingAtMostTwo | components/ReceiptGenerator.tsx:43 | at most two trailing `=`, all from the padding |
| Base64.EncodeNonEmpty | components/ReceiptGenerator.tsx:75 | a non-empty input has a non-empty encoding |
| Base64.DecodeEncodeGroup | components/ReceiptGenerator.tsx:44 | one group of four decodes to its three bytes |
| Base64.DecodeGroup | components/ReceiptGenerator.tsx:44 | decoding a group followed by more text gives its three bytes, then the rest |
| Base64.DecodeSextetsAppend | components/ReceiptGenerator.tsx:44 | decoding distributes over whole groups of four |
| Base64.DecodeUnpadded | components/ReceiptGenerator.tsx:44 | decoding the unpadded encoding gives the bytes |
| Base64.StripEncoding | components/ReceiptGenerator.tsx:44 | the forgiving decoder's padding strip recovers the unpadded encoding |
| Base64.ForgivingDecode | components/ReceiptGenerator.tsx:44 | the WHATWG forgiving-base64 decode: whitespace removed, one or two final `=` stripped, fails on length 1 mod 4 or a foreign character |
| Base64.Atob | components/ReceiptGenerator.tsx:44 | `atob` of the HTML Standard: the decoded octets as a binary string, failing as the forgiving decode does |
| Base64.DecodeEncode | components/ReceiptGenerator.tsx:44 | the forgiving decode inverts the encoding for all byte strings |
| Base64.AtobBtoa | components/ReceiptGenerator.tsx:34-44 | `btoa` accepts every binary string, and `atob` of its output gives that string back |
| Base64.RejectsForeignCharacter | components/ReceiptGenerator.tsx:44 | for every input: a character anywhere that is outside the alphabet and is neither whitespace nor `=` makes decoding fail |
| Base64.RejectsLoneCharacter | components/ReceiptGenerator.tsx:44 | for every input: a length of 1 mod 4 once whitespace is removed makes decoding fail |
| Base64.IgnoresWhitespace | components/ReceiptGenerator.tsx:44 | for every input: decoding gives the same result as decoding the input with its whitespace removed |
| ReceiptTypes.FilterKind | components/ReceiptGenerator.tsx:91-92 | `filter(i => i.type === t)`: exactly the pool entries of that type, no more of them |
| ReceiptTypes.FilterKindCount | components/ReceiptGenerator.tsx:91-92 | each entry of that type is kept as often as the pool holds it, and no other entry |
| ReceiptTypes.FilterKindAppend | components/ReceiptGenerator.tsx:91-92 | filtering distributes over concatenation, so it keeps the pool order |
| ReceiptTypes.FilterKindPartition | components/ReceiptGenerator.tsx:91-92 | the image and text filters split the pool completely |
| ReceiptCodec.ToBase64 | components/ReceiptGenerator.tsx:34-38 | `toBase64` is Base64 of the UTF-8 bytes, a multiple of 4 long, alphabet and `=` only |
| ReceiptCodec.Padded | components/ReceiptGenerator.tsx:43 | the input extended by fewer than four `=` to a multiple of 4 |
| ReceiptCodec.PadToken | components/ReceiptGenerator.tsx:43 | the `while (length % 4) += '='` loop computes that padding |
| ReceiptCodec.DecodeToken | components/ReceiptGenerator.tsx:40-51 | `fromBase64` fails only with the single "Invalid config string" error |
| ReceiptCodec.FromBase64 | components/ReceiptGenerator.tsx:40-51 | the method with the loop computes that decoding |
| ReceiptCodec.DecodeTokenCases | components/ReceiptGenerator.tsx:44-50 | success exactly when `atob` accepts and the bytes are valid UTF-8; the text then re-encodes to them |
| ReceiptCodec.TokenUnchangedByRepairs | components/ReceiptGenerator.tsx:42-43 | the space and padding repairs do not touch a `toBase64` token |
| ReceiptCodec.DecodeTokenOfBase64 | components/ReceiptGenerator.tsx:40-51 | a token that is the encoding of a string decodes to it |
| ReceiptCodec.DecodeEncodeToken | components/ReceiptGenerator.tsx:34-51 | `fromBase64(toBase64(s)) == s` for every string |
| ReceiptCodec.MultipleOfFourUnique | components/ReceiptGenerator.tsx:43 | two lengths that are multiples of 4 and less than 4 apart are equal |
| ReceiptCodec.RepairDamaged | components/ReceiptGenerator.tsx:42-43 | the repairs restore a token from a copy with spaces for `+` and up to two `=` dropped |
| ReceiptCodec.DecodeDamagedToken | components/ReceiptGenerator.tsx:42-43 | such a damaged copy still decodes to the original string |
| ReceiptCodec.DecodePlusAsSpace | components/ReceiptGenerator.tsx:42 | a token with every `+` turned into a space still decodes |
| ReceiptCodec.DecodeWithoutPadding | components/ReceiptGenerator.tsx:43 | a token with trailing `=` dropped still decodes |
| ReceiptCodec.DecodeFailsOnLengthOneModFour | components/ReceiptGenerator.tsx:43-49 | a token of length 1 mod 4 always fails with the error |
| ReceiptCodec.DecodeFailsOnInvalidUtf8 | components/ReceiptGenerator.tsx:44-49 | for every token: valid Base64, once repaired, of octets that are not UTF-8 fails with the error |
| ReceiptCodec.DecodeFailsOnLoneFF | components/ReceiptGenerator.tsx:44-49 | an instance: `/w==` decodes to the lone octet 0xFF and fails with the error |
| ReceiptCodec.SaveHash | components/ReceiptGenerator.tsx:118-121 | the fragment is `config=` then only unreserved characters and `%` escapes |
| ReceiptCodec.ConfigString | components/ReceiptGenerator.tsx:66-73 | `configStr`: the `config` parameter of the fragment after its `#`, or the empty string when it is absent |
| ReceiptCodec.LoadConfig | components/ReceiptGenerator.tsx:65-83 | there is nothing to load exactly when the fragment has no non-empty `config` value |
| ReceiptCodec.ConfigStringOf | components/ReceiptGenerator.tsx:68-73 | the `config` value of `#config=v`, with no `&` in `v`, is `v` form-decoded |
| ReceiptCodec.TokenNonEmpty | components/ReceiptGenerator.tsx:75 | a non-empty JSON text gives a non-empty token |
| ReceiptCodec.LoadSaved | components/ReceiptGenerator.tsx:65-124 | loading the fragment saved for a document loads that document |
| ReceiptCodec.LoadRawToken | components/ReceiptGenerator.tsx:65-83 | a fragment with the raw token, padding dropped, also loads the document |
| ReceiptGenerator.RevealSelection | components/ReceiptGenerator.tsx:90-96 | the two conditional pushes of a random image and a random text |
| ReceiptGenerator.FilterKindNonEmpty | components/ReceiptGenerator.tsx:95-96 | a filter is non-empty exactly when the pool holds that type |
| ReceiptGenerator.RevealSelectionSpec | components/ReceiptGenerator.tsx:90-98 | an image first, then a text, one per type present, each from the pool; a non-empty pool reveals something |
| ReceiptGenerator.SelectHidden | components/ReceiptGenerator.tsx:91-96 | the two pushes build exactly that selection |
| ReceiptGenerator.DefaultRevealsImageThenText | components/ReceiptGenerator.tsx:90-98 | the default pool reveals its one image and one of its texts |
| ReceiptGenerator.FallbackStory | components/ReceiptGenerator.tsx:107-108 | the story generated for a random item of a non-empty list |
| ReceiptGenerator.ReceiptGeneratorState.constructor | components/ReceiptGenerator.tsx:58-62 | the default document, no polaroid, all flags off |
| ReceiptGenerator.ReceiptGeneratorState.HandleStateLoad | components/ReceiptGenerator.tsx:65-84 | a successful load replaces the document and starts printing; a failed load changes nothing |
| ReceiptGenerator.ReceiptGeneratorState.HandleSave | components/ReceiptGenerator.tsx:116-148 | the fragment becomes `#config=` and the token; the toast shows on success; the editor closes; printing starts |
| ReceiptGenerator.ReceiptGeneratorState.HandleBarcodeClick | components/ReceiptGenerator.tsx:89-114 | a non-empty pool reveals its selection; otherwise the story of a random item; with no items it throws and nothing changes |
| Editor.UpdateField | components/Editor.tsx:14-16 | the named field takes the value; every other field is unchanged |
| Editor.FieldsDetermineDocument | components/Editor.tsx:14-16 | agreeing on all fields determines a document, so that contract fixes the result |
| Editor.ApplyEdit | components/Editor.tsx:21 | an item edit changes exactly the named field |
| Editor.UpdateItem | components/Editor.tsx:18-22 | same length; item `i` edited in that field; every other item and field unchanged |
| Editor.AddItem | components/Editor.tsx:24-29 | one more item, `{新项目, 1, 无价}` at the end, the prefix and the rest unchanged |
| Editor.FilterIndex | components/Editor.tsx:31-34 | filtering by index removes exactly that position, or nothing when out of range |
| Editor.RemoveItem | components/Editor.tsx:31-34 | one item fewer and the others in order, the rest of the document unchanged |
| Editor.RemoveAddedItem | components/Editor.tsx:24-34 | removing the item just added restores the document |
| Editor.AddHiddenContent | components/Editor.tsx:38-46 | an absent pool counts as empty; one entry of that type, the timestamp id and empty content, appended |
| Editor.AddedIdsDiffer | components/Editor.tsx:41 | entries added at different times get different ids |
| Editor.SetContent | components/Editor.tsx:48-54 | every entry with the id gets the content; ids, types, order and length are kept |
| Editor.UpdateHiddenContent | components/Editor.tsx:48-54 | only the pool changes, to that map |
| Editor.SetContentTwice | components/Editor.tsx:48-54 | a second update of the same id overrides the first |
| Editor.WithoutId | components/Editor.tsx:56-59 | all and only the entries with another id are kept |
| Editor.WithoutIdAppend | components/Editor.tsx:56-59 | filtering distributes over concatenation, so it keeps the order |
| Editor.WithoutAbsentId | components/Editor.tsx:56-59 | removing an id no entry has changes nothing |
| Editor.RemoveHiddenContent | components/Editor.tsx:56-59 | only the pool changes, to that filter |
| Editor.RemoveAddedContent | components/Editor.tsx:38-59 | removing the entry just added restores the pool |
| Editor.Swap | components/Editor.tsx:63-66 | two positions exchanged, everything else kept, a permutation |
| Editor.Moved | components/Editor.tsx:61-69 | up swaps the entry with the one before it, down with the one after it, every other entry kept; a no-op for up at the top and down at the bottom; always a permutation |
| Editor.MoveUpThenDown | components/Editor.tsx:61-69 | moving up and then back down restores the pool |
| Editor.MoveHiddenContent | components/Editor.tsx:61-69 | the swap in the array copy gives that move, the rest of the document unchanged |
| RetroSnake.Opposite | components/RetroSnake.tsx:43-54 | no direction is its own opposite |
| RetroSnake.Move | components/RetroSnake.tsx:93-101 | the head moves to a neighbouring cell, at distance exactly one |
| RetroSnake.MoveOpposite | components/RetroSnake.tsx:96-101 | a move in the opposite direction undoes a move |
| RetroSnake.Step | components/RetroSnake.tsx:92-128 | a crash exactly on a wall or any segment, the tail included; otherwise the new head, then the body; grows by one exactly on food |
| RetroSnake.WellFormedCons | components/RetroSnake.tsx:115 | a new in-grid head on a free cell keeps the snake well formed |
| RetroSnake.StepPreservesWellFormed | components/RetroSnake.tsx:104-127 | segments stay on the board and pairwise distinct after a tick |
| RetroSnake.TailCollisionCrashes | components/RetroSnake.tsx:110-113 | running into the tail cell crashes |
| RetroSnake.KeyTurn | components/RetroSnake.tsx:43-54 | the guard never turns straight back; any other key is taken |
| RetroSnake.DoubleTurnReverses | components/RetroSnake.tsx:43-54 | two quick keys between ticks do reverse the snake into its neck |
| RetroSnake.GuardedTurn | components/RetroSnake.tsx:24 | a guard against the direction last moved takes any key except straight back, and never leaves a reversal buffered |
| RetroSnake.GuardedKeysNeverReverse | components/RetroSnake.tsx:24 | with that guard, no run of keys between two ticks buffers the reversal |
| RetroSnake.MoveInjective | components/RetroSnake.tsx:93-101 | different directions move the head to different cells |
| RetroSnake.GuardedTickSparesNeck | components/RetroSnake.tsx:24 | with that guard, the next head is never the neck, whatever keys came between the ticks |
| RetroSnake.SpawnFood | components/RetroSnake.tsx:66-71 | food is always on the board |
| RetroSnake.SnakeGame.constructor | components/RetroSnake.tsx:15-24 | the initial state |
| RetroSnake.SnakeGame.ChangeDir | components/RetroSnake.tsx:61-64 | both directions are set, nothing else changes |
| RetroSnake.SnakeGame.KeyDown | components/RetroSnake.tsx:41-56 | the buffer follows the keyboard guard |
| RetroSnake.SnakeGame.PadPress | components/RetroSnake.tsx:232-241 | the rendered direction follows the same guard |
| RetroSnake.SnakeGame.ResetGame | components/RetroSnake.tsx:73-81 | snake at (10,10), direction right, score 0, not over, playing |
| RetroSnake.SnakeGame.GameOverLogic | components/RetroSnake.tsx:83-87 | stops play and marks the game over |
| RetroSnake.SnakeGame.Tick | components/RetroSnake.tsx:89-129 | in terms of `Step`: a crash keeps the snake and ends the game; food adds 10 and respawns; well-formedness is kept |
| RetroSnake.SnakeGame.SyncHighScore | components/RetroSnake.tsx:32-37 | the high score never decreases and is at least the score |
| AmbianceMixer.DefaultVolume | components/AmbianceMixer.tsx:38 | 0.8 exactly for `night`, and 0.5 for every other id |
| AmbianceMixer.Toggled | components/AmbianceMixer.tsx:29-42 | a truthy entry is removed, anything else set to the default; no other key changes |
| AmbianceMixer.ToggleTwiceFromAbsent | components/AmbianceMixer.tsx:29-42 | toggling on and off from silence restores the map |
| AmbianceMixer.ZeroIsShownButToggledOn | components/AmbianceMixer.tsx:31 | a stored 0 is shown as on, yet a toggle sets the default rather than removing it |
| AmbianceMixer.Updated | components/AmbianceMixer.tsx:44-49 | the key takes the volume; no other key changes |
| AmbianceMixer.SliderVolume | components/AmbianceMixer.tsx:122 | the stored volume when it is truthy, otherwise the default; never 0 |
| AmbianceMixer.ToggleOnKeepsSlider | components/AmbianceMixer.tsx:122 | switching a silent sound on leaves its slider where it was |
| AmbianceMixer.SliderShowsUpdate | components/AmbianceMixer.tsx:44-49 | after a non-zero update the slider shows that volume |
| AmbianceMixer.Mixer.constructor | components/AmbianceMixer.tsx:26 | no sound is on |
| AmbianceMixer.Mixer.ToggleSound | components/AmbianceMixer.tsx:29-42 | the map becomes its toggle; the sound is shown on exactly when it was not playing; other sounds are shown on exactly when they have a stored entry |
| AmbianceMixer.Mixer.UpdateVolume | components/AmbianceMixer.tsx:44-49 | the map becomes its update; the sound is then shown on, with a non-zero volume on its slider |
| AmbianceMixer.Mixer.IsActive | components/AmbianceMixer.tsx:120 | every playing sound is shown on; of the others, only one with a stored 0 is |
| AmbianceMixer.Mixer.Volume | components/AmbianceMixer.tsx:122 | the slider shows the stored volume of a playing sound and the default otherwise; it is never 0 |
| Blog.NextIndex | Blog.tsx:63-65 | in range; the next position, or 0 after the last |
| Blog.PrevIndex | Blog.tsx:67-69 | in range; the previous position, or the last before 0 |
| Blog.NextPrevInverse | Blog.tsx:63-69 | next after previous and previous after next are the identity |
| Blog.NextTimes | Blog.tsx:63-65 | repeated presses stay in range |
| Blog.NextTimesNoWrap | Blog.tsx:63-65 | without wrapping, `k` presses advance by `k` |
| Blog.NextTimesCompose | Blog.tsx:63-65 | presses compose |
| Blog.FullCycle | Blog.tsx:63-65 | as many presses as there are tools return to the start |
| Blog.VisibleTools | Blog.tsx:71-77 | the previous, active and next tools, wrapping around |
| Blog.VisibleIndicesDistinct | Blog.tsx:71-77 | with three or more tools the three positions differ |
| Blog.VisibleToolsDistinct | Blog.tsx:71-77 | the page always shows three different tools |
| Blog.Carousel.constructor | Blog.tsx:60 | the carousel starts at the first tool |
| Blog.Carousel.NextSlide | Blog.tsx:63-65 | the index moves to the next position and stays in range |
| Blog.Carousel.PrevSlide | Blog.tsx:67-69 | the index moves to the previous position and stays in range |
| GeminiService.GetRandom | services/geminiService.ts:48 | the chosen value is an element of the array |
| GeminiService.GetRandomSubset | services/geminiService.ts:50-53 | `min(count, length)` elements at distinct positions given by the shuffle |
| GeminiService.HasContent | services/geminiService.ts:65 | `userPrompt && userPrompt.trim() !== ""`: some character is not JavaScript whitespace |
| GeminiService.CustomItemName | services/geminiService.ts:66 | the prompt itself up to 10 characters, else its first 10 and `...` |
| GeminiService.AssembleItems | services/geminiService.ts:62-77 | some name contains 对象; the custom item comes first; the rest come from the table or are 找对象 |
| GeminiService.ObjectItemMentionsObject | services/geminiService.ts:75-76 | the appended item satisfies the check that appends it |
| GeminiService.Quantity | services/geminiService.ts:84 | a truthy quantity is kept, else 1024 (exactly when the roll exceeds 0.8) or 1 to 5 |
| GeminiService.AssignQuantities | services/geminiService.ts:82-85 | names and prices kept, each quantity settled by its own roll |
| GeminiService.QuantitiesKeepItems | services/geminiService.ts:75-85 | the 对象 item and the custom item survive settlement, and no quantity is 0 |
| GeminiService.CsItemsLength | services/geminiService.ts:6-27 | the table has 20 entries |
| GeminiService.ReceiptItems | services/geminiService.ts:62-85 | 4 to 8 items, 对象 among them, the custom item first, no quantity 0 |
| GeminiService.GenerateReceipt | services/geminiService.ts:58-91 | those items, the fixed date range, each label drawn from its table, no hidden content |
| GeminiService.FirstMatch | services/geminiService.ts:99-113 | a story is found exactly when some rule matches |
| GeminiService.FirstMatchIsFirst | services/geminiService.ts:99-113 | the first matching rule in order decides |
| GeminiService.FirstMatchStory | services/geminiService.ts:99-113 | a found story is the story of the first matching rule |
| GeminiService.StoryForNoMatch | services/geminiService.ts:96 | with no matching rule the story is one of the fixed stories |
| GeminiService.RulesMatch | services/geminiService.ts:99-113 | each rule matches exactly when one of the keywords written for it occurs |
| GeminiService.FirstMatchRules | services/geminiService.ts:99-113 | the rule search follows the if/else-if chain |
| GeminiService.StoryFor | services/geminiService.ts:96-113 | the story of the first matching rule, else the random story |
| GeminiService.StoryForRule | services/geminiService.ts:96-113 | the story of the first matching rule, whatever the random story was |
| GeminiService.NoMatchByFirstChars | services/geminiService.ts:99-113 | a rule cannot match when no keyword's first character occurs |
| GeminiService.MatchByKeyword | services/geminiService.ts:99-113 | a keyword occurring at some position makes the rule match |
| GeminiService.StoryOfJava | services/geminiService.ts:99-100 | `Java大作业` gets the compiler story |
| GeminiService.StoryOfObject | services/geminiService.ts:102-103 | `404对象` gets the object story |
| GeminiService.StoryOfMaths | services/geminiService.ts:108-109 | `高等数学` gets the exam story, through `学` |
| GeminiService.GeneratePolaroidStory | services/geminiService.ts:93-122 | exactly two entries: image `1` with the default picture, then text `2` with the chosen story |

## Left out

- Strings are sequences of Unicode scalar values. JavaScript strings are
  UTF-16, so the following are not modelled:
  - lone surrogates, on which `encodeURIComponent` throws;
  - UTF-16 lengths: `userPrompt.length > 10` and `substring(0, 10)` count
    scalars here, and a prompt with characters outside the Basic
    Multilingual Plane can be cut differently by the original.
- GeminiService.CustomItemName: counts Unicode scalars, not UTF-16 code
  units, because strings are scalar sequences throughout.
- `JSON.stringify` and `JSON.parse` are parameters. The round trip is
  assumed (`JsonRoundTrip`) wherever loading a saved document is proved.
  `JSON.parse` output is cast to `ReceiptData` without any check. A document
  of another shape, such as a hidden content entry with an unknown `type`,
  cannot be represented.
- Timers are not modelled: the `setTimeout` that clears `isPrinting` after
  1.6 s and the one that hides the toast after 3 s. The async `delay` calls
  of the generator are left out too.
- ReceiptGenerator.ReceiptGeneratorState.HandleSave: clipboard I/O is
  abstracted. The clipboard API, the `textarea` fallback and the secure
  context test are one `bool` outcome. The fragment setter is plain
  assignment, because `config=` and the token contain no character the
  setter would escape.
- ReceiptGenerator.ReceiptGeneratorState.HandleBarcodeClick: the formatted
  date (`toLocaleDateString` with `/` replaced by `.`) is a parameter.
- `Math.random()` draws are parameters in `[0, 1)`. The comparator sort
  `sort(() => 0.5 - Math.random())` is any permutation of the table
  positions. The model does not describe the distribution it produces.
- Web Audio, `localStorage`, vibration and the interval timer are not
  modelled:
  - the mixer's effect that plays, pauses and sets the volume of the audio
    elements;
  - loading and saving the snake high score (the model starts it at 0);
  - `navigator.vibrate`.
- RetroSnake.SnakeGame.Tick: it is called only while playing, as the
  interval exists only then. React's batching of the score update and a
  second run of the state updater are not modelled.
- RetroSnake.SnakeGame.KeyDown and RetroSnake.SnakeGame.Tick: the class
  keeps the guard of the original code (`KeyTurn`, against the buffered
  direction). The corrected guard (`GuardedTurn`, against the direction of
  the last tick) is proved separately and is not wired into the class.
- RetroSnake.SnakeGame.PadPress: the rendered `direction` is kept equal to
  `directionRef`. The case where the rendered value lags the buffer between
  two clicks inside one render is not modelled.
- Editor.UpdateItem and Editor.MoveHiddenContent: they require an index
  below the length. The editor only passes the index of a shown row. An
  out-of-range index would make the JavaScript array sparse, which the model
  cannot represent.
- Rendering is not modelled: the receipt paper, barcode, polaroid and the
  other tools (`components/PolaroidGenerator.tsx`, `components/KarmaClicker.tsx`,
  `components/MoodMixtape.tsx`, `components/RetroGameCartridge.tsx`,
  `components/ReceiptPaper.tsx`, `components/Polaroid.tsx`, `App.tsx`).
- `hiddenStory` and `hiddenImage` are declared for older documents and
  carried along. No code reads them, so no migration is modelled.
- There is no LZ-compressed `#d=` format and no `?config=` query loading in
  the code, and none is modelled.

## Findings

| source | as written | input that shows it | evidently intended | confidence | as-written member | corrected member |
|---|---|---|---|---|---|---|
| components/RetroSnake.tsx:43-54 | each key is checked against `directionRef`, the buffered direction, which every accepted key overwrites | moving right, the keys Up and then Left before the next tick: Up is taken, then Left passes the check against Up, and the snake at (10,10) with neck (9,10) turns into its neck and crashes | the comment at line 24 says the buffer is there to prevent rapid double turns causing self-collision, so a key should be checked against the direction of the last tick | not executed | RetroSnake.DoubleTurnReverses | RetroSnake.GuardedTickSparesNeck |
