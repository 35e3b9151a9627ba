# OSC 52 sequence builder, in Dafny

This project models `dev.mccue.osc52.OSC52`, a small Java library that builds xterm's
"Manipulate Selection Data" control sequence (OSC Ps = 52). A terminal that receives it
sets, queries or clears a clipboard. The sequence is written as
`ESC ] 5 2 ; <selector> ; <body> BEL`. For the screen and tmux multiplexers it is wrapped
in a DCS passthrough.

The model has five modules:

- `Osc52` (osc52.dfy) is the library itself.
  - The immutable record `OSC52` is the datatype `Request`. Its clamping constructor is
    `Make`.
  - Each copy-with-one-field-changed setter is a member function of `Request`. The
    factories are `Of`, `OfQuery` and `OfClear`.
  - `toString()` is the method `Render`. It appends piece by piece to a string, as the
    source does with its `StringBuilder`, and returns `""` early for an over-limit Set. It
    is proved equal to the function `Sequence`, and the properties are proved about that
    function.
  - Screen mode's chunking loop is the method `SplitForScreen`. It fills an `array<Slot>`
    slot by slot, with the same `b64.length() / 76 + 1` size. The `Null` slot stands for
    the Java `null` that the loop can leave behind.
- `Base64` (base64.dfy) is the encoder of section 4 of RFC 4648 (standard alphabet, `=`
  padding, no line breaks), with a strict decoder as its partner: it refuses a final
  group whose unused bits are not zero (`DecodeRejectsLeftoverBits`).
- `Utf8` (utf8.dfy) is `String.getBytes(UTF_8)`: the encoder of section 3 of RFC 3629 over
  Unicode scalar values, with a strict decoder as its partner. It also has
  `String.length()`, measured in UTF-16 code units.
- `Strings` (strings.dfy) is `String.join`.
- `Osc52Examples` (examples.dfy) states every expected output of the repository's JUnit
  tests as a lemma. One of them, `CopyHelloWorldScreenLong`, is written in a different
  form: its payload is `Repeat("hello world ", 7) + "hello world"`, and its expected
  text is the test's literal written as the pieces that make it up (the escapes, and the
  base64 in its 16-character groups) rather than as one flat string.

Two behaviours follow the code, not the documentation:

- **The limit counts characters.** The class documentation speaks of limiting the string
  to "10 bytes" (`OSC52.java:66`). The code compares `str.length()`, a count of UTF-16
  code units, with the limit (`OSC52.java:325`). The model does the same (`Suppressed`,
  `Utf8.Utf16Length`), and `LimitCountsCharacters` shows six `é` (twelve octets) passing a
  limit of 10.
- **The screen array can keep a `null` slot.** When the base64 length is a multiple of 76,
  zero included, the array built at `OSC52.java:338` has one more slot than the loop
  fills. `String.join` then writes the text `null`. The model keeps this:
  `ScreenSetBody` and `EmptyPayloadOnScreenWritesNull` state it.

## Model

| member | source | states |
|---|---|---|
| Osc52.Make | src/main/java/dev/mccue/osc52/OSC52.java:95-107 | the constructor stores max(0, limit) (never negative, at least the argument, equal to it or 0) and every other field as given |
| Osc52.Of | src/main/java/dev/mccue/osc52/OSC52.java:115-123 | of(strs) holds the strings joined by one space, limit 0, SET, DEFAULT and SYSTEM |
| Osc52.Request.WithMode | src/main/java/dev/mccue/osc52/OSC52.java:131-139 | mode(m) changes the mode to m and leaves the other four fields unchanged |
| Osc52.Request.Tmux | src/main/java/dev/mccue/osc52/OSC52.java:150-152 | tmux() is the record with the mode set to TMUX and nothing else changed |
| Osc52.Request.Screen | src/main/java/dev/mccue/osc52/OSC52.java:164-166 | screen() is the record with the mode set to SCREEN and nothing else changed |
| Osc52.Request.WithClipboard | src/main/java/dev/mccue/osc52/OSC52.java:173-181 | clipboard(c) changes only the clipboard |
| Osc52.Request.Primary | src/main/java/dev/mccue/osc52/OSC52.java:191-193 | primary() is the record with the clipboard set to PRIMARY and nothing else changed |
| Osc52.Request.WithLimit | src/main/java/dev/mccue/osc52/OSC52.java:206-214 | limit(l) changes only the limit, which becomes max(0, l) |
| Osc52.Request.WithOperation | src/main/java/dev/mccue/osc52/OSC52.java:222-230 | operation(o) changes only the operation |
| Osc52.Request.Clear | src/main/java/dev/mccue/osc52/OSC52.java:240-242 | clear() is the record with the operation set to CLEAR and nothing else changed |
| Osc52.Request.Query | src/main/java/dev/mccue/osc52/OSC52.java:252-254 | query() is the record with the operation set to QUERY and nothing else changed |
| Osc52.Request.WithString | src/main/java/dev/mccue/osc52/OSC52.java:261-269 | withString(strs) replaces only the payload, with the strings joined by one space |
| Osc52.OfQuery | src/main/java/dev/mccue/osc52/OSC52.java:280-282 | ofQuery() is the empty-payload QUERY request with limit 0, DEFAULT and SYSTEM |
| Osc52.OfClear | src/main/java/dev/mccue/osc52/OSC52.java:293-295 | ofClear() is the empty-payload CLEAR request with limit 0, DEFAULT and SYSTEM |
| Osc52.NonPositiveLimitMeansNoLimit | src/main/java/dev/mccue/osc52/OSC52.java:195-214 | a zero or negative limit is stored as 0, is the same request as limit(0), and never suppresses the output |
| Osc52.OfJoinsWithSpace | src/main/java/dev/mccue/osc52/OSC52.java:115-123 | of(..., a, b, ...) equals of(..., a + " " + b, ...), and the same holds for withString |
| Osc52.Render | src/main/java/dev/mccue/osc52/OSC52.java:316-368 | the step-by-step toString(), with its early return and its screen array, produces exactly Sequence(r) |
| Osc52.SplitForScreen | src/main/java/dev/mccue/osc52/OSC52.java:338-346 | the loop fills an array of length/76 + 1 slots with chunk k at slot k and leaves the remaining slot null |
| Osc52.ChunkAt | src/main/java/dev/mccue/osc52/OSC52.java:339-345 | chunk k is the substring from 76k to min(76k + 76, length), which is what iteration k of the loop cuts |
| Osc52.SlotCount | src/main/java/dev/mccue/osc52/OSC52.java:338 | the array size length/76 + 1 is the chunk count, plus one exactly when the length is a multiple of 76 |
| Osc52.ChunksPartition | src/main/java/dev/mccue/osc52/OSC52.java:337-346 | the chunks are non-empty, at most 76 long, all but the last exactly 76, and they concatenate back to the base64 text |
| Osc52.SuppressedIffEmpty | src/main/java/dev/mccue/osc52/OSC52.java:316-368 | the output is "" if and only if the request is an over-limit Set; otherwise it is the body framed by the mode's escapes, the header and BEL |
| Osc52.OverLimitSetRendersNothing | src/main/java/dev/mccue/osc52/OSC52.java:323-327 | a Set whose payload is longer than a positive limit renders "" in every mode and for every clipboard |
| Osc52.LimitCountsUnitsNotOctets | src/main/java/dev/mccue/osc52/OSC52.java:325 | the limit measures UTF-16 units: whatever it suppresses is also over the limit in UTF-8 octets, and for ASCII the two rules agree |
| Osc52.QueryAndClearIgnorePayload | src/main/java/dev/mccue/osc52/OSC52.java:353-361 | Query and Clear render the framed bodies "?" and "!", whatever the payload and the limit |
| Osc52.SetBodyRecoversPayload | src/main/java/dev/mccue/osc52/OSC52.java:328 | the Set body is 4 * ceil(n / 3) characters of the base64 alphabet and padding, for the n octets of the payload's UTF-8, and decoding it gives the payload back |
| Osc52.SetBodyAppend | src/main/java/dev/mccue/osc52/OSC52.java:328 | when a payload's UTF-8 is whole 3-octet groups, the body of it followed by more text is its body followed by the body of the rest |
| Osc52.SetIsFramedBody | src/main/java/dev/mccue/osc52/OSC52.java:349-351 | outside screen mode, a Set within the limit carries the base64 body unbroken |
| Osc52.FrameWraps | src/main/java/dev/mccue/osc52/OSC52.java:297-310 | a frame in any mode is the DEFAULT frame between seqStart(mode) and seqEnd(mode) |
| Osc52.FrameText | src/main/java/dev/mccue/osc52/OSC52.java:319-320 | the frame written out per mode: the ESC ] 52 ; header, the selector, ';', the body and BEL, after "", ESC P tmux ; ESC or ESC P and before "", ESC \ or ESC \ |
| Osc52.TmuxWrapsDefault | src/main/java/dev/mccue/osc52/OSC52.java:297-310 | tmux output is the DEFAULT output preceded by ESC P tmux ; ESC and followed by ESC \ |
| Osc52.ScreenWrapsDefault | src/main/java/dev/mccue/osc52/OSC52.java:297-310 | screen output of a Query, a Clear or a one-chunk Set is the DEFAULT output preceded by ESC P and followed by ESC \ |
| Osc52.ScreenSetBody | src/main/java/dev/mccue/osc52/OSC52.java:329-348 | a screen Set body is the 76-character chunks joined by ESC \ ESC P, followed by ESC \ ESC P null when the base64 length is a non-zero multiple of 76, and only "null" for an empty base64 |
| Osc52.EqualsIsStructural | src/main/java/dev/mccue/osc52/OSC52.java:371-378 | equals holds exactly when all five fields agree, and equal requests render the same text |
| Base64.SymbolValueSymbol | src/main/java/dev/mccue/osc52/OSC52.java:328 | every 6-bit value is written as an alphabet character that reads back as that value |
| Base64.SextetsLength | src/main/java/dev/mccue/osc52/OSC52.java:328 | n octets become 4 sextets per whole group plus r + 1 for a final group of r octets |
| Base64.UnpackSextets | src/main/java/dev/mccue/osc52/OSC52.java:328 | unpacking the sextets gives the octets back |
| Base64.SextetsAppend | src/main/java/dev/mccue/osc52/OSC52.java:328 | after whole 3-octet groups, the sextets of a concatenation are the concatenation of the sextets |
| Base64.ValuesSymbols | src/main/java/dev/mccue/osc52/OSC52.java:328 | reading the alphabet characters back gives the sextets |
| Base64.SymbolsInAlphabet | src/main/java/dev/mccue/osc52/OSC52.java:328 | every character written for a sextet belongs to the alphabet |
| Base64.EncodeLength | src/main/java/dev/mccue/osc52/OSC52.java:328 | the encoding of n octets is 4 * ceil(n / 3) characters long |
| Base64.DecodeEncode | src/main/java/dev/mccue/osc52/OSC52.java:328 | decoding the encoding gives the octets back |
| Base64.EncodeAppend | src/main/java/dev/mccue/osc52/OSC52.java:328 | when the first part is whole 3-octet groups, the encoding of a concatenation is the concatenation of the encodings |
| Base64.EncodeAlphabet | src/main/java/dev/mccue/osc52/OSC52.java:328 | the encoding is alphabet characters, with '=' only in its last two places |
| Utf8.EncodeScalar | src/main/java/dev/mccue/osc52/OSC52.java:328 | a scalar value takes 1 to 4 octets: exactly 1 below U+0080 and exactly 4 from U+10000 |
| Utf8.Encode | src/main/java/dev/mccue/osc52/OSC52.java:328 | a string's UTF-8 has between one and four octets per character |
| Utf8.DecodeFirstEncodeScalar | src/main/java/dev/mccue/osc52/OSC52.java:328 | the strict decoder reads back the scalar value and its octet count from its encoding, whatever follows |
| Utf8.DecodeEncode | src/main/java/dev/mccue/osc52/OSC52.java:328 | decoding the UTF-8 of any string gives the string back |
| Utf8.EncodeAppend | src/main/java/dev/mccue/osc52/OSC52.java:328 | the UTF-8 of a concatenation is the concatenation of the UTF-8s |
| Utf8.EncodeAscii | src/main/java/dev/mccue/osc52/OSC52.java:328 | the UTF-8 of an ASCII string is its character codes, one octet each |
| Utf8.Utf16Length | src/main/java/dev/mccue/osc52/OSC52.java:325 | String.length() counts one or two UTF-16 units per character |
| Utf8.Utf16LengthAtMostOctets | src/main/java/dev/mccue/osc52/OSC52.java:325 | String.length() never exceeds the UTF-8 octet count, and it equals that count exactly for ASCII strings |
| Strings.JoinSnoc | src/main/java/dev/mccue/osc52/OSC52.java:348 | joining one more part adds one separator and the part at the end |
| Strings.JoinMerge | src/main/java/dev/mccue/osc52/OSC52.java:117 | joining two neighbouring parts first, with the separator, leaves String.join's result unchanged |
| Osc52Examples.HelloWorldBody | src/test/java/dev/mccue/osc52/TestCopy.java:9-16 | "hello world" has the body aGVsbG8gd29ybGQ= and a length of 11 |
| Osc52Examples.CopyHelloWorld | src/test/java/dev/mccue/osc52/TestCopy.java:9-16 | "hello world", SYSTEM, DEFAULT, limit 0 renders ESC ]52;c;aGVsbG8gd29ybGQ= BEL |
| Osc52Examples.CopyEmptyString | src/test/java/dev/mccue/osc52/TestCopy.java:17-24 | the empty payload renders ESC ]52;c; BEL |
| Osc52Examples.CopyHelloWorldPrimary | src/test/java/dev/mccue/osc52/TestCopy.java:25-32 | on PRIMARY the selector is p |
| Osc52Examples.CopyHelloWorldTmux | src/test/java/dev/mccue/osc52/TestCopy.java:33-40 | tmux mode wraps the sequence in ESC Ptmux; ESC ... ESC \ |
| Osc52Examples.CopyHelloWorldScreen | src/test/java/dev/mccue/osc52/TestCopy.java:41-48 | screen mode wraps a one-chunk body in ESC P ... ESC \ |
| Osc52Examples.CopyHelloWorldScreenLong | src/test/java/dev/mccue/osc52/TestCopy.java:49-56 | eight "hello world" in screen mode: the 128 base64 characters are cut after 76, and the two chunks are joined by ESC \ ESC P |
| Osc52Examples.CopyHelloWorldLimit11 | src/test/java/dev/mccue/osc52/TestCopy.java:57-64 | limit 11 lets the 11-character payload through |
| Osc52Examples.CopyHelloWorldLimit10 | src/test/java/dev/mccue/osc52/TestCopy.java:65-72 | limit 10 suppresses it: the output is "" |
| Osc52Examples.QuerySystem | src/test/java/dev/mccue/osc52/TestQuery.java:9-12 | ofQuery() on SYSTEM in DEFAULT mode renders ESC ]52;c;? BEL |
| Osc52Examples.QueryPrimary | src/test/java/dev/mccue/osc52/TestQuery.java:13-18 | on PRIMARY it renders ESC ]52;p;? BEL |
| Osc52Examples.QuerySystemTmux | src/test/java/dev/mccue/osc52/TestQuery.java:19-24 | the tmux-wrapped query on SYSTEM |
| Osc52Examples.QuerySystemScreen | src/test/java/dev/mccue/osc52/TestQuery.java:25-30 | the screen-wrapped query on SYSTEM |
| Osc52Examples.QueryPrimaryTmux | src/test/java/dev/mccue/osc52/TestQuery.java:31-36 | the tmux-wrapped query on PRIMARY |
| Osc52Examples.QueryPrimaryScreen | src/test/java/dev/mccue/osc52/TestQuery.java:37-42 | the screen-wrapped query on PRIMARY |
| Osc52Examples.ClearSystem | src/test/java/dev/mccue/osc52/TestClear.java:9-14 | ofClear() on SYSTEM in DEFAULT mode renders ESC ]52;c;! BEL |
| Osc52Examples.ClearSystemTmux | src/test/java/dev/mccue/osc52/TestClear.java:15-20 | the tmux-wrapped clear |
| Osc52Examples.ClearSystemScreen | src/test/java/dev/mccue/osc52/TestClear.java:21-26 | the screen-wrapped clear |
| Osc52Examples.WithinLimitRenders | src/main/java/dev/mccue/osc52/OSC52.java:325-327 | a payload within a positive limit always renders a non-empty sequence |
| Osc52Examples.LimitCountsCharacters | src/main/java/dev/mccue/osc52/OSC52.java:325 | six 'é' are twelve UTF-8 octets yet pass a limit of 10 |
| Osc52Examples.EmptyPayloadOnScreenWritesNull | src/main/java/dev/mccue/osc52/OSC52.java:338-348 | an empty payload in screen mode leaves the only slot null and renders ESC P ESC ]52;c;null BEL ESC \ |

## Left out

- `hashCode` (`OSC52.java:381-383`) delegates to `Objects.hash`, a library hash with wrapping arithmetic and nothing stated about it.
- The `Objects.requireNonNull` checks of the constructor: Dafny values cannot be null.
- Writing the sequence to `System.err`, and the terminal's reply to a query: both are the caller's I/O.
- Thread safety: the record is immutable and the model has no concurrency.
- Unpaired UTF-16 surrogates, and `getBytes(UTF_8)` replacing them with `?`: a Dafny `char` is a Unicode scalar value, so such strings cannot be formed.
- Java's 2^31 bound on string and array lengths: the model's lengths are unbounded. The limit itself is a Java `int` (`Int32`).
- `module-info.java` declares the module and holds no logic. `Mode.java`, `Operation.java` and `Clipboard.java` are the datatypes `Mode`, `Operation` and `Clipboard`, with `Selector` for the clipboard character.
- `Osc52.SeqStart` and `Osc52.SeqEnd` have no contract of their own: they are the three-row tables of `seqStart()` and `seqEnd()` (`OSC52.java:297-310`), written out per mode by `FrameText` and `FrameWraps`.
- `Osc52.Header` has no contract of its own: it is the `ESC ] 5 2 ; <selector> ;` text of `OSC52.java:320`, written out by `FrameText`.
- `Osc52.Equals` has no contract of its own: it is the five-field predicate of `equals` (`OSC52.java:371-378`), stated by `EqualsIsStructural`.
- `Osc52.Selector` has no contract of its own: it is the two-row table `SYSTEM -> 'c'`, `PRIMARY -> 'p'` (`Clipboard.java:10-14`), and the example lemmas check both characters in full outputs.
- The JUnit drivers are not modelled as code. Their expected strings are the lemmas in `Osc52Examples`.
