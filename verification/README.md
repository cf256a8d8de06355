# fix_engine: the FIX tag=value codecs and the engine loops, in Dafny

fix_engine is a small Rust library for FIX (Financial Information eXchange) version 4.4. Messages
travel as text: one `tag=value` field after another, each ended by SOH (byte 0x01). Three fields
are special:

- BeginString(8) opens the message.
- BodyLength(9) comes second and gives the length of what follows.
- CheckSum(10) closes the message. Its value is the byte sum mod 256 of everything before it,
  written as three digits.

The library has three codecs and two engines.

- `src/message.rs`: the exported `FixMessage`. It keeps the header, the body and the trailer in
  three string maps. `encode` fills in BeginString, SendingTime(52), BodyLength and CheckSum and
  writes the text; `decode` parses text back and checks the checksum.
- `src/fix_message.rs`: an older `FixMessage`, with its own `encode` (BodyLength counted
  differently, every header field written) and `decode` (it splits the whole text and checks the
  checksum after filing). Both engines use this codec.
- `src/message_optimised.rs`: `FixMessage2`. It keeps typed fields in fixed slots (ten header,
  ten body, one trailer) and renders them with a digit writer that does not allocate.
- `src/tag.rs`: the typed fields. Each kind of field knows its numeric tag, its name and its wire
  value.
- `src/engine.rs` and `src/fix_engine.rs`: two versions of an engine with a running flag and two
  threads. The receive thread appends socket reads to a buffer, cuts off the first complete frame
  (up to the SOH after the first `10=`), decodes it and passes successes on. The send thread
  encodes the messages it takes from a channel and writes them to the socket.

The Dafny modules follow the same layout.

| module | file | models |
|---|---|---|
| `Wire` | wire.dfy | Shared text machinery: rendering a field, rendering a map in a given iteration order, `str::split`, `find`, decimal rendering, zero padding, and `calculate_checksum` (which `src/message.rs` and `src/fix_message.rs` define identically). |
| `Tag` | tag.dfy | `src/tag.rs` |
| `MessageCodec` | message_codec.dfy | `src/message.rs` |
| `FixMessageCodec` | fix_message.dfy | `src/fix_message.rs` |
| `OptimisedCodec` | message_optimised.dfy | `src/message_optimised.rs` |
| `Framing` | framing.dfy | `extract_complete_message`, which the two engine files define with the same text. |
| `EngineLoops` | engine_loops.dfy | The receive and send loops of both engines, as functions of what the environment does on each pass. |
| `Engine` | engine.dfy | `src/engine.rs`: the flag, and the two loops as methods. |
| `FixEngine` | fix_engine.dfy | `src/fix_engine.rs`: the same. |

## How the model is built

- **Text.** Text is a `string`, and characters are bytes. The library uses only ASCII, so a
  `String` and its bytes have the same offsets.
- **Map order.** A Rust `HashMap` visits its keys in an order the program does not control. Every
  loop over a map therefore takes an *ordering* from the caller: each key exactly once
  (`Wire.IsOrdering`). Every property is stated for all orderings. Lemmas show which results do
  not depend on the ordering (the header, BodyLength, the checksum, the lengths).
- **Encoders.** The two map encoders are classes whose `Encode` method updates the maps in place.
  Each method is proved equal to a specification function, `Encoding`.
- **Decoders.** Both decoders are methods with the source's token loop, proved equal to a
  recursive function.
- **`FixMessage2`.** Its slots are arrays, as in the source. `int_to_str_no_alloc` writes
  backwards into an array.
- **Engine loops.** A loop is modelled as a method over a sequence of *ticks*, one per pass. A
  tick records what the environment decides on that pass:
  - the flag readings (at the loop head and at the later checks);
  - the socket read (`Data`, a timeout, WouldBlock or another error);
  - or the message `recv_timeout` yields.

  The methods are proved equal to the functions `EngineLoops.Run` and `EngineLoops.SendRun`.
  Lemmas about those functions state conservation of bytes, the reasons a loop ends, and how the
  two send loops relate.

## Model

| member | source | states |
|---|---|---|
| Wire.Checksum3 | src/message.rs:156-159 | The checksum text is three decimal digits. |
| Wire.Checksum3Value | src/fix_message.rs:28-31 | The three digits read back as the byte sum of the text mod 256. |
| Wire.Pad3IsZeroPad | src/message.rs:158 | `format!("{:03}", n)` is the decimal rendering of `n`, left-padded with '0' to width 3. |
| Wire.NatToString | src/message.rs:66 | `to_string` of an unsigned number gives at least one digit, no leading zero unless the number is zero, and reads back as the number. |
| Wire.NatToStringInjective | src/message.rs:66 | Different numbers render differently. |
| Wire.ParseDigitsOfDigits | src/message.rs:66 | The decimal digits of a number read back as that number. |
| Wire.WriteFields | src/message.rs:48-51 | The `write!` loop over a map produces exactly the fields of the visited keys, in visit order. |
| Wire.WriteFieldsExcept | src/message.rs:56-61 | The loop that skips 8 and 9 produces the fields of the other visited keys. |
| Wire.WritePresentFields | src/message.rs:69-74 | The loop over the fixed tag list writes the tags the map has, in list order. |
| Wire.WithDefaults | src/message.rs:40-45 | BeginString(8) and SendingTime(52) are added only when missing; the result has both keys and keeps every other entry. |
| Wire.FieldsTextPermutation | src/message.rs:49-51 | Visiting the keys in another order permutes the characters of the rendered text. |
| Wire.FieldsTextOrderIndependent | src/fix_message.rs:73-75 | The length and byte sum of a rendered map are the same for every iteration order. |
| Wire.OrderingsArePermutations | src/message.rs:57 | Two iteration orders of one key set are permutations of each other. |
| Wire.Split | src/message.rs:105 | `split(SOH)` yields at least one piece, and no piece contains the delimiter. |
| Wire.SplitThenJoin | src/fix_message.rs:118 | Joining the pieces of a split with the delimiter gives the text back. |
| Wire.SplitPiecesShorter | src/fix_message.rs:118 | No piece of a split is longer than the text. When the text holds the delimiter, every piece is shorter than it. |
| Wire.NonEmptyMembership | src/message.rs:105 | `filter(!is_empty)` keeps exactly the non-empty pieces. |
| Wire.SplitOnceSpec | src/message.rs:111-114 | `splitn(2, '=')` fails exactly when there is no '='; otherwise it cuts at the first '='. |
| Wire.IndexOf | src/engine.rs:133 | `find(SOH)` gives the first index of SOH, or nothing when SOH is absent. |
| Wire.Find | src/engine.rs:131 | `find("10=")` gives the first index where the pattern occurs, or nothing when it never occurs. |
| Tag.PossDupFlag.FromStr | src/tag.rs:41-47 | Accepts exactly "Y" and "N", giving the flag whose wire value is the input; anything else is "Invalid PossDupFlag value". |
| Tag.PossDupFlagRoundTrip | src/tag.rs:41-64 | Parsing a flag's wire value gives the flag back. |
| Tag.BeginString.Value | src/tag.rs:82-87 | "FIX.4.2" and "FIX.4.4" each belong to exactly one version. |
| Tag.MsgType.Value | src/tag.rs:130-160 | Every MsgType code is one or two characters. |
| Tag.MsgTypeCodeRoundTrip | src/tag.rs:130-160 | Every code reads back as the message kind that produced it. |
| Tag.MsgTypeValueInjective | src/tag.rs:130-160 | The 27 codes are pairwise distinct. |
| Tag.FixTag.TagId | src/tag.rs:183-201 | Every tag id is a decimal number without a leading zero. |
| Tag.TagIdClasses | src/tag.rs:183-201 | A field's tag is one of REQUIRED_HEADER_FIELDS exactly for the seven header kinds; only Checksum has tag 10. |
| Tag.TagIdMatchesFieldName | src/tag.rs:183-221 | Two fields share a tag id exactly when they share a field name. |
| Tag.TargetCompIDOverridesPayload | src/tag.rs:182-241 | TargetCompID reports tag 56 and its own name, though its CompID payload alone describes tag 49; the payload text goes through unchanged. |
| Tag.ValueCarriesPayload | src/tag.rs:223-241 | Every field that carries text puts that text on the wire unchanged. |
| Tag.RequiredHeaderFieldsAreTagIds | src/tag.rs:3 | Each of the seven mandatory header tags is the tag of some field kind. |
| MessageCodec.FixMessage.constructor | src/message.rs:30-36 | The header, body and trailer start empty. |
| MessageCodec.FixMessage.Encode | src/message.rs:38-91 | Returns the encoding of the message as it was, and leaves behind the completed header and trailer. |
| MessageCodec.EncodeMaps | src/message.rs:38-91 | The steps of `encode`, on the three maps, give `Encoding`'s text, header and trailer. |
| MessageCodec.EncodedHeader | src/message.rs:65-66 | The header left behind has the caller's keys plus 8, 9 and 52. |
| MessageCodec.EncodeFillsDefaults | src/message.rs:40-45 | Every header value but 9 is kept; 8 becomes "FIX.4.4" and 52 the clock reading only where missing; the body is untouched; the trailer gains the checksum. |
| MessageCodec.EncodingText | src/message.rs:76-90 | With no trailer field besides the checksum, the text is the header fields, the body fields, then `10=` with the checksum of exactly those fields. |
| MessageCodec.ChecksumCoversPrefix | src/message.rs:79-90 | The text ends with `10=ddd` and SOH, where ddd is the byte sum mod 256 of everything before it. |
| MessageCodec.BodyLengthCountsSpan | src/message.rs:53-74 | The text opens with the 8 and 9 fields. BodyLength equals the length of the span from there up to the checksum field, plus the header fields outside the mandatory tags (counted but never written). So it equals the span exactly when the header has only mandatory tags. |
| MessageCodec.EncodedHeaderOrderIndependent | src/message.rs:49-66 | Every iteration order gives the same header and the same BodyLength. |
| MessageCodec.EncodingOrderIndependent | src/message.rs:47-90 | Every iteration order gives the same message, the same checksum and a text of the same length. |
| MessageCodec.Decode | src/message.rs:93-152 | The loop over the fields returns what `Decoding` specifies. |
| MessageCodec.Decoding | src/message.rs:94-97 | Fails with "Message does not end with SOH" exactly when the text is empty or its last character is not SOH. |
| MessageCodec.DecodeTokens | src/message.rs:109-149 | The field loop fails only with "Invalid key-value pair in FIX message" or "Invalid checksum". |
| MessageCodec.DecodeTokensThroughFields | src/message.rs:109-149 | Tokens that have a '=' and a tag other than 10 are filed one by one, whatever they contain. Each one is added to the checksum input followed by one SOH. |
| MessageCodec.DecodeRejectsBareToken | src/message.rs:111-114 | For any text ending with SOH, a token without '=' that follows only such field tokens is rejected as an invalid key-value pair. |
| MessageCodec.DecodeChecksumField | src/message.rs:105-138 | For any text ending with SOH, take the first checksum token after field tokens only. The text is accepted exactly when its value is the checksum of the tokens before it, each re-terminated with one SOH, so empty pieces between SOHs add nothing. A mismatch is "Invalid checksum". Anything after that token is ignored. |
| MessageCodec.DecodeWithoutChecksum | src/message.rs:105-151 | For any text ending with SOH whose tokens are all fields other than the checksum, the text is accepted with those fields filed, and the trailer comes back empty. |
| MessageCodec.EmptyPieceLeftOutOfChecksum | src/message.rs:105-138 | In `f` SOH SOH `10=v` SOH, the empty piece is dropped: `v` is checked against the checksum of `f` and one SOH, not of the raw text before `10=`. |
| MessageCodec.ChecksumAfterPlainFields | src/message.rs:125-134 | For text built from fields, then the checksum field, then other tokens: accepted exactly when the value is the checksum of the fields' text, otherwise "Invalid checksum". |
| MessageCodec.FileAllKey | src/message.rs:119-148 | For each tag, the header holds it exactly when it is 8, 9, 35, 49, 56, 34 or 52 and occurs. The body holds it exactly when it is 9 or any other tag and occurs. The last occurrence wins in both maps. |
| MessageCodec.FileAllLastWriteWins | src/message.rs:141-148 | The same, for every tag at once. |
| MessageCodec.DecodeEncodedText | src/message.rs:93-152 | The fields of a header and a body, closed by their checksum, decode to: the mandatory header fields; the body fields plus BodyLength; the checksum. |
| MessageCodec.RoundTrip | src/message.rs:180-208 | Decoding `encode`'s text gives: the mandatory header fields; the body plus BodyLength(9); the checksum. Header fields outside the mandatory tags are never written, so they do not come back. |
| FixMessageCodec.FixMessage.constructor | src/fix_message.rs:52-59 | The three maps start empty. |
| FixMessageCodec.FixMessage.Encode | src/fix_message.rs:62-110 | Returns the encoding of the message as it was, and leaves behind the completed header and trailer. |
| FixMessageCodec.EncodeMaps | src/fix_message.rs:62-110 | The steps of `encode`, on the three maps, give `Encoding`'s text, header and trailer. |
| FixMessageCodec.EncodedHeader | src/fix_message.rs:77-80 | The header left behind has the caller's keys plus 8, 9 and 52. |
| FixMessageCodec.HeaderWeightIsFieldsLength | src/fix_message.rs:78 | `k.len() + v.len() + 2` summed over the header is the length of the header's rendered fields. |
| FixMessageCodec.HeaderWeightOrderIndependent | src/fix_message.rs:78 | The header sum does not depend on the iteration order. |
| FixMessageCodec.EncodeFillsDefaults | src/fix_message.rs:63-69 | Every header value but 9 is kept; 8 becomes "FIX.4.4" and 52 the clock reading only where missing; the body is untouched; the trailer gains the checksum. |
| FixMessageCodec.HeaderKeysOrdering | src/fix_message.rs:82-93 | Every header key is written exactly once: first the mandatory tags present, in their fixed order, then only non-mandatory keys. |
| FixMessageCodec.EncodingText | src/fix_message.rs:95-109 | With no trailer field besides the checksum, the text is the header fields, the body fields, then `10=` with the checksum of exactly those fields. |
| FixMessageCodec.ChecksumCoversPrefix | src/fix_message.rs:98-109 | The text ends with `10=ddd` and SOH, where ddd is the byte sum mod 256 of everything before it. |
| FixMessageCodec.BodyLengthCountsLead | src/fix_message.rs:77-93 | The text opens with the 8 and 9 fields. BodyLength equals the span up to the checksum field, plus the 8 field, plus 3, plus any BodyLength field the caller's header already had. |
| FixMessageCodec.EncodedHeaderOrderIndependent | src/fix_message.rs:72-80 | Every iteration order gives the same header and BodyLength, and body texts of the same length and byte sum. |
| FixMessageCodec.PrefixOrderIndependent | src/fix_message.rs:72-99 | Every iteration order gives header-and-body texts of the same length and the same checksum. |
| FixMessageCodec.EncodingOrderIndependent | src/fix_message.rs:62-110 | Every iteration order gives the same message and a text of the same length. |
| FixMessageCodec.FieldValueSpec | src/fix_message.rs:121-123 | The value taken is the text after the first '=' up to the next '=' (or the end). |
| FixMessageCodec.DecodeTokens | src/fix_message.rs:120-138 | The field loop fails only with "Invalid FIX message format". |
| FixMessageCodec.DecodeFields | src/fix_message.rs:118-138 | The loop over the tokens returns what `DecodeTokens` specifies. |
| FixMessageCodec.Decode | src/fix_message.rs:113-149 | `decode` returns what `Decoding` specifies, including the panic of the length subtraction. |
| FixMessageCodec.DecodeTokensFormat | src/fix_message.rs:120-123 | The field loop succeeds exactly when every token has a '='. |
| FixMessageCodec.DecodingFormatError | src/fix_message.rs:118-123 | "Invalid FIX message format" is answered exactly when some non-empty SOH-separated piece lacks '='. |
| FixMessageCodec.DecodeTokensChecksumTag | src/fix_message.rs:126-132 | After a successful loop, the trailer holds tag 10 exactly when some token starts with "10=". |
| FixMessageCodec.DecodingChecksumMissing | src/fix_message.rs:141 | "Checksum missing" is answered exactly when every non-empty piece has '=' and none starts with "10=". |
| FixMessageCodec.TrailerKeepsHeaderAndBody | src/fix_message.rs:126-132 | From the first checksum field on, every field goes to the trailer, so the header and the body no longer change. |
| FixMessageCodec.DecodeUnderflow | src/fix_message.rs:142 | A lone `10=v` without SOH makes the length subtraction underflow. |
| FixMessageCodec.DecodeTokensChecksumBound | src/fix_message.rs:120-132 | A CheckSum(10) value the loop files is at least three characters shorter than the longest token. |
| FixMessageCodec.DecodingUnderflowsOnlyWithoutSoh | src/fix_message.rs:118-142 | On text that holds an SOH, the length subtraction never underflows. |
| FixMessageCodec.DecodeAcceptsOnlyChecksum | src/fix_message.rs:141-148 | An accepted text carries a three-digit checksum below 256. It equals the byte sum mod 256 of the text without its last seven characters. |
| FixMessageCodec.FileAllKey | src/fix_message.rs:130-137 | Before the trailer, the mandatory header tags go to the header and all others to the body. The last occurrence wins, and the trailer stays empty. |
| FixMessageCodec.DecodeFieldsThenChecksum | src/fix_message.rs:113-149 | Fields closed by a checksum field decode to the filed fields with that checksum exactly when the checksum matches; otherwise the answer is "Invalid checksum". |
| FixMessageCodec.RoundTrip | src/fix_message.rs:166-194 | Decoding `encode`'s text gives: the mandatory header fields in the header; every other header field and every body field in the body (a body field wins over a header field with the same tag); the checksum in the trailer. |
| FixMessageCodec.RoundTripKeepsFields | src/fix_message.rs:166-194 | Every mandatory header field the caller set (except 9), and every body field, comes back with its value. |
| OptimisedCodec.FixMessage2.constructor | src/message_optimised.rs:76-82 | Three fresh arrays of 10, 10 and 1 slots, all empty. |
| OptimisedCodec.FixMessage2.Encode | src/message_optimised.rs:12-36 | Returns `Encoding`'s text. BodyLength goes into header slot 1 and the checksum into the trailer slot. The body is unchanged. |
| OptimisedCodec.EncodingLayout | src/message_optimised.rs:19-35 | The text is the present slots in index order, then `10=`, the checksum of exactly that rendering, and SOH. Only header slot 1 changes, and the trailer slot holds the checksum field. |
| OptimisedCodec.BodyLengthIsCountedText | src/message_optimised.rs:39-46 | The body length is the number of characters of the rendered fields other than 8 and 9. |
| OptimisedCodec.WeightSumIsCountedLength | src/message_optimised.rs:40-45 | Slot weights add up to the rendered length of the slots with the 8 and 9 fields removed. |
| OptimisedCodec.UncountedTags | src/message_optimised.rs:43 | The fields left out are exactly those whose tag id is "8" or "9". |
| OptimisedCodec.BodyLengthSpansBody | src/message_optimised.rs:14-22 | Take slot 0 holding BeginString, slot 1 holding nothing counted, and no other 8 or 9 field. Then BodyLength is exactly the length from after the 9 field to the checksum field, as FIX defines it. |
| OptimisedCodec.CalculateChecksum | src/message_optimised.rs:48-50 | The checksum is below 256. |
| OptimisedCodec.UnpaddedChecksum | src/message_optimised.rs:32-35 | The checksum is written without padding, so it matches the three-digit checksum of the other codecs exactly when it is at least 100. |
| OptimisedCodec.IntToStrNoAlloc | src/message_optimised.rs:52-73 | Returns the decimal digits of `n`. They are written at the end of the buffer, and the bytes before them are untouched. |
| OptimisedCodec.ToStringVia16Bytes | src/message_optimised.rs:20 | A fresh 16-byte buffer gives the decimal rendering of the number. |
| OptimisedCodec.SampleBodyLength | src/message_optimised.rs:151-158 | The test message has body length 66. |
| Framing.ExtractCharacterised | src/engine.rs:127-141 | A frame is found exactly when the buffer has an SOH at or after its first "10=". The buffer is then cut just after the first such SOH. |
| Framing.ExtractSplitsBuffer | src/fix_engine.rs:94-108 | The frame and the remaining bytes make up the buffer, and the frame ends with SOH. |
| Framing.ExtractWithoutMark | src/engine.rs:131 | Without "10=" there is no frame. |
| Framing.ExtractWithoutSoh | src/engine.rs:133 | With no SOH after the first "10=" there is no frame. |
| Framing.EmbeddedMarkEndsFrame | src/fix_engine.rs:98-104 | The "10=" inside a field such as `110=` ends the frame at that field's SOH, before the real checksum field. |
| EngineLoops.ZeroReadKeepsBuffer | src/engine.rs:50-51 | A zero-size read changes nothing. |
| EngineLoops.IncompleteFrameKept | src/engine.rs:52-55 | Without a complete frame, the chunk stays appended and nothing is passed on. |
| EngineLoops.FrameNeverUnderflows | src/engine.rs:55-56 | A frame ends with SOH, so `decode` never panics on its length subtraction. |
| EngineLoops.FrameReplacesBuffer | src/engine.rs:55-60 | With a complete frame, the buffer becomes the bytes after it whatever `decode` says. Only a success is passed on. |
| EngineLoops.PassNeverPanics | src/fix_engine.rs:47-59 | No pass of either receive loop ends in a panic. |
| EngineLoops.OnDataConserves | src/fix_engine.rs:47-59 | One read loses and duplicates no bytes: frames taken plus the buffer grow by exactly the chunk. At most one frame is taken, and the successful decodes of the frames taken are passed on. |
| EngineLoops.PassConserves | src/fix_engine.rs:44-62 | A pass of either loop conserves bytes the same way. |
| EngineLoops.RunConserves | src/engine.rs:46-74 | Over a whole run, the frames taken followed by the buffer are exactly the bytes the reads returned. The run takes at most one frame per pass, and passes on exactly the successful decodes of those frames, in order. |
| EngineLoops.RunEndReasons | src/engine.rs:46-72 | A loop stops on reading the flag false: at the head, or (in src/engine.rs only) after a timeout or WouldBlock. A failed read ends it: any error in src/fix_engine.rs, a non-timeout error in src/engine.rs. A run never ends in a panic. Every earlier pass began with the flag set. |
| EngineLoops.TimeoutWhileRunning | src/engine.rs:64-71 | In src/engine.rs, a timeout while the flag stays set is a pass that changes nothing. |
| EngineLoops.ErrorEndsFixEngineLoop | src/fix_engine.rs:61 | In src/fix_engine.rs, any read error ends the loop, with the state unchanged. |
| EngineLoops.EncodeOutgoing | src/engine.rs:84-87 | The message object built from a taken message encodes to that message's `encode` text. |
| EngineLoops.SendRunWrites | src/engine.rs:82-95 | A send loop writes exactly the messages it took, in order, each as its `encode` text. |
| EngineLoops.SendLoopsAgree | src/fix_engine.rs:70-76 | The flag never comes back on. Under that condition both send loops write the same texts, and the loop of src/fix_engine.rs, which checks only at the head, makes at most one extra pass. |
| EngineLoops.FixEngineReceiveNeverStops | src/fix_engine.rs:44-89 | If every loop head reads the flag set, as the `shutdown` of src/fix_engine.rs forces, the receive loop ends only on a read error, or never. |
| EngineLoops.HeadOnlySendNeverStops | src/fix_engine.rs:70-89 | If every loop head reads the flag set, the send loop of src/fix_engine.rs makes every pass and writes every message it takes. |
| Engine.FixEngine.constructor | src/engine.rs:20-28 | The running flag starts set. |
| Engine.FixEngine.Shutdown | src/engine.rs:100-107 | The running flag is cleared. |
| Engine.ReceiveLoop | src/engine.rs:46-74 | The buffer, the messages passed on, the pass count and the end reason are those of `Run` for src/engine.rs. |
| Engine.SendLoop | src/engine.rs:82-95 | The texts written and the pass count are those of `SendRun` with the check after the wait. |
| FixEngine.FixEngine.constructor | src/fix_engine.rs:19-27 | The running flag starts set. |
| FixEngine.FixEngine.Shutdown | src/fix_engine.rs:80-82 | The running flag is cleared. The lock stays held afterwards; see "Where the code and its description differ". |
| FixEngine.ReceiveLoop | src/fix_engine.rs:44-63 | The buffer, the messages passed on, the pass count and the end reason are those of `Run` for src/fix_engine.rs. |
| FixEngine.SendLoop | src/fix_engine.rs:70-76 | The texts written and the pass count are those of `SendRun` with the check at the loop head only. |

## Where the code and its description differ

The model follows the code, and these behaviours are stated and proved as the code has them.

- **BodyLength in `src/message.rs`.** It counts every header field except 8 and 9, but step 4
  writes only the seven mandatory tags. A header field outside them is counted but never sent, so
  BodyLength exceeds the span it should measure (`MessageCodec.BodyLengthCountsSpan`).
- **BodyLength in `src/fix_message.rs`.** It counts every header field present at line 78, the
  8 field included, plus 3, plus any BodyLength field the caller had set. So it always exceeds the
  span after the 9 field (`FixMessageCodec.BodyLengthCountsLead`).
- **Tag 9 in `src/message.rs` decode.** Because the `continue` at line 122 is commented out,
  BodyLength is filed in the header and again in the body (`MessageCodec.FileAllKey`,
  `MessageCodec.RoundTrip`).
- **Checksum in `src/message_optimised.rs`.** It is written without zero padding, unlike FIX's
  three digits (`OptimisedCodec.UnpaddedChecksum`).
- **Frame search.** The frame boundary is a plain substring search for `10=`, so a field whose tag
  ends in 10 (such as 110) cuts the frame short (`Framing.EmbeddedMarkEndsFrame`).
- **Length subtraction in `src/fix_message.rs` decode.** `fix_str.len() - received_checksum.len() - 4`
  underflows on short input such as `10=123`. The model treats this as a panic, the outcome
  `SubtractOverflow` (`FixMessageCodec.DecodeUnderflow`). It happens only on text without SOH
  (`FixMessageCodec.DecodingUnderflowsOnlyWithoutSoh`). Every frame the receive loops cut off ends
  with SOH, so neither loop ever reaches it (`EngineLoops.FrameNeverUnderflows`), and no run ends
  with `Panicked` (`EngineLoops.RunEndReasons`).
- **Shutdown in `src/fix_engine.rs`.** The lock guard taken at line 81 lives to the end of
  `shutdown`, so the lock is still held while it joins the threads at lines 84-89. Both loops
  take the same lock at their head (lines 44 and 70) and block there. They never read the
  cleared flag, and the first `join` waits forever unless that thread ends some other way.
  `src/engine.rs` releases the lock in an inner block before joining (lines 104-107). So in
  `src/fix_engine.rs` every head reading is true: the receive loop ends only on a read error
  (`EngineLoops.FixEngineReceiveNeverStops`), and the send loop never leaves
  (`EngineLoops.HeadOnlySendNeverStops`).

## Left out

- **Environment.** Threads, sockets, channels, mutexes, logging and the clock are not modelled.
  - The flag and the environment's answers are per-pass readings in each tick.
  - The clock reading is a string parameter of `Encode`.
  - Joining the threads in `shutdown` is not modelled.
  - A panicking `unwrap` on `incoming_tx.send`, `write_all`, `lock` or `join` is not modelled.
- FixEngine.FixEngine.Shutdown: its model clears the flag but does not model the lock or the
  blocked joins. The ticks of `FixEngine.ReceiveLoop` and `FixEngine.SendLoop` may still read
  the flag false at a head, which this `shutdown` never allows. So their `Stopped` end, and the
  extra pass of `SendLoopsAgree`, describe a lock release that only `src/engine.rs` performs.
- **Interleaving.** The interleaving of the two threads is not modelled. `SendLoopsAgree`
  assumes only that the flag readings never go from false back to true.
- **Read size.** The 512-byte bound on one read is not modelled: a chunk is any string.
- **Bytes and encodings.** `String::from_utf8_lossy` is the identity here, because all text is
  taken to be ASCII. Invalid UTF-8 replacement is not modelled. The receive buffer `Vec<u8>` is a
  `string`.
- **Integer widths.** The `u32` and `usize` sums are unbounded integers: the model does not wrap
  them.
  - FixMessageCodec.Decode: in a release build the length subtraction at `src/fix_message.rs:142`
    wraps instead of panicking. That is not modelled: every underflow is `SubtractOverflow`.
  - OptimisedCodec.FixMessage2.Encode: it requires the body length to have at most 16 digits,
    the size of the digit buffer. A longer number would make the source panic on an index
    underflow.
- **Debug output.** The `Debug` implementations and `sorted_map` in `src/message.rs` and
  `src/fix_message.rs` are not modelled (output formatting only).
- **Other files.** `RealClock`, `src/clock.rs`, `src/engine_factory.rs` and `src/lib.rs` are not
  part of this model.
- **A missing import.** `src/engine.rs` imports `SOH` from a module `fix_protocol` that the
  repository does not have. The model uses the one SOH character, 0x01.
- **Trailer fields besides the checksum.**
  - MessageCodec.RoundTrip, MessageCodec.EncodingText and MessageCodec.ChecksumCoversPrefix
    assume the caller's trailer holds at most CheckSum(10). With more trailer fields, the
    trailer's iteration order would put them before or after the checksum.
  - FixMessageCodec.RoundTrip, FixMessageCodec.EncodingText and
    FixMessageCodec.ChecksumCoversPrefix assume the same, for the same reason.
- **Round-trip preconditions.**
  - MessageCodec.RoundTrip requires values and body tags without SOH, and body tags without '='
    that are neither mandatory header tags nor 10. These are the conditions under which the text
    parses back field by field.
  - FixMessageCodec.RoundTrip requires the same, and also no '=' in any tag or value, because its
    `decode` drops everything after a second '='.
- **Checksum test value.** The checksum values in the tests ("119" in `src/message.rs:286-292`
  and `src/message_optimised.rs:142-149`) are not restated: they would only repeat a byte-sum
  computation on a constant.
