/** The map-based codec of src/message.rs, the `FixMessage` the library exports.
    `encode` renders the three maps to FIX tag=value text, filling in BeginString(8),
    SendingTime(52), BodyLength(9) and CheckSum(10); `decode` parses such text back. */
module MessageCodec {
  import opened Wire
  import opened Tag

  const ERR_NO_SOH: string := "Message does not end with SOH"
  const ERR_PAIR: string := "Invalid key-value pair in FIX message"
  const ERR_CHECKSUM: string := "Invalid checksum"

  /** The tags the `match` of `decode` files under the header; tag 9 gets there by its own `if`. */
  const DECODE_HEADER_TAGS: set<string> := {"8", "35", "49", "56", "34", "52"}

  // ---------------------------------------------------------------------------
  // Encoding

  /** The orders in which the three HashMap loops of `encode` visit the body, the header
      (when BodyLength is computed) and the trailer. */
  datatype EncodeOrder = EncodeOrder(body: seq<string>, header: seq<string>, trailer: seq<string>)

  /** `ord` is a possible iteration order of each map as it stands when its loop runs. */
  predicate OrderFits(m: Message, ord: EncodeOrder)
  {
    && IsOrdering(ord.body, m.body.Keys)
    && IsOrdering(ord.header, m.header.Keys + {"8", "52"})
    && IsOrdering(ord.trailer, m.trailer.Keys + {CHECKSUM_TAG})
  }

  /** Step 2 of `encode`: the length of every header field but 8 and 9 (visited in `headerOrder`)
      plus the length of the body text. */
  function BodyLengthOf(h: map<string, string>, headerOrder: seq<string>, body: string): nat
  {
    |FieldsText(h, Without(headerOrder, {"8", "9"}))| + |body|
  }

  /** The header `encode` leaves behind: the defaults filled in and BodyLength(9) set. */
  function EncodedHeader(m: Message, clock: string, ord: EncodeOrder): (h: map<string, string>)
    ensures h.Keys == m.header.Keys + {"8", "9", "52"}
  {
    var h := WithDefaults(m.header, clock);
    h["9" := NatToString(BodyLengthOf(h, ord.header, FieldsText(m.body, ord.body)))]
  }

  /** Step 4: the fields of the mandatory header tags present in `h`, in their fixed order. */
  function HeaderText(h: map<string, string>): string
  {
    FieldsText(h, PresentIn(REQUIRED_HEADER_FIELDS, h))
  }

  /** `encode` of `m` with the clock reading `clock`, the HashMap loops visiting keys as `ord` says. */
  function Encoding(m: Message, clock: string, ord: EncodeOrder): (e: Encoded)
  {
    var h := EncodedHeader(m, clock, ord);
    var body := FieldsText(m.body, ord.body);
    var t := m.trailer[CHECKSUM_TAG := Checksum3(HeaderText(h) + body)];
    Encoded(HeaderText(h) + body + FieldsText(t, ord.trailer), Message(h, m.body, t))
  }

  lemma EncodedHeaderIs(m: Message, clock: string, ord: EncodeOrder, n: nat)
    requires n == BodyLengthOf(WithDefaults(m.header, clock), ord.header, FieldsText(m.body, ord.body))
    ensures EncodedHeader(m, clock, ord) == WithDefaults(m.header, clock)["9" := NatToString(n)]
  {
  }

  /** The steps `encode` takes, put together, give `Encoding`. */
  lemma EncodingSteps(m: Message, clock: string, ord: EncodeOrder, h: map<string, string>,
                      fixBody: string, fixHeader: string, fixTrailer: string)
    requires EncodedHeader(m, clock, ord) == h
    requires fixBody == FieldsText(m.body, ord.body)
    requires fixHeader == HeaderText(h)
    requires fixTrailer == FieldsText(m.trailer[CHECKSUM_TAG := Checksum3(fixHeader + fixBody)], ord.trailer)
    ensures Encoding(m, clock, ord)
         == Encoded(fixHeader + fixBody + fixTrailer,
                    Message(h, m.body, m.trailer[CHECKSUM_TAG := Checksum3(fixHeader + fixBody)]))
  {
  }

  /** The message object of src/message.rs, whose `encode` updates its header and trailer in place. */
  class FixMessage {
    var header: map<string, string>
    var body: map<string, string>
    var trailer: map<string, string>

    /** `FixMessage::new`: three empty maps. */
    constructor ()
      ensures header == map[] && body == map[] && trailer == map[]
    {
      header, body, trailer := map[], map[], map[];
    }

    function Value(): Message
      reads this
    {
      Message(header, body, trailer)
    }

    /** `FixMessage::encode`: renders the message and leaves the completed header and trailer behind. */
    method Encode(clock: string, ord: EncodeOrder) returns (text: string)
      modifies this
      ensures text == Encoding(old(Value()), clock, ord).text
      ensures Value() == Encoding(old(Value()), clock, ord).message
    {
      text, header, trailer := EncodeMaps(header, body, trailer, clock, ord);
    }
  }

  /** The body of `FixMessage::encode` on the three maps: returns the text and the header and
      trailer it leaves behind (the body is not changed). */
  method EncodeMaps(header: map<string, string>, body: map<string, string>, trailer: map<string, string>,
                    clock: string, ord: EncodeOrder)
    returns (text: string, header': map<string, string>, trailer': map<string, string>)
    ensures text == Encoding(Message(header, body, trailer), clock, ord).text
    ensures Message(header', body, trailer') == Encoding(Message(header, body, trailer), clock, ord).message
  {
    ghost var m := Message(header, body, trailer);
    var h := header;
    if "8" !in h {
      h := h["8" := "FIX.4.4"];
    }
    if "52" !in h {
      h := h["52" := clock];
    }
    ghost var defaulted := h;
    assert defaulted == WithDefaults(m.header, clock);
    // Step 1: the body fields
    var fixBody := WriteFields(body, ord.body);
    // Step 2: BodyLength counts every header field but 8 and 9, and the body
    var tempHeader := WriteFieldsExcept(h, ord.header, {"8", "9"});
    var bodyLength := |tempHeader| + |fixBody|;
    // Step 3
    h := h["9" := NatToString(bodyLength)];
    EncodedHeaderIs(m, clock, ord, bodyLength);
    // Step 4: the mandatory header tags, in their fixed order
    var fixHeader := WritePresentFields(h, REQUIRED_HEADER_FIELDS);
    // Steps 5 and 6
    var messageWithoutChecksum := fixHeader + fixBody;
    var t := trailer[CHECKSUM_TAG := Checksum3(messageWithoutChecksum)];
    // Step 7
    var fixTrailer := WriteFields(t, ord.trailer);
    text := fixHeader + fixBody + fixTrailer;
    EncodingSteps(m, clock, ord, h, fixBody, fixHeader, fixTrailer);
    header', trailer' := h, t;
  }

  // ---------------------------------------------------------------------------
  // Decoding

  /** How `decode` files one `tag=value` field other than the checksum: tag 9 goes into the header
      (the `continue` after it is commented out) and then, like every tag outside
      8, 35, 49, 56, 34, 52, into the body as well. */
  function File(acc: Message, tag: string, value: string): Message
  {
    var acc := if tag == "9" then acc.(header := acc.header["9" := value]) else acc;
    if tag in DECODE_HEADER_TAGS then acc.(header := acc.header[tag := value])
    else acc.(body := acc.body[tag := value])
  }

  /** Filing the fields `es` one after the other. */
  function FileAll(acc: Message, es: seq<(string, string)>): Message
    decreases es
  {
    if es == [] then acc else FileAll(File(acc, es[0].0, es[0].1), es[1..])
  }

  /** The token loop of `decode` from `tokens[0]` on, given the message and checksum input built so far. */
  function DecodeTokens(tokens: seq<string>, acc: Message, checksumInput: string): (r: Result<Message>)
    ensures r.Err? ==> r.error == ERR_PAIR || r.error == ERR_CHECKSUM
  {
    if tokens == [] then Ok(acc)
    else
      match SplitOnce(tokens[0], '=')
      case None => Err(ERR_PAIR)
      case Some((tag, value)) =>
        if tag == CHECKSUM_TAG then
          if value == Checksum3(checksumInput) then Ok(acc.(trailer := acc.trailer[CHECKSUM_TAG := value]))
          else Err(ERR_CHECKSUM)
        else DecodeTokens(tokens[1..], File(acc, tag, value), checksumInput + tokens[0] + [SOH])
  }

  /** `FixMessage::decode` of `s`. */
  function Decoding(s: string): (r: Result<Message>)
    ensures r == Err(ERR_NO_SOH) <==> s == [] || s[|s| - 1] != SOH
  {
    if s == [] || s[|s| - 1] != SOH then Err(ERR_NO_SOH)
    else DecodeTokens(Tokens(s), EmptyMessage, "")
  }

  /** The tokens `decode` reads from text ending with SOH: the non-empty SOH-separated pieces
      before that final SOH. */
  function Tokens(s: string): seq<string>
    requires s != [] && s[|s| - 1] == SOH
  {
    NonEmpty(Split(s[..|s| - 1], SOH))
  }

  /** One step of the token loop on a field other than the checksum. */
  lemma DecodeTokensNext(tokens: seq<string>, acc: Message, input: string, tag: string, value: string)
    requires tokens != [] && SplitOnce(tokens[0], '=') == Some((tag, value)) && tag != CHECKSUM_TAG
    ensures DecodeTokens(tokens, acc, input) == DecodeTokens(tokens[1..], File(acc, tag, value), input + tokens[0] + [SOH])
  {
  }

  /** The token loop stops at a token without '='. */
  lemma DecodeTokensPairError(tokens: seq<string>, acc: Message, input: string)
    requires tokens != [] && SplitOnce(tokens[0], '=').None?
    ensures DecodeTokens(tokens, acc, input) == Err(ERR_PAIR)
  {
  }

  /** The token loop stops at the checksum field, with its verdict. */
  lemma DecodeTokensChecksum(tokens: seq<string>, acc: Message, input: string, value: string)
    requires tokens != [] && SplitOnce(tokens[0], '=') == Some((CHECKSUM_TAG, value))
    ensures DecodeTokens(tokens, acc, input)
         == if value == Checksum3(input) then Ok(acc.(trailer := acc.trailer[CHECKSUM_TAG := value])) else Err(ERR_CHECKSUM)
  {
  }

  /** `FixMessage::decode`. */
  method Decode(s: string) returns (r: Result<Message>)
    ensures r == Decoding(s)
  {
    if s == [] || s[|s| - 1] != SOH {
      return Err(ERR_NO_SOH);
    }
    var fields := NonEmpty(Split(s[..|s| - 1], SOH));
    ghost var result := Decoding(s);
    var message := EmptyMessage;
    var checksumInput := "";
    var i := 0;
    while i < |fields|
      invariant 0 <= i <= |fields|
      invariant DecodeTokens(fields[i..], message, checksumInput) == result
    {
      var part := fields[i];
      ghost var tokens := fields[i..];
      assert tokens[0] == part && tokens[1..] == fields[i + 1..];
      var keyValue := SplitOnce(part, '=');
      if keyValue.None? {
        DecodeTokensPairError(tokens, message, checksumInput);
        return Err(ERR_PAIR);
      }
      var tag, value := keyValue.value.0, keyValue.value.1;
      if tag == CHECKSUM_TAG {
        DecodeTokensChecksum(tokens, message, checksumInput, value);
        if value != Checksum3(checksumInput) {
          return Err(ERR_CHECKSUM);
        }
        return Ok(message.(trailer := message.trailer[tag := value]));
      }
      DecodeTokensNext(tokens, message, checksumInput, tag, value);
      checksumInput := checksumInput + part + [SOH];
      message := File(message, tag, value);
      i := i + 1;
    }
    return Ok(message);
  }

  // ---------------------------------------------------------------------------
  // Properties of decoding

  /** A field `decode` reads back as written: no SOH anywhere and no '=' in the tag. */
  predicate Plain(e: (string, string))
  {
    SOH !in e.0 && SOH !in e.1 && '=' !in e.0
  }

  lemma {:induction false} FileAllSnoc(acc: Message, es: seq<(string, string)>, e: (string, string))
    decreases es
    ensures FileAll(acc, es + [e]) == File(FileAll(acc, es), e.0, e.1)
  {
    if es == [] {
      assert es + [e] == [e];
    } else {
      assert (es + [e])[1..] == es[1..] + [e];
      FileAllSnoc(File(acc, es[0].0, es[0].1), es[1..], e);
    }
  }

  /** Filing `es` treats each tag on its own: the header holds `k` exactly when `k` is one of
      8, 9, 35, 49, 56, 34, 52 and occurs, the body exactly when `k` is another tag or 9 and occurs,
      each with the value of its last occurrence; the trailer stays empty. */
  lemma {:induction false} FileAllKey(es: seq<(string, string)>, k: string)
    ensures FileAll(EmptyMessage, es).trailer == map[]
    ensures k in FileAll(EmptyMessage, es).header <==> k in REQUIRED_TAGS && LastValue(es, k).Some?
    ensures k in FileAll(EmptyMessage, es).body <==> k !in DECODE_HEADER_TAGS && LastValue(es, k).Some?
    ensures k in FileAll(EmptyMessage, es).header ==> FileAll(EmptyMessage, es).header[k] == LastValue(es, k).value
    ensures k in FileAll(EmptyMessage, es).body ==> FileAll(EmptyMessage, es).body[k] == LastValue(es, k).value
  {
    if es != [] {
      var init := es[..|es| - 1];
      FileAllKey(init, k);
      assert es == init + [es[|es| - 1]];
      FileAllSnoc(EmptyMessage, init, es[|es| - 1]);
    }
  }

  /** Classification with last write winning, for every tag at once. */
  lemma FileAllLastWriteWins(es: seq<(string, string)>)
    ensures FileAll(EmptyMessage, es).trailer == map[]
    ensures forall k :: k in FileAll(EmptyMessage, es).header <==> k in REQUIRED_TAGS && LastValue(es, k).Some?
    ensures forall k :: k in FileAll(EmptyMessage, es).body <==> k !in DECODE_HEADER_TAGS && LastValue(es, k).Some?
    ensures forall k :: k in FileAll(EmptyMessage, es).header ==> FileAll(EmptyMessage, es).header[k] == LastValue(es, k).value
    ensures forall k :: k in FileAll(EmptyMessage, es).body ==> FileAll(EmptyMessage, es).body[k] == LastValue(es, k).value
  {
    FileAllKey(es, "");
    forall k
      ensures k in FileAll(EmptyMessage, es).header <==> k in REQUIRED_TAGS && LastValue(es, k).Some?
      ensures k in FileAll(EmptyMessage, es).body <==> k !in DECODE_HEADER_TAGS && LastValue(es, k).Some?
      ensures k in FileAll(EmptyMessage, es).header ==> FileAll(EmptyMessage, es).header[k] == LastValue(es, k).value
      ensures k in FileAll(EmptyMessage, es).body ==> FileAll(EmptyMessage, es).body[k] == LastValue(es, k).value
    {
      FileAllKey(es, k);
    }
  }

  /** The first of several plain, non-checksum fields is filed and re-terminated into the checksum input. */
  lemma DecodeTokensFileFirst(es: seq<(string, string)>, rest: seq<string>, acc: Message, input: string)
    requires es != [] && '=' !in es[0].0 && es[0].0 != CHECKSUM_TAG
    ensures DecodeTokens(PairTexts(es) + rest, acc, input)
         == DecodeTokens(PairTexts(es[1..]) + rest, File(acc, es[0].0, es[0].1), input + Pair(es[0].0, es[0].1) + [SOH])
  {
    var tok := Pair(es[0].0, es[0].1);
    var tail := PairTexts(es[1..]);
    assert PairTexts(es) == [tok] + tail;
    assert (PairTexts(es) + rest)[0] == tok;
    assert (PairTexts(es) + rest)[1..] == tail + rest;
    SplitOnceField(es[0].0, es[0].1);
  }

  /** Terminating the first field, then the others, terminates them all. */
  lemma TerminatedFirst(es: seq<(string, string)>, input: string)
    requires es != []
    ensures input + Pair(es[0].0, es[0].1) + [SOH] + Terminated(PairTexts(es[1..])) == input + Terminated(PairTexts(es))
  {
    var ps := PairTexts(es);
    assert ps == [Pair(es[0].0, es[0].1)] + PairTexts(es[1..]);
    assert ps[1..] == PairTexts(es[1..]);
    ConcatAssoc(input, ps[0] + [SOH], Terminated(ps[1..]));
  }

  /** Fields with plain, non-checksum tags are filed one by one and re-terminated into the checksum input. */
  lemma {:induction false} DecodeTokensFiles(es: seq<(string, string)>, rest: seq<string>, acc: Message, input: string)
    requires forall i :: 0 <= i < |es| ==> '=' !in es[i].0 && es[i].0 != CHECKSUM_TAG
    ensures DecodeTokens(PairTexts(es) + rest, acc, input)
         == DecodeTokens(rest, FileAll(acc, es), input + Terminated(PairTexts(es)))
  {
    if es == [] {
      assert PairTexts(es) + rest == rest;
      assert input + Terminated(PairTexts(es)) == input;
    } else {
      var next := File(acc, es[0].0, es[0].1);
      var input' := input + Pair(es[0].0, es[0].1) + [SOH];
      DecodeTokensFileFirst(es, rest, acc, input);
      DecodeTokensFiles(es[1..], rest, next, input');
      TerminatedFirst(es, input);
    }
  }

  /** Text made of non-empty SOH-free tokens, each terminated by SOH, ends with SOH, and the
      tokens `decode` splits it into are those tokens. */
  lemma TokensOfTerminated(ts: seq<string>)
    requires |ts| >= 1
    requires forall i :: 0 <= i < |ts| ==> SOH !in ts[i] && ts[i] != ""
    ensures var s := Terminated(ts);
      |s| >= 1 && s[|s| - 1] == SOH && NonEmpty(Split(s[..|s| - 1], SOH)) == ts
  {
    var n := |ts| - 1;
    var s := Terminated(ts);
    assert ts == ts[..n] + [ts[n]];
    TerminatedAppend(ts[..n], [ts[n]]);
    assert Terminated([ts[n]]) == ts[n] + [SOH];
    assert s == Terminated(ts[..n]) + (ts[n] + [SOH]);
    assert s[..|s| - 1] == Terminated(ts[..n]) + ts[n];
    SplitTerminated(ts[..n], ts[n]);
    SplitWithoutDelimiter(ts[n], SOH);
    NonEmptyKeepsAll(ts);
  }

  lemma DecodingTerminated(ts: seq<string>)
    requires |ts| >= 1
    requires forall i :: 0 <= i < |ts| ==> SOH !in ts[i] && ts[i] != ""
    ensures Decoding(Terminated(ts)) == DecodeTokens(ts, EmptyMessage, "")
  {
    TokensOfTerminated(ts);
  }

  /** The texts of plain fields are non-empty and SOH-free tokens. */
  lemma PlainTokens(es: seq<(string, string)>)
    requires forall i :: 0 <= i < |es| ==> Plain(es[i])
    ensures forall i :: 0 <= i < |PairTexts(es)| ==> SOH !in PairTexts(es)[i] && PairTexts(es)[i] != ""
  {
    PairTextsIndex(es);
    forall i | 0 <= i < |es| ensures SOH !in PairTexts(es)[i] && PairTexts(es)[i] != "" {
      assert PairTexts(es)[i] == es[i].0 + "=" + es[i].1;
      assert Plain(es[i]);
    }
  }

  /** Plain field texts followed by further tokens, all non-empty and SOH-free. */
  lemma PlainTokensThen(es: seq<(string, string)>, rest: seq<string>)
    requires forall i :: 0 <= i < |es| ==> Plain(es[i])
    requires forall i :: 0 <= i < |rest| ==> SOH !in rest[i] && rest[i] != ""
    ensures forall i :: 0 <= i < |PairTexts(es) + rest| ==> SOH !in (PairTexts(es) + rest)[i] && (PairTexts(es) + rest)[i] != ""
  {
    var ts := PairTexts(es) + rest;
    PlainTokens(es);
    forall i | 0 <= i < |ts| ensures SOH !in ts[i] && ts[i] != "" {
      if i < |es| {
        assert ts[i] == PairTexts(es)[i];
      } else {
        assert ts[i] == rest[i - |es|];
      }
    }
  }

  /** Plain, non-checksum fields followed by further tokens: `decode` files the fields and goes on
      with the tokens, the fields' text as checksum input. */
  lemma DecodingPlainThen(es: seq<(string, string)>, rest: seq<string>)
    requires |es| + |rest| >= 1
    requires forall i :: 0 <= i < |es| ==> Plain(es[i]) && es[i].0 != CHECKSUM_TAG
    requires forall i :: 0 <= i < |rest| ==> SOH !in rest[i] && rest[i] != ""
    ensures Decoding(Terminated(PairTexts(es) + rest))
         == DecodeTokens(rest, FileAll(EmptyMessage, es), Terminated(PairTexts(es)))
  {
    PlainTokensThen(es, rest);
    DecodingTerminated(PairTexts(es) + rest);
    DecodeTokensFiles(es, rest, EmptyMessage, "");
    assert "" + Terminated(PairTexts(es)) == Terminated(PairTexts(es));
  }

  /** Text made of plain fields, then the checksum field, then further tokens: the value must equal
      the checksum of the fields before it, each re-terminated with SOH. */
  lemma ChecksumAfterPlainFields(es: seq<(string, string)>, v: string, rest: seq<string>)
    requires forall i :: 0 <= i < |es| ==> Plain(es[i]) && es[i].0 != CHECKSUM_TAG
    requires SOH !in v
    requires forall i :: 0 <= i < |rest| ==> SOH !in rest[i] && rest[i] != ""
    ensures var r := Decoding(Terminated(PairTexts(es) + ([Pair(CHECKSUM_TAG, v)] + rest)));
      && (r.Ok? <==> v == Checksum3(Terminated(PairTexts(es))))
      && (r.Err? ==> r.error == ERR_CHECKSUM)
      && (r.Ok? ==> r.value == FileAll(EmptyMessage, es).(trailer := map[CHECKSUM_TAG := v]))
  {
    var tok := Pair(CHECKSUM_TAG, v);
    var more := [tok] + rest;
    assert forall i :: 0 <= i < |more| ==> SOH !in more[i] && more[i] != "" by {
      assert more[0] == tok;
    }
    DecodingPlainThen(es, more);
    SplitOnceField(CHECKSUM_TAG, v);
    FileAllKey(es, CHECKSUM_TAG);
    assert more[0] == tok;
  }

  /** A token the loop files: it has a '=', and the tag before it is not CheckSum(10). */
  predicate FieldToken(t: string)
  {
    SplitOnce(t, '=').Some? && SplitOnce(t, '=').value.0 != CHECKSUM_TAG
  }

  /** The `(tag, value)` pairs `splitn(2, '=')` cuts from field tokens. */
  function FieldsOf(ts: seq<string>): seq<(string, string)>
    requires forall i :: 0 <= i < |ts| ==> FieldToken(ts[i])
  {
    if ts == [] then []
    else
      assert FieldToken(ts[0]);
      [SplitOnce(ts[0], '=').value] + FieldsOf(ts[1..])
  }

  /** Field tokens, whatever they hold, are filed one by one and re-terminated into the checksum input. */
  lemma {:induction false} DecodeTokensThroughFields(pre: seq<string>, rest: seq<string>, acc: Message, input: string)
    requires forall i :: 0 <= i < |pre| ==> FieldToken(pre[i])
    ensures DecodeTokens(pre + rest, acc, input) == DecodeTokens(rest, FileAll(acc, FieldsOf(pre)), input + Terminated(pre))
    decreases |pre|
  {
    if pre == [] {
      assert pre + rest == rest;
      assert input + Terminated(pre) == input;
    } else {
      var (tag, value) := SplitOnce(pre[0], '=').value;
      assert (pre + rest)[0] == pre[0] && (pre + rest)[1..] == pre[1..] + rest;
      DecodeTokensNext(pre + rest, acc, input, tag, value);
      DecodeTokensThroughFields(pre[1..], rest, File(acc, tag, value), input + pre[0] + [SOH]);
      assert Terminated(pre) == pre[0] + [SOH] + Terminated(pre[1..]);
      assert input + pre[0] + [SOH] + Terminated(pre[1..]) == input + Terminated(pre);
      assert FieldToken(pre[0]);
      assert FieldsOf(pre)[0] == (tag, value) && FieldsOf(pre)[1..] == FieldsOf(pre[1..]);
      assert FileAll(acc, FieldsOf(pre)) == FileAll(File(acc, tag, value), FieldsOf(pre[1..]));
    }
  }

  /** Text whose every token is a field other than the checksum is accepted: the fields are filed
      and the trailer stays empty. */
  lemma DecodeWithoutChecksum(s: string)
    requires s != [] && s[|s| - 1] == SOH
    requires forall i :: 0 <= i < |Tokens(s)| ==> FieldToken(Tokens(s)[i])
    ensures Decoding(s) == Ok(FileAll(EmptyMessage, FieldsOf(Tokens(s))))
    ensures Decoding(s).value.trailer == map[]
  {
    var ts := Tokens(s);
    DecodeTokensThroughFields(ts, [], EmptyMessage, "");
    assert ts + [] == ts;
    FileAllKey(FieldsOf(ts), CHECKSUM_TAG);
  }

  /** A token without '=' after field tokens only is "Invalid key-value pair in FIX message". */
  lemma DecodeRejectsBareToken(s: string, j: nat)
    requires s != [] && s[|s| - 1] == SOH
    requires j < |Tokens(s)| && '=' !in Tokens(s)[j]
    requires forall i :: 0 <= i < j ==> FieldToken(Tokens(s)[i])
    ensures Decoding(s) == Err(ERR_PAIR)
  {
    var ts := Tokens(s);
    assert ts == ts[..j] + ts[j..];
    DecodeTokensThroughFields(ts[..j], ts[j..], EmptyMessage, "");
    SplitOnceSpec(ts[j], '=');
    assert ts[j..][0] == ts[j];
    DecodeTokensPairError(ts[j..], FileAll(EmptyMessage, FieldsOf(ts[..j])), "" + Terminated(ts[..j]));
  }

  /** At the first CheckSum(10) token, after field tokens only: the value must equal the checksum of
      the tokens before it, each re-terminated with one SOH (empty pieces between SOHs add
      nothing); a mismatch is "Invalid checksum"; whatever follows is ignored. */
  lemma DecodeChecksumField(s: string, j: nat, v: string)
    requires s != [] && s[|s| - 1] == SOH
    requires j < |Tokens(s)| && Tokens(s)[j] == Pair(CHECKSUM_TAG, v)
    requires forall i :: 0 <= i < j ==> FieldToken(Tokens(s)[i])
    ensures var r := Decoding(s);
      && (r.Ok? <==> v == Checksum3(Terminated(Tokens(s)[..j])))
      && (r.Err? ==> r.error == ERR_CHECKSUM)
      && (r.Ok? ==> r.value == FileAll(EmptyMessage, FieldsOf(Tokens(s)[..j])).(trailer := map[CHECKSUM_TAG := v]))
  {
    var ts := Tokens(s);
    assert ts == ts[..j] + ts[j..];
    DecodeTokensThroughFields(ts[..j], ts[j..], EmptyMessage, "");
    SplitOnceField(CHECKSUM_TAG, v);
    assert ts[j..][0] == ts[j];
    assert "" + Terminated(ts[..j]) == Terminated(ts[..j]);
    DecodeTokensChecksum(ts[j..], FileAll(EmptyMessage, FieldsOf(ts[..j])), Terminated(ts[..j]), v);
    FileAllKey(FieldsOf(ts[..j]), CHECKSUM_TAG);
  }

  /** An empty piece between two SOHs is dropped: after a field `f`, an empty piece and the checksum
      field, the checksum checked is that of `f` and one SOH, not of the two-SOH text before `10=`. */
  lemma EmptyPieceLeftOutOfChecksum(f: string, v: string)
    requires FieldToken(f) && SOH !in f && SOH !in v
    ensures var s := f + [SOH, SOH] + Pair(CHECKSUM_TAG, v) + [SOH];
      Decoding(s).Ok? <==> v == Checksum3(f + [SOH])
  {
    var p := Pair(CHECKSUM_TAG, v);
    var s := f + [SOH, SOH] + p + [SOH];
    assert s[..|s| - 1] == f + [SOH] + ([SOH] + p);
    SplitAfterPiece(f, [SOH] + p, SOH);
    assert SOH !in p;
    SplitWithoutDelimiter(p, SOH);
    assert ([SOH] + p)[1..] == p;
    assert Split([SOH] + p, SOH) == [""] + [p];
    assert f != "" by {
      SplitOnceSpec(f, '=');
    }
    assert Tokens(s) == [f, p] by {
      assert Split(s[..|s| - 1], SOH) == [f, "", p];
      assert p != "";
      assert NonEmpty([p]) == [p] + NonEmpty([]);
      assert ["", p][1..] == [p] && [f, "", p][1..] == ["", p];
      assert NonEmpty(["", p]) == [p];
      assert NonEmpty([f, "", p]) == [f] + NonEmpty(["", p]);
    }
    assert Tokens(s)[..1] == [f];
    assert Terminated([f]) == f + [SOH];
    DecodeChecksumField(s, 1, v);
  }

  // ---------------------------------------------------------------------------
  // Properties of encoding

  /** Everything `decode` needs to read an encoding back: no SOH in any value or body tag, no '='
      in body tags, body tags distinct from the mandatory header tags and from 10, and no trailer
      field besides the checksum. */
  predicate Encodable(m: Message, clock: string)
  {
    && SOH !in clock
    && (forall k :: k in m.header ==> SOH !in m.header[k])
    && (forall k :: k in m.body ==>
          SOH !in k && '=' !in k && SOH !in m.body[k] && k !in REQUIRED_TAGS && k != CHECKSUM_TAG)
    && m.trailer.Keys <= {CHECKSUM_TAG}
  }

  /** The header entries `encode` writes, mandatory tags only, in their fixed order. */
  lemma HeaderEntries(h: map<string, string>)
    ensures IsOrdering(PresentIn(REQUIRED_HEADER_FIELDS, h), h.Keys * REQUIRED_TAGS)
  {
    PresentInDistinct(REQUIRED_HEADER_FIELDS, h);
    PresentInMembership(REQUIRED_HEADER_FIELDS, h);
  }

  /** `encode` keeps every header value but BodyLength(9), fills in BeginString(8) as "FIX.4.4" and
      SendingTime(52) as the clock reading only where they are missing, leaves the body alone and
      adds the checksum to the trailer. */
  lemma EncodeFillsDefaults(m: Message, clock: string, ord: EncodeOrder)
    ensures var e := Encoding(m, clock, ord); var h := e.message.header;
      && h.Keys == m.header.Keys + {"8", "9", "52"}
      && (forall k :: k in m.header && k != "9" ==> h[k] == m.header[k])
      && h["8"] == (if "8" in m.header then m.header["8"] else "FIX.4.4")
      && h["52"] == (if "52" in m.header then m.header["52"] else clock)
      && e.message.body == m.body
      && e.message.trailer.Keys == m.trailer.Keys + {CHECKSUM_TAG}
      && (forall k :: k in m.trailer && k != CHECKSUM_TAG ==> e.message.trailer[k] == m.trailer[k])
  {
  }

  /** With at most the checksum in the trailer, the text is the header fields, the body fields and
      the checksum field over both, and the trailer `encode` leaves holds just that checksum. */
  lemma EncodingText(m: Message, clock: string, ord: EncodeOrder)
    requires OrderFits(m, ord) && m.trailer.Keys <= {CHECKSUM_TAG}
    ensures var h := EncodedHeader(m, clock, ord);
      var prefix := HeaderText(h) + FieldsText(m.body, ord.body);
      Encoding(m, clock, ord)
        == Encoded(prefix + Field(CHECKSUM_TAG, Checksum3(prefix)),
                   Message(h, m.body, map[CHECKSUM_TAG := Checksum3(prefix)]))
  {
    var h := EncodedHeader(m, clock, ord);
    var prefix := HeaderText(h) + FieldsText(m.body, ord.body);
    SingleFieldText(m.trailer, ord.trailer, CHECKSUM_TAG, Checksum3(prefix));
  }

  /** The checksum field closing `prefix` takes the last seven characters. */
  lemma ChecksumFieldCloses(prefix: string)
    ensures var text := prefix + Field(CHECKSUM_TAG, Checksum3(prefix));
      && |text| == |prefix| + 7
      && text[..|prefix|] == prefix
      && text[|prefix|..] == Field(CHECKSUM_TAG, Checksum3(prefix))
  {
  }

  /** The last seven characters are `10=ddd` and SOH, where ddd is the zero-padded byte sum mod 256
      of everything before them. */
  lemma ChecksumCoversPrefix(m: Message, clock: string, ord: EncodeOrder)
    requires OrderFits(m, ord) && m.trailer.Keys <= {CHECKSUM_TAG}
    ensures var e := Encoding(m, clock, ord); var cs := e.message.trailer[CHECKSUM_TAG];
      && |e.text| >= 7
      && e.text[|e.text| - 7..] == Field(CHECKSUM_TAG, cs)
      && |cs| == 3 && IsDigits(cs)
      && ParseDigits(cs) == ByteSum(e.text[..|e.text| - 7]) % 256
  {
    EncodingText(m, clock, ord);
    var prefix := HeaderText(EncodedHeader(m, clock, ord)) + FieldsText(m.body, ord.body);
    ChecksumFieldCloses(prefix);
    Checksum3Value(prefix);
  }

  /** Any two iteration orders give the same header, with the same BodyLength, and body texts of the
      same length and byte sum. */
  lemma EncodedHeaderOrderIndependent(m: Message, clock: string, a: EncodeOrder, b: EncodeOrder)
    requires OrderFits(m, a) && OrderFits(m, b)
    ensures EncodedHeader(m, clock, a) == EncodedHeader(m, clock, b)
    ensures |FieldsText(m.body, a.body)| == |FieldsText(m.body, b.body)|
    ensures ByteSum(FieldsText(m.body, a.body)) == ByteSum(FieldsText(m.body, b.body))
  {
    var d := WithDefaults(m.header, clock);
    assert d.Keys == m.header.Keys + {"8", "52"};
    FieldsTextOrderIndependent(m.body, a.body, b.body, m.body.Keys);
    WithoutOrdering(a.header, d.Keys, {"8", "9"});
    WithoutOrdering(b.header, d.Keys, {"8", "9"});
    FieldsTextOrderIndependent(d, Without(a.header, {"8", "9"}), Without(b.header, {"8", "9"}), d.Keys - {"8", "9"});
    assert BodyLengthOf(d, a.header, FieldsText(m.body, a.body)) == BodyLengthOf(d, b.header, FieldsText(m.body, b.body));
  }

  /** Any two iteration orders give the same BodyLength, the same checksum and the same message,
      and texts of the same length. */
  lemma EncodingOrderIndependent(m: Message, clock: string, a: EncodeOrder, b: EncodeOrder)
    requires OrderFits(m, a) && OrderFits(m, b)
    ensures Encoding(m, clock, a).message == Encoding(m, clock, b).message
    ensures |Encoding(m, clock, a).text| == |Encoding(m, clock, b).text|
  {
    EncodedHeaderOrderIndependent(m, clock, a, b);
    var h := EncodedHeader(m, clock, a);
    var ht := HeaderText(h);
    var ba, bb := FieldsText(m.body, a.body), FieldsText(m.body, b.body);
    ChecksumOfParts(ht, ba, ht, bb);
    var t := m.trailer[CHECKSUM_TAG := Checksum3(ht + ba)];
    FieldsTextOrderIndependent(t, a.trailer, b.trailer, t.Keys);
  }

  /** Decoding the fields of `h` and `body` closed by their checksum: the mandatory header fields,
      the body fields plus BodyLength(9) (which `decode` files in both maps), and the checksum. */
  lemma DecodeEncodedText(h: map<string, string>, body: map<string, string>, bodyOrder: seq<string>)
    requires IsOrdering(bodyOrder, body.Keys)
    requires "9" in h && forall k :: k in h ==> SOH !in h[k]
    requires forall k :: k in body ==>
      SOH !in k && '=' !in k && SOH !in body[k] && k !in REQUIRED_TAGS && k != CHECKSUM_TAG
    ensures var prefix := HeaderText(h) + FieldsText(body, bodyOrder);
      Decoding(prefix + Field(CHECKSUM_TAG, Checksum3(prefix)))
        == Ok(Message(map k | k in h && k in REQUIRED_TAGS :: h[k], body["9" := h["9"]],
                      map[CHECKSUM_TAG := Checksum3(prefix)]))
  {
    var hk := PresentIn(REQUIRED_HEADER_FIELDS, h);
    HeaderEntries(h);
    var headerEntries := Entries(h, hk);
    var bodyEntries := Entries(body, bodyOrder);
    var es := headerEntries + bodyEntries;

    // The text is the plain fields, then the checksum field.
    PairsAreEntryTexts(h, hk);
    PairsAreEntryTexts(body, bodyOrder);
    PairTextsAppend(headerEntries, bodyEntries);
    TerminatedAppend(PairTexts(headerEntries), PairTexts(bodyEntries));
    var prefix := HeaderText(h) + FieldsText(body, bodyOrder);
    assert prefix == Terminated(PairTexts(es));
    var cs := Checksum3(prefix);
    TerminatedAppend(PairTexts(es), [Pair(CHECKSUM_TAG, cs)]);
    assert Terminated([Pair(CHECKSUM_TAG, cs)]) == Field(CHECKSUM_TAG, cs);
    assert PairTexts(es) + ([Pair(CHECKSUM_TAG, cs)] + []) == PairTexts(es) + [Pair(CHECKSUM_TAG, cs)];

    // Every field is plain and none is the checksum.
    RequiredTagsPlain();
    PlainEntries(h, hk);
    PlainEntries(body, bodyOrder);
    PlainAppend(headerEntries, bodyEntries);
    ChecksumAfterPlainFields(es, cs, []);
    FileAllEntries(h, hk, body, bodyOrder);
  }

  /** No mandatory header tag holds SOH or '=', and none is the checksum tag. */
  lemma RequiredTagsPlain()
    ensures forall k :: k in REQUIRED_TAGS ==> SOH !in k && '=' !in k && k != CHECKSUM_TAG
  {
  }

  /** The entries of plain keys with SOH-free values are plain fields. */
  lemma PlainEntries(m: map<string, string>, keys: seq<string>)
    requires forall k :: k in keys ==> k in m && SOH !in k && '=' !in k && SOH !in m[k] && k != CHECKSUM_TAG
    ensures forall i :: 0 <= i < |Entries(m, keys)| ==> Plain(Entries(m, keys)[i]) && Entries(m, keys)[i].0 != CHECKSUM_TAG
  {
    forall i | 0 <= i < |keys| ensures Plain(Entries(m, keys)[i]) && Entries(m, keys)[i].0 != CHECKSUM_TAG {
      assert keys[i] in keys;
      EntriesIndex(m, keys, i);
    }
  }

  lemma PlainAppend(a: seq<(string, string)>, b: seq<(string, string)>)
    requires forall i :: 0 <= i < |a| ==> Plain(a[i]) && a[i].0 != CHECKSUM_TAG
    requires forall i :: 0 <= i < |b| ==> Plain(b[i]) && b[i].0 != CHECKSUM_TAG
    ensures forall i :: 0 <= i < |a + b| ==> Plain((a + b)[i]) && (a + b)[i].0 != CHECKSUM_TAG
  {
    forall i | 0 <= i < |a + b| ensures Plain((a + b)[i]) && (a + b)[i].0 != CHECKSUM_TAG {
      if i >= |a| {
        assert (a + b)[i] == b[i - |a|];
      }
    }
  }

  /** Filing the written header entries and then the body entries: the mandatory header fields, and
      the body fields plus BodyLength(9). */
  lemma FileAllEntries(h: map<string, string>, hk: seq<string>, body: map<string, string>, bodyOrder: seq<string>)
    requires IsOrdering(hk, h.Keys * REQUIRED_TAGS) && "9" in h
    requires IsOrdering(bodyOrder, body.Keys) && body.Keys !! REQUIRED_TAGS
    ensures FileAll(EmptyMessage, Entries(h, hk) + Entries(body, bodyOrder))
         == Message(map k | k in h && k in REQUIRED_TAGS :: h[k], body["9" := h["9"]], map[])
  {
    var es := Entries(h, hk) + Entries(body, bodyOrder);
    var r := FileAll(EmptyMessage, es);
    FileAllLastWriteWins(es);
    var hm := map k | k in h && k in REQUIRED_TAGS :: h[k];
    var bm := body["9" := h["9"]];
    forall k ensures (k in r.header <==> k in hm) && (k in r.header ==> r.header[k] == hm[k]) {
      LastValueOfWritten(h, hk, body, bodyOrder, k);
    }
    DecodeHeaderTags();
    forall k ensures (k in r.body <==> k in bm) && (k in r.body ==> r.body[k] == bm[k]) {
      LastValueOfWritten(h, hk, body, bodyOrder, k);
      if k == "9" {
        assert k in REQUIRED_TAGS && k !in body && k !in DECODE_HEADER_TAGS;
      } else if k in body {
        assert k !in REQUIRED_TAGS && k !in DECODE_HEADER_TAGS;
      }
    }
    assert r.header == hm;
    assert r.body == bm;
  }

  /** The tags `decode` files under the header alone are the mandatory ones but BodyLength(9). */
  lemma DecodeHeaderTags()
    ensures forall k :: k in DECODE_HEADER_TAGS <==> k in REQUIRED_TAGS && k != "9"
  {
  }

  /** The last value filed for `k`: its body value if `k` is a body tag, else its header value if
      `k` is a written header tag. */
  lemma LastValueOfWritten(h: map<string, string>, hk: seq<string>, body: map<string, string>, bodyOrder: seq<string>, k: string)
    requires IsOrdering(hk, h.Keys * REQUIRED_TAGS)
    requires IsOrdering(bodyOrder, body.Keys) && body.Keys !! REQUIRED_TAGS
    ensures LastValue(Entries(h, hk) + Entries(body, bodyOrder), k)
         == if k in h && k in REQUIRED_TAGS then Some(h[k]) else if k in body then Some(body[k]) else None
  {
    LastValueAppend(Entries(h, hk), Entries(body, bodyOrder), k);
    LastValueOfEntries(h, hk, k);
    LastValueOfEntries(body, bodyOrder, k);
  }

  /** No value of the header `encode` leaves behind holds SOH. */
  lemma EncodedHeaderPlain(m: Message, clock: string, ord: EncodeOrder)
    requires Encodable(m, clock)
    ensures var h := EncodedHeader(m, clock, ord); "9" in h && forall k :: k in h ==> SOH !in h[k]
  {
    EncodeFillsDefaults(m, clock, ord);
    var h := EncodedHeader(m, clock, ord);
    assert IsDigits(h["9"]);
  }

  /** Round trip: decoding what `encode` produced gives back its mandatory header fields, its body
      fields plus BodyLength(9) (which `decode` files in both maps), and the checksum. Header
      fields outside the mandatory tags are not on the wire and do not come back. */
  lemma RoundTrip(m: Message, clock: string, ord: EncodeOrder)
    requires OrderFits(m, ord) && Encodable(m, clock)
    ensures var e := Encoding(m, clock, ord); var h := e.message.header;
      Decoding(e.text) == Ok(Message(map k | k in h && k in REQUIRED_TAGS :: h[k], m.body["9" := h["9"]], e.message.trailer))
  {
    EncodingText(m, clock, ord);
    EncodedHeaderPlain(m, clock, ord);
    DecodeEncodedText(EncodedHeader(m, clock, ord), m.body, ord.body);
  }

  /** The mandatory header tags after BeginString(8) and BodyLength(9), in their wire order. */
  const OTHER_HEADER_FIELDS: seq<string> := ["35", "49", "56", "34", "52"]

  lemma OtherHeaderFields()
    ensures forall k :: k in OTHER_HEADER_FIELDS <==> k in REQUIRED_TAGS && k != "8" && k != "9"
  {
  }

  /** The written header starts with the BeginString(8) and BodyLength(9) fields. */
  lemma HeaderTextStart(h: map<string, string>)
    requires "8" in h && "9" in h
    ensures HeaderText(h) == Field("8", h["8"]) + Field("9", h["9"]) + FieldsText(h, PresentIn(OTHER_HEADER_FIELDS, h))
  {
    assert REQUIRED_HEADER_FIELDS == ["8", "9"] + OTHER_HEADER_FIELDS;
    PresentInAppend(["8", "9"], OTHER_HEADER_FIELDS, h);
    assert PresentIn(["8", "9"], h) == ["8", "9"];
    FieldsTextAppend(h, ["8", "9"], PresentIn(OTHER_HEADER_FIELDS, h));
    var p8, p9 := Pair("8", h["8"]), Pair("9", h["9"]);
    assert Pairs(h, ["8", "9"]) == [p8, p9];
    assert [p8, p9][1..] == [p9];
    assert Terminated([p9]) == p9 + [SOH] + Terminated([]);
    assert Terminated([p8, p9]) == p8 + [SOH] + Terminated([p9]);
  }

  /** Two maps with the same keys among `keys` keep the same of them. */
  lemma {:induction false} PresentInSameKeys(keys: seq<string>, m1: map<string, string>, m2: map<string, string>)
    requires forall k :: k in keys ==> (k in m1 <==> k in m2)
    ensures PresentIn(keys, m1) == PresentIn(keys, m2)
  {
    if keys != [] {
      assert keys[0] in keys;
      assert forall k :: k in keys[1..] ==> k in keys;
      PresentInSameKeys(keys[1..], m1, m2);
    }
  }

  /** The other mandatory header fields in their fixed order, then the fields outside the mandatory
      tags in visit order, cover every header key but 8 and 9 once each. */
  lemma HeaderSplitOrdering(d: map<string, string>, order: seq<string>)
    requires IsOrdering(order, d.Keys)
    ensures IsOrdering(PresentIn(OTHER_HEADER_FIELDS, d) + Without(order, REQUIRED_TAGS), d.Keys - {"8", "9"})
  {
    var tags := OTHER_HEADER_FIELDS;
    var shown := PresentIn(tags, d);
    var unsent := Without(order, REQUIRED_TAGS);
    var others := set k | k in d && k in tags;
    WithoutOrdering(order, d.Keys, REQUIRED_TAGS);
    PresentInDistinct(tags, d);
    PresentInMembership(tags, d);
    assert IsOrdering(shown, others);
    OtherHeaderFields();
    OrderingAppend(shown, others, unsent, d.Keys - REQUIRED_TAGS);
    assert others + (d.Keys - REQUIRED_TAGS) == d.Keys - {"8", "9"};
  }

  /** What BodyLength counts of a header: the fields written after 8 and 9, plus the fields outside
      the mandatory tags, which are never written. */
  lemma BodyLengthHeaderPart(d: map<string, string>, order: seq<string>)
    requires IsOrdering(order, d.Keys)
    ensures |FieldsText(d, Without(order, {"8", "9"}))|
         == |FieldsText(d, PresentIn(OTHER_HEADER_FIELDS, d))| + |FieldsText(d, Without(order, REQUIRED_TAGS))|
  {
    var shown := PresentIn(OTHER_HEADER_FIELDS, d);
    var unsent := Without(order, REQUIRED_TAGS);
    WithoutOrdering(order, d.Keys, {"8", "9"});
    HeaderSplitOrdering(d, order);
    FieldsTextOrderIndependent(d, Without(order, {"8", "9"}), shown + unsent, d.Keys - {"8", "9"});
    FieldsTextAppend(d, shown, unsent);
  }

  /** A non-empty visit order renders to a non-empty text. */
  lemma FieldsTextNonEmpty(m: map<string, string>, keys: seq<string>)
    requires keys != []
    ensures |FieldsText(m, keys)| > 0
  {
  }

  /** In the written text, everything after the `8=..` and `9=..` fields and before the checksum
      field is the other mandatory header fields and the body. */
  lemma SpanAfterLead(h: map<string, string>, body: string, cs: string)
    requires "8" in h && "9" in h && |cs| == 3
    ensures var text := HeaderText(h) + body + Field(CHECKSUM_TAG, cs);
      var lead := Field("8", h["8"]) + Field("9", h["9"]);
      && |lead| + 7 <= |text|
      && text[..|lead|] == lead
      && |text| - |lead| - 7 == |FieldsText(h, PresentIn(OTHER_HEADER_FIELDS, h))| + |body|
  {
    HeaderTextStart(h);
    var lead := Field("8", h["8"]) + Field("9", h["9"]);
    var text := HeaderText(h) + body + Field(CHECKSUM_TAG, cs);
    assert text == lead + (FieldsText(h, PresentIn(OTHER_HEADER_FIELDS, h)) + body + Field(CHECKSUM_TAG, cs));
  }

  /** Setting BodyLength(9) changes neither the other mandatory fields written nor the fields never written. */
  lemma HeaderCountAfterSet(d: map<string, string>, order: seq<string>, n: string)
    requires IsOrdering(order, d.Keys)
    ensures var h := d["9" := n];
      |FieldsText(d, Without(order, {"8", "9"}))|
        == |FieldsText(h, PresentIn(OTHER_HEADER_FIELDS, h))| + |FieldsText(h, Without(order, REQUIRED_TAGS))|
  {
    var h := d["9" := n];
    BodyLengthHeaderPart(d, order);
    OtherHeaderFields();
    PresentInSameKeys(OTHER_HEADER_FIELDS, d, h);
    PresentInMembership(OTHER_HEADER_FIELDS, h);
    FieldsTextAgree(d, h, PresentIn(OTHER_HEADER_FIELDS, h));
    WithoutMembership(order, REQUIRED_TAGS);
    FieldsTextAgree(d, h, Without(order, REQUIRED_TAGS));
  }

  /** A header visit order has fields outside the mandatory tags exactly when the header has such keys. */
  lemma UnsentFields(header: map<string, string>, order: seq<string>)
    requires IsOrdering(order, header.Keys + {"8", "52"})
    ensures Without(order, REQUIRED_TAGS) == [] <==> header.Keys <= REQUIRED_TAGS
  {
    WithoutMembership(order, REQUIRED_TAGS);
    var unsent := Without(order, REQUIRED_TAGS);
    if unsent != [] {
      var k := unsent[0];
      assert k in unsent;
      assert k in header && k !in REQUIRED_TAGS;
    }
    if !(header.Keys <= REQUIRED_TAGS) {
      var k :| k in header && k !in REQUIRED_TAGS;
      assert k in unsent;
    }
  }

  /** The layout BodyLength(9) describes: `text` opens with the `8=..` and `9=..` fields of `h`, ends
      with the seven characters of the checksum field, and BodyLength is the length of the span
      between them plus `uncounted`. */
  predicate BodyLengthLayout(h: map<string, string>, text: string, uncounted: nat)
    requires "8" in h && "9" in h
  {
    var lead := Field("8", h["8"]) + Field("9", h["9"]);
    && IsDigits(h["9"])
    && |lead| + 7 <= |text|
    && text[..|lead|] == lead
    && ParseDigits(h["9"]) == |text| - |lead| - 7 + uncounted
  }

  /** The layout from its parts: a header text that starts with the `8=..` and `9=..` fields, a body,
      and a seven-character checksum field. */
  lemma LayoutOfParts(h: map<string, string>, head: string, rest: string, body: string, tail: string,
                      text: string, uncounted: nat)
    requires "8" in h && "9" in h && IsDigits(h["9"])
    requires head == Field("8", h["8"]) + Field("9", h["9"]) + rest
    requires text == head + body + tail && |tail| == 7
    requires ParseDigits(h["9"]) == |rest| + |body| + uncounted
    ensures BodyLengthLayout(h, text, uncounted)
  {
    var lead := Field("8", h["8"]) + Field("9", h["9"]);
    assert text == lead + (rest + body + tail);
  }

  /** BodyLength(9) of a header `d` completed with the length it computes, over any body and
      checksum text: what BodyLength counts beyond the span is the header fields outside the
      mandatory tags, which are never written. */
  lemma BodyLengthSpan(d: map<string, string>, order: seq<string>, body: string, cs: string,
                       h: map<string, string>, text: string)
    requires IsOrdering(order, d.Keys) && "8" in d && |cs| == 3
    requires h == d["9" := NatToString(BodyLengthOf(d, order, body))]
    requires text == HeaderText(h) + body + Field(CHECKSUM_TAG, cs)
    ensures BodyLengthLayout(h, text, |FieldsText(h, Without(order, REQUIRED_TAGS))|)
    ensures |FieldsText(h, Without(order, REQUIRED_TAGS))| == 0 <==> Without(order, REQUIRED_TAGS) == []
  {
    var n := BodyLengthOf(d, order, body);
    SpanAfterLead(h, body, cs);
    HeaderCountAfterSet(d, order, NatToString(n));
    var unsent := Without(order, REQUIRED_TAGS);
    if unsent != [] {
      FieldsTextNonEmpty(h, unsent);
    }
  }

  /** BodyLength(9): the text runs `8=..` SOH `9=..` SOH, then a span up to the checksum field.
      BodyLength is the length of that span plus the length of the header fields outside the
      mandatory tags, which are counted but never written; so it equals the span exactly when the
      header has no such field. */
  lemma BodyLengthCountsSpan(m: Message, clock: string, ord: EncodeOrder)
    requires OrderFits(m, ord) && m.trailer.Keys <= {CHECKSUM_TAG}
    ensures var e := Encoding(m, clock, ord);
      && "8" in e.message.header && "9" in e.message.header
      && BodyLengthLayout(e.message.header, e.text, |FieldsText(e.message.header, Without(ord.header, REQUIRED_TAGS))|)
      && (BodyLengthLayout(e.message.header, e.text, 0) <==> m.header.Keys <= REQUIRED_TAGS)
  {
    EncodingText(m, clock, ord);
    var e := Encoding(m, clock, ord);
    var d := WithDefaults(m.header, clock);
    var body := FieldsText(m.body, ord.body);
    var n := BodyLengthOf(d, ord.header, body);
    EncodedHeaderIs(m, clock, ord, n);
    var prefix := HeaderText(e.message.header) + body;
    BodyLengthSpan(d, ord.header, body, Checksum3(prefix), e.message.header, e.text);
    UnsentFields(m.header, ord.header);
  }
}
