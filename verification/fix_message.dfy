/** The older map-based codec of src/fix_message.rs. Its `encode` counts every header field
    (BeginString(8) included) plus 3 in BodyLength(9) and writes the header fields outside the
    mandatory tags after them; its `decode` splits the whole text on SOH, sends every field from the
    first CheckSum(10) on to the trailer, and checks the checksum over a prefix whose length it
    computes from the received checksum. */
module FixMessageCodec {
  import opened Wire
  import opened Tag
  import MessageCodec

  const ERR_FORMAT: string := "Invalid FIX message format"
  const ERR_CHECKSUM_MISSING: string := "Checksum missing"
  const ERR_CHECKSUM: string := "Invalid checksum"

  // ---------------------------------------------------------------------------
  // Encoding

  /** The orders in which the HashMap loops of `encode` visit the body, the header when BodyLength is
      summed, the header when its other fields are written, and the trailer. */
  datatype EncodeOrder = EncodeOrder(body: seq<string>, headerSum: seq<string>, header: seq<string>, trailer: seq<string>)

  /** `ord` is a possible iteration order of each map as it stands when its loop runs. */
  predicate OrderFits(m: Message, ord: EncodeOrder)
  {
    && IsOrdering(ord.body, m.body.Keys)
    && IsOrdering(ord.headerSum, m.header.Keys + {"8", "52"})
    && IsOrdering(ord.header, m.header.Keys + {"8", "9", "52"})
    && IsOrdering(ord.trailer, m.trailer.Keys + {CHECKSUM_TAG})
  }

  /** `k.len() + v.len() + 2` summed over the header entries visited in `keys`. */
  function HeaderWeight(h: map<string, string>, keys: seq<string>): nat
  {
    if keys == [] then 0 else |keys[0]| + |Lookup(h, keys[0])| + 2 + HeaderWeight(h, keys[1..])
  }

  /** Each header entry weighs exactly as much as the field it renders to. */
  lemma {:induction false} HeaderWeightIsFieldsLength(h: map<string, string>, keys: seq<string>)
    ensures HeaderWeight(h, keys) == |FieldsText(h, keys)|
  {
    if keys != [] {
      HeaderWeightIsFieldsLength(h, keys[1..]);
      var p := Pair(keys[0], Lookup(h, keys[0]));
      assert Pairs(h, keys) == [p] + Pairs(h, keys[1..]);
      assert ([p] + Pairs(h, keys[1..]))[1..] == Pairs(h, keys[1..]);
    }
  }

  /** The header sum does not depend on the iteration order. */
  lemma HeaderWeightOrderIndependent(h: map<string, string>, a: seq<string>, b: seq<string>, s: set<string>)
    requires IsOrdering(a, s) && IsOrdering(b, s)
    ensures HeaderWeight(h, a) == HeaderWeight(h, b)
  {
    HeaderWeightIsFieldsLength(h, a);
    HeaderWeightIsFieldsLength(h, b);
    FieldsTextOrderIndependent(h, a, b, s);
  }

  /** Line 78 of `encode`: the body text, every header entry at that moment, and 3. */
  function BodyLengthOf(d: map<string, string>, sumOrder: seq<string>, body: string): nat
  {
    |body| + HeaderWeight(d, sumOrder) + 3
  }

  /** The header `encode` leaves behind: the defaults filled in and BodyLength(9) set. */
  function EncodedHeader(m: Message, clock: string, ord: EncodeOrder): (h: map<string, string>)
    ensures h.Keys == m.header.Keys + {"8", "9", "52"}
  {
    var d := WithDefaults(m.header, clock);
    d["9" := NatToString(BodyLengthOf(d, ord.headerSum, FieldsText(m.body, ord.body)))]
  }

  /** The order in which `encode` writes the header: the mandatory tags present, in their fixed
      order, then the other keys in iteration order. */
  function HeaderKeys(h: map<string, string>, order: seq<string>): seq<string>
  {
    PresentIn(REQUIRED_HEADER_FIELDS, h) + Without(order, REQUIRED_TAGS)
  }

  function HeaderText(h: map<string, string>, order: seq<string>): string
  {
    FieldsText(h, HeaderKeys(h, order))
  }

  /** `encode` of `m` with the clock reading `clock`, the HashMap loops visiting keys as `ord` says. */
  function Encoding(m: Message, clock: string, ord: EncodeOrder): Encoded
  {
    var h := EncodedHeader(m, clock, ord);
    var header := HeaderText(h, ord.header);
    var body := FieldsText(m.body, ord.body);
    var t := m.trailer[CHECKSUM_TAG := Checksum3(header + body)];
    Encoded(header + body + FieldsText(t, ord.trailer), Message(h, m.body, t))
  }

  lemma EncodedHeaderIs(m: Message, clock: string, ord: EncodeOrder, n: nat)
    requires n == BodyLengthOf(WithDefaults(m.header, clock), ord.headerSum, FieldsText(m.body, ord.body))
    ensures EncodedHeader(m, clock, ord) == WithDefaults(m.header, clock)["9" := NatToString(n)]
  {
  }

  /** The steps `encode` takes, put together, give `Encoding`. */
  lemma EncodingSteps(m: Message, clock: string, ord: EncodeOrder, h: map<string, string>,
                      fixBody: string, fixHeader: string, fixTrailer: string)
    requires EncodedHeader(m, clock, ord) == h
    requires fixBody == FieldsText(m.body, ord.body)
    requires fixHeader == HeaderText(h, ord.header)
    requires fixTrailer == FieldsText(m.trailer[CHECKSUM_TAG := Checksum3(fixHeader + fixBody)], ord.trailer)
    ensures Encoding(m, clock, ord)
         == Encoded(fixHeader + fixBody + fixTrailer,
                    Message(h, m.body, m.trailer[CHECKSUM_TAG := Checksum3(fixHeader + fixBody)]))
  {
  }

  /** The message object of src/fix_message.rs; the clock it holds is the `clock` reading passed to `Encode`. */
  class FixMessage {
    var header: map<string, string>
    var body: map<string, string>
    var trailer: map<string, string>

    /** `FixMessage::new`: three empty maps. */
    constructor ()
      ensures header == map[] && body == map[] && trailer == map[]
    {
      header, body, trailer := map[], map[], map[];
    }

    function Value(): Message
      reads this
    {
      Message(header, body, trailer)
    }

    /** `FixMessage::encode`: renders the message and leaves the completed header and trailer behind. */
    method Encode(clock: string, ord: EncodeOrder) returns (text: string)
      modifies this
      ensures text == Encoding(old(Value()), clock, ord).text
      ensures Value() == Encoding(old(Value()), clock, ord).message
    {
      text, header, trailer := EncodeMaps(header, body, trailer, clock, ord);
    }
  }

  /** The body of `FixMessage::encode` on the three maps: returns the text and the header and
      trailer it leaves behind (the body is not changed). */
  method EncodeMaps(header: map<string, string>, body: map<string, string>, trailer: map<string, string>,
                    clock: string, ord: EncodeOrder)
    returns (text: string, header': map<string, string>, trailer': map<string, string>)
    ensures text == Encoding(Message(header, body, trailer), clock, ord).text
    ensures Message(header', body, trailer') == Encoding(Message(header, body, trailer), clock, ord).message
  {
    ghost var m := Message(header, body, trailer);
    var h := header;
    if "8" !in h {
      h := h["8" := "FIX.4.4"];
    }
    if "52" !in h {
      h := h["52" := clock];
    }
    ghost var defaulted := h;
    assert defaulted == WithDefaults(m.header, clock);
    var fixBody := WriteFields(body, ord.body);
    var bodyLength := |fixBody| + HeaderWeight(h, ord.headerSum) + 3;
    h := h["9" := NatToString(bodyLength)];
    EncodedHeaderIs(m, clock, ord, bodyLength);
    // The mandatory tags in their fixed order, then every other header key
    var fixHeader := WritePresentFields(h, REQUIRED_HEADER_FIELDS);
    var others := WriteFieldsExcept(h, ord.header, REQUIRED_TAGS);
    FieldsTextAppend(h, PresentIn(REQUIRED_HEADER_FIELDS, h), Without(ord.header, REQUIRED_TAGS));
    fixHeader := fixHeader + others;
    var messageWithoutChecksum := fixHeader + fixBody;
    var t := trailer[CHECKSUM_TAG := Checksum3(messageWithoutChecksum)];
    var fixTrailer := WriteFields(t, ord.trailer);
    text := fixHeader + fixBody + fixTrailer;
    EncodingSteps(m, clock, ord, h, fixBody, fixHeader, fixTrailer);
    header', trailer' := h, t;
  }

  // ---------------------------------------------------------------------------
  // Properties of encoding

  /** `encode` keeps every header value but BodyLength(9), fills in BeginString(8) as "FIX.4.4" and
      SendingTime(52) as the clock reading only where they are missing, leaves the body alone and
      adds the checksum to the trailer. */
  lemma EncodeFillsDefaults(m: Message, clock: string, ord: EncodeOrder)
    ensures var e := Encoding(m, clock, ord); var h := e.message.header;
      && h.Keys == m.header.Keys + {"8", "9", "52"}
      && (forall k :: k in m.header && k != "9" ==> h[k] == m.header[k])
      && h["8"] == (if "8" in m.header then m.header["8"] else "FIX.4.4")
      && h["52"] == (if "52" in m.header then m.header["52"] else clock)
      && e.message.body == m.body
      && e.message.trailer.Keys == m.trailer.Keys + {CHECKSUM_TAG}
      && (forall k :: k in m.trailer && k != CHECKSUM_TAG ==> e.message.trailer[k] == m.trailer[k])
  {
  }

  /** The header is written with every key exactly once: the mandatory tags present, in their fixed
      order, then each other key. */
  lemma HeaderKeysOrdering(h: map<string, string>, order: seq<string>)
    requires IsOrdering(order, h.Keys)
    ensures IsOrdering(HeaderKeys(h, order), h.Keys)
    ensures HeaderKeys(h, order)[..|PresentIn(REQUIRED_HEADER_FIELDS, h)|] == PresentIn(REQUIRED_HEADER_FIELDS, h)
    ensures forall i :: |PresentIn(REQUIRED_HEADER_FIELDS, h)| <= i < |HeaderKeys(h, order)| ==>
      HeaderKeys(h, order)[i] !in REQUIRED_TAGS
  {
    var req := PresentIn(REQUIRED_HEADER_FIELDS, h);
    var others := Without(order, REQUIRED_TAGS);
    MessageCodec.HeaderEntries(h);
    WithoutOrdering(order, h.Keys, REQUIRED_TAGS);
    OrderingAppend(req, h.Keys * REQUIRED_TAGS, others, h.Keys - REQUIRED_TAGS);
    assert (h.Keys * REQUIRED_TAGS) + (h.Keys - REQUIRED_TAGS) == h.Keys;
    assert (req + others)[..|req|] == req;
    forall i | |req| <= i < |req + others| ensures (req + others)[i] !in REQUIRED_TAGS {
      assert (req + others)[i] == others[i - |req|];
      assert others[i - |req|] in others;
    }
  }

  /** With at most the checksum in the trailer, the text is the header fields, the body fields and
      the checksum field over both, and the trailer `encode` leaves holds just that checksum. */
  lemma EncodingText(m: Message, clock: string, ord: EncodeOrder)
    requires OrderFits(m, ord) && m.trailer.Keys <= {CHECKSUM_TAG}
    ensures var h := EncodedHeader(m, clock, ord);
      var prefix := HeaderText(h, ord.header) + FieldsText(m.body, ord.body);
      Encoding(m, clock, ord)
        == Encoded(prefix + Field(CHECKSUM_TAG, Checksum3(prefix)),
                   Message(h, m.body, map[CHECKSUM_TAG := Checksum3(prefix)]))
  {
    var h := EncodedHeader(m, clock, ord);
    var prefix := HeaderText(h, ord.header) + FieldsText(m.body, ord.body);
    SingleFieldText(m.trailer, ord.trailer, CHECKSUM_TAG, Checksum3(prefix));
  }

  /** The last seven characters are `10=ddd` and SOH, where ddd is the zero-padded byte sum mod 256
      of everything before them. */
  lemma ChecksumCoversPrefix(m: Message, clock: string, ord: EncodeOrder)
    requires OrderFits(m, ord) && m.trailer.Keys <= {CHECKSUM_TAG}
    ensures var e := Encoding(m, clock, ord); var cs := e.message.trailer[CHECKSUM_TAG];
      && |e.text| >= 7
      && e.text[|e.text| - 7..] == Field(CHECKSUM_TAG, cs)
      && |cs| == 3 && IsDigits(cs)
      && ParseDigits(cs) == ByteSum(e.text[..|e.text| - 7]) % 256
  {
    EncodingText(m, clock, ord);
    var prefix := HeaderText(EncodedHeader(m, clock, ord), ord.header) + FieldsText(m.body, ord.body);
    MessageCodec.ChecksumFieldCloses(prefix);
    Checksum3Value(prefix);
  }

  /** The length of the BodyLength(9) field the header had before `encode`, if any. */
  function PriorBodyLengthField(header: map<string, string>): nat
  {
    if "9" in header then |Field("9", header["9"])| else 0
  }

  /** The written header opens with the `8=..` and `9=..` fields. */
  lemma HeaderTextLead(h: map<string, string>, order: seq<string>)
    requires "8" in h && "9" in h
    ensures HeaderText(h, order)
         == Field("8", h["8"]) + Field("9", h["9"])
          + (FieldsText(h, PresentIn(MessageCodec.OTHER_HEADER_FIELDS, h)) + FieldsText(h, Without(order, REQUIRED_TAGS)))
  {
    FieldsTextAppend(h, PresentIn(REQUIRED_HEADER_FIELDS, h), Without(order, REQUIRED_TAGS));
    MessageCodec.HeaderTextStart(h);
  }

  /** Setting BodyLength(9) to `v`: the written header weighs what the summed header weighed, with
      the old BodyLength field (if any) replaced by the new one. */
  lemma HeaderTextWeight(d: map<string, string>, sumOrder: seq<string>, order: seq<string>, v: string)
    requires IsOrdering(sumOrder, d.Keys) && IsOrdering(order, d.Keys + {"9"})
    ensures |HeaderText(d["9" := v], order)| + PriorBodyLengthField(d) == HeaderWeight(d, sumOrder) + |Field("9", v)|
  {
    var h := d["9" := v];
    assert h.Keys == d.Keys + {"9"};
    HeaderWeightIsFieldsLength(d, sumOrder);
    HeaderKeysOrdering(h, order);
    FieldsTextSetKey(d, "9", v, sumOrder, HeaderKeys(h, order));
  }

  /** BodyLength(9) of a header `d` completed with the length it computes, over any body and checksum
      text: beyond the span after the `9=..` field it counts the `8=..` field, 3, and the BodyLength
      field `d` already had. */
  lemma BodyLengthSpan(d: map<string, string>, sumOrder: seq<string>, order: seq<string>, body: string,
                       cs: string, v: string, text: string)
    requires IsOrdering(sumOrder, d.Keys) && IsOrdering(order, d.Keys + {"9"}) && "8" in d && |cs| == 3
    requires IsDigits(v) && ParseDigits(v) == BodyLengthOf(d, sumOrder, body)
    requires text == HeaderText(d["9" := v], order) + body + Field(CHECKSUM_TAG, cs)
    ensures MessageCodec.BodyLengthLayout(d["9" := v], text, |Field("8", d["8"])| + 3 + PriorBodyLengthField(d))
  {
    var h := d["9" := v];
    assert h["8"] == d["8"] && h["9"] == v;
    var head := HeaderText(h, order);
    var rest := FieldsText(h, PresentIn(MessageCodec.OTHER_HEADER_FIELDS, h)) + FieldsText(h, Without(order, REQUIRED_TAGS));
    HeaderTextLead(h, order);
    HeaderTextWeight(d, sumOrder, order, v);
    MessageCodec.LayoutOfParts(h, head, rest, body, Field(CHECKSUM_TAG, cs), text,
                               |Field("8", d["8"])| + 3 + PriorBodyLengthField(d));
  }

  /** BodyLength(9) counts the span after the `9=..` field up to the checksum field, and also the
      `8=..` field, 3 more, and any BodyLength field the header already had. */
  lemma BodyLengthCountsLead(m: Message, clock: string, ord: EncodeOrder)
    requires OrderFits(m, ord) && m.trailer.Keys <= {CHECKSUM_TAG}
    ensures var e := Encoding(m, clock, ord); var h := e.message.header;
      && "8" in h && "9" in h
      && MessageCodec.BodyLengthLayout(h, e.text, |Field("8", h["8"])| + 3 + PriorBodyLengthField(m.header))
  {
    EncodingText(m, clock, ord);
    PrefixLayout(m, clock, ord);
  }

  /** `BodyLengthCountsLead` for the text built from the encoded header and the body. */
  lemma PrefixLayout(m: Message, clock: string, ord: EncodeOrder)
    requires OrderFits(m, ord)
    ensures var h := EncodedHeader(m, clock, ord);
      var prefix := HeaderText(h, ord.header) + FieldsText(m.body, ord.body);
      && "8" in h && "9" in h
      && MessageCodec.BodyLengthLayout(h, prefix + Field(CHECKSUM_TAG, Checksum3(prefix)),
                                       |Field("8", h["8"])| + 3 + PriorBodyLengthField(m.header))
  {
    var d := WithDefaults(m.header, clock);
    var body := FieldsText(m.body, ord.body);
    EncodedHeaderIs(m, clock, ord, BodyLengthOf(d, ord.headerSum, body));
    DefaultsOrdered(m, clock, ord);
    HeaderLayout(d, ord.headerSum, ord.header, body, EncodedHeader(m, clock, ord), PriorBodyLengthField(m.header));
  }

  /** The defaulted header has "8", its keys are those the orders of `ord` visit, and it has the
      BodyLength field the caller's header had. */
  lemma DefaultsOrdered(m: Message, clock: string, ord: EncodeOrder)
    requires OrderFits(m, ord)
    ensures var d := WithDefaults(m.header, clock);
      && IsOrdering(ord.headerSum, d.Keys) && IsOrdering(ord.header, d.Keys + {"9"}) && "8" in d
      && PriorBodyLengthField(d) == PriorBodyLengthField(m.header)
  {
    var d := WithDefaults(m.header, clock);
    assert d.Keys + {"9"} == m.header.Keys + {"8", "9", "52"};
  }

  /** `PrefixLayout` for a defaulted header `d`, a body text, and the header `h` with BodyLength(9) set. */
  lemma HeaderLayout(d: map<string, string>, sumOrder: seq<string>, order: seq<string>, body: string,
                     h: map<string, string>, prior: nat)
    requires IsOrdering(sumOrder, d.Keys) && IsOrdering(order, d.Keys + {"9"}) && "8" in d
    requires h == d["9" := NatToString(BodyLengthOf(d, sumOrder, body))] && prior == PriorBodyLengthField(d)
    ensures var prefix := HeaderText(h, order) + body;
      && "8" in h && "9" in h
      && MessageCodec.BodyLengthLayout(h, prefix + Field(CHECKSUM_TAG, Checksum3(prefix)), |Field("8", h["8"])| + 3 + prior)
  {
    var prefix := HeaderText(h, order) + body;
    BodyLengthSpan(d, sumOrder, order, body, Checksum3(prefix), NatToString(BodyLengthOf(d, sumOrder, body)),
                   prefix + Field(CHECKSUM_TAG, Checksum3(prefix)));
  }

  /** Any two iteration orders give the same header, with the same BodyLength, and body texts of the
      same length and byte sum. */
  lemma EncodedHeaderOrderIndependent(m: Message, clock: string, a: EncodeOrder, b: EncodeOrder)
    requires OrderFits(m, a) && OrderFits(m, b)
    ensures EncodedHeader(m, clock, a) == EncodedHeader(m, clock, b)
    ensures |FieldsText(m.body, a.body)| == |FieldsText(m.body, b.body)|
    ensures ByteSum(FieldsText(m.body, a.body)) == ByteSum(FieldsText(m.body, b.body))
  {
    var d := WithDefaults(m.header, clock);
    FieldsTextOrderIndependent(m.body, a.body, b.body, m.body.Keys);
    HeaderWeightOrderIndependent(d, a.headerSum, b.headerSum, d.Keys);
    assert BodyLengthOf(d, a.headerSum, FieldsText(m.body, a.body)) == BodyLengthOf(d, b.headerSum, FieldsText(m.body, b.body));
  }

  /** Any two iteration orders give the same BodyLength, the same checksum and the same message,
      and texts of the same length. */
  lemma EncodingOrderIndependent(m: Message, clock: string, a: EncodeOrder, b: EncodeOrder)
    requires OrderFits(m, a) && OrderFits(m, b)
    ensures Encoding(m, clock, a).message == Encoding(m, clock, b).message
    ensures |Encoding(m, clock, a).text| == |Encoding(m, clock, b).text|
  {
    PrefixOrderIndependent(m, clock, a, b);
    var h := EncodedHeader(m, clock, a);
    var pa := HeaderText(h, a.header) + FieldsText(m.body, a.body);
    var t := m.trailer[CHECKSUM_TAG := Checksum3(pa)];
    FieldsTextOrderIndependent(t, a.trailer, b.trailer, t.Keys);
  }

  /** Any two iteration orders give the same header, and header-and-body texts of the same length
      and checksum. */
  lemma PrefixOrderIndependent(m: Message, clock: string, a: EncodeOrder, b: EncodeOrder)
    requires OrderFits(m, a) && OrderFits(m, b)
    ensures var h := EncodedHeader(m, clock, a);
      var pa := HeaderText(h, a.header) + FieldsText(m.body, a.body);
      var pb := HeaderText(h, b.header) + FieldsText(m.body, b.body);
      EncodedHeader(m, clock, b) == h && |pa| == |pb| && Checksum3(pa) == Checksum3(pb)
  {
    EncodedHeaderOrderIndependent(m, clock, a, b);
    var h := EncodedHeader(m, clock, a);
    HeaderKeysOrdering(h, a.header);
    HeaderKeysOrdering(h, b.header);
    var ha, hb := HeaderText(h, a.header), HeaderText(h, b.header);
    FieldsTextOrderIndependent(h, HeaderKeys(h, a.header), HeaderKeys(h, b.header), h.Keys);
    var ba, bb := FieldsText(m.body, a.body), FieldsText(m.body, b.body);
    ChecksumOfParts(ha, ba, hb, bb);
  }

  // ---------------------------------------------------------------------------
  // Decoding

  /** The second piece `tag_value.split('=')` yields, given the text after the first '=': the text
      up to the next '=', so that any further pieces are dropped. */
  function FieldValue(rest: string): (v: string)
  {
    match IndexOf(rest, '=')
    case None => rest
    case Some(j) => rest[..j]
  }

  /** `FieldValue` is the longest prefix of `rest` without '=': it stops at the first '=' or at the end. */
  lemma FieldValueSpec(rest: string)
    ensures var v := FieldValue(rest);
      && '=' !in v && |v| <= |rest| && v == rest[..|v|]
      && (|v| < |rest| ==> rest[|v|] == '=')
  {
  }

  /** Where `decode` files a field: from the first CheckSum(10) on, into the trailer; before it, the
      mandatory header tags (BodyLength(9) among them) into the header and every other tag into the body. */
  function File(acc: Message, tag: string, value: string, trailerStarted: bool): Message
  {
    if trailerStarted then acc.(trailer := acc.trailer[tag := value])
    else if tag in REQUIRED_TAGS then acc.(header := acc.header[tag := value])
    else acc.(body := acc.body[tag := value])
  }

  /** The token loop of `decode` from `tokens[0]` on, given the message built so far and whether the
      trailer has started. */
  function DecodeTokens(tokens: seq<string>, acc: Message, trailerStarted: bool): (r: Result<Message>)
    ensures r.Err? ==> r.error == ERR_FORMAT
  {
    if tokens == [] then Ok(acc)
    else
      match SplitOnce(tokens[0], '=')
      case None => Err(ERR_FORMAT)
      case Some((tag, rest)) =>
        var started := trailerStarted || tag == CHECKSUM_TAG;
        DecodeTokens(tokens[1..], File(acc, tag, FieldValue(rest), started), started)
  }

  /** What `decode` does: it returns, or it panics on the `usize` subtraction that computes the
      length of the checksum input when the text is shorter than the received checksum plus 4. */
  datatype Decoded = Returned(result: Result<Message>) | SubtractOverflow

  /** The checks `decode` makes once every field is filed: the trailer must hold CheckSum(10), and
      its value must be the checksum of the text without its last `|value| + 4` characters. */
  function CheckTrailer(s: string, m: Message): Decoded
  {
    if CHECKSUM_TAG !in m.trailer then Returned(Err(ERR_CHECKSUM_MISSING))
    else
      var received := m.trailer[CHECKSUM_TAG];
      if |s| < |received| + 4 then SubtractOverflow
      else if received != Checksum3(s[..|s| - |received| - 4]) then Returned(Err(ERR_CHECKSUM))
      else Returned(Ok(m))
  }

  /** `FixMessage::decode` of `s`. */
  function Decoding(s: string): Decoded
  {
    match DecodeTokens(NonEmpty(Split(s, SOH)), EmptyMessage, false)
    case Err(e) => Returned(Err(e))
    case Ok(m) => CheckTrailer(s, m)
  }

  /** One step of the token loop on a field. */
  lemma DecodeTokensStep(tokens: seq<string>, acc: Message, trailerStarted: bool, tag: string, rest: string)
    requires tokens != [] && SplitOnce(tokens[0], '=') == Some((tag, rest))
    ensures var started := trailerStarted || tag == CHECKSUM_TAG;
      DecodeTokens(tokens, acc, trailerStarted) == DecodeTokens(tokens[1..], File(acc, tag, FieldValue(rest), started), started)
  {
  }

  /** `decode` after a token loop that succeeded. */
  lemma DecodingOk(s: string, m: Message)
    requires DecodeTokens(NonEmpty(Split(s, SOH)), EmptyMessage, false) == Ok(m)
    ensures Decoding(s) == CheckTrailer(s, m)
  {
  }

  /** `decode` after a token loop that failed. */
  lemma DecodingErr(s: string)
    requires DecodeTokens(NonEmpty(Split(s, SOH)), EmptyMessage, false).Err?
    ensures Decoding(s) == Returned(Err(ERR_FORMAT))
  {
  }

  /** The trailer checks once the received checksum is present and the text is long enough. */
  lemma CheckTrailerVerdict(s: string, m: Message)
    requires CHECKSUM_TAG in m.trailer && |s| >= |m.trailer[CHECKSUM_TAG]| + 4
    ensures var received := m.trailer[CHECKSUM_TAG];
      CheckTrailer(s, m) == if received != Checksum3(s[..|s| - |received| - 4]) then Returned(Err(ERR_CHECKSUM)) else Returned(Ok(m))
  {
  }

  /** The token loop of `FixMessage::decode`: each token is split at its first '=' and filed. */
  method DecodeFields(tags: seq<string>) returns (r: Result<Message>)
    ensures r == DecodeTokens(tags, EmptyMessage, false)
  {
    ghost var filed := DecodeTokens(tags, EmptyMessage, false);
    var message := EmptyMessage;
    var trailerStarted := false;
    var i := 0;
    while i < |tags|
      invariant 0 <= i <= |tags|
      invariant DecodeTokens(tags[i..], message, trailerStarted) == filed
    {
      var tagValue := tags[i];
      ghost var tokens := tags[i..];
      assert tokens[0] == tagValue && tokens[1..] == tags[i + 1..];
      var parts := SplitOnce(tagValue, '=');
      if parts.None? {
        return Err(ERR_FORMAT);
      }
      var tag := parts.value.0;
      var value := FieldValue(parts.value.1);
      DecodeTokensStep(tokens, message, trailerStarted, tag, parts.value.1);
      if tag == CHECKSUM_TAG {
        trailerStarted := true;
      }
      message := File(message, tag, value, trailerStarted);
      i := i + 1;
    }
    assert tags[i..] == [];
    return Ok(message);
  }

  /** `FixMessage::decode`. */
  method Decode(s: string) returns (r: Decoded)
    ensures r == Decoding(s)
  {
    var fields := DecodeFields(NonEmpty(Split(s, SOH)));
    if fields.Err? {
      DecodingErr(s);
      return Returned(Err(ERR_FORMAT));
    }
    var message := fields.value;
    DecodingOk(s, message);
    if CHECKSUM_TAG !in message.trailer {
      return Returned(Err(ERR_CHECKSUM_MISSING));
    }
    var received := message.trailer[CHECKSUM_TAG];
    if |s| < |received| + 4 {
      return SubtractOverflow;
    }
    var checksumInput := s[..|s| - |received| - 4];
    CheckTrailerVerdict(s, message);
    if received != Checksum3(checksumInput) {
      return Returned(Err(ERR_CHECKSUM));
    }
    return Returned(Ok(message));
  }


  // ---------------------------------------------------------------------------
  // Properties of decoding

  /** A field `decode` reads back as written: no SOH anywhere, no '=' in the tag or the value, and
      not CheckSum(10). */
  predicate Readable(e: (string, string))
  {
    SOH !in e.0 && SOH !in e.1 && '=' !in e.0 && '=' !in e.1 && e.0 != CHECKSUM_TAG
  }

  /** A value without '=' is read whole. */
  lemma FieldValueWhole(v: string)
    requires '=' !in v
    ensures FieldValue(v) == v
  {
  }

  /** The token loop succeeds exactly when every token has a '='; otherwise it fails with
      "Invalid FIX message format". */
  lemma {:induction false} DecodeTokensFormat(tokens: seq<string>, acc: Message, trailerStarted: bool)
    ensures DecodeTokens(tokens, acc, trailerStarted).Ok? <==> forall t :: t in tokens ==> '=' in t
  {
    if tokens != [] {
      SplitOnceSpec(tokens[0], '=');
      assert forall t :: t in tokens <==> t == tokens[0] || t in tokens[1..] by {
        assert tokens == [tokens[0]] + tokens[1..];
      }
      match SplitOnce(tokens[0], '=')
      case None =>
      case Some((tag, rest)) =>
        var started := trailerStarted || tag == CHECKSUM_TAG;
        DecodeTokensFormat(tokens[1..], File(acc, tag, FieldValue(rest), started), started);
    }
  }


  /** `decode` answers "Invalid FIX message format" exactly when a non-empty SOH-separated piece of
      the text has no '='. */
  lemma DecodingFormatError(s: string)
    ensures Decoding(s) == Returned(Err(ERR_FORMAT)) <==> exists t :: t in Split(s, SOH) && t != "" && '=' !in t
  {
    var tokens := NonEmpty(Split(s, SOH));
    DecodeTokensFormat(tokens, EmptyMessage, false);
    MissingEquals(Split(s, SOH));
    var filed := DecodeTokens(tokens, EmptyMessage, false);
    if filed.Err? {
      DecodingErr(s);
    } else {
      DecodingOk(s, filed.value);
      CheckTrailerNotFormat(s, filed.value);
    }
  }

  /** Some non-empty piece lacks '=' exactly when some kept token does. */
  lemma MissingEquals(ps: seq<string>)
    ensures (exists t :: t in ps && t != "" && '=' !in t) <==> !(forall t :: t in NonEmpty(ps) ==> '=' in t)
  {
    NonEmptyMembership(ps);
  }



  /** The trailer checks never answer "Invalid FIX message format". */
  lemma CheckTrailerNotFormat(s: string, m: Message)
    ensures CheckTrailer(s, m) != Returned(Err(ERR_FORMAT))
  {
    assert ERR_CHECKSUM_MISSING != ERR_FORMAT && ERR_CHECKSUM != ERR_FORMAT;
  }

  /** The token starts a CheckSum(10) field. */
  predicate IsChecksumToken(t: string)
  {
    |t| >= 3 && t[..3] == "10="
  }

  /** A token with a '=' has the tag 10 exactly when it starts with "10=". */
  lemma ChecksumToken(t: string)
    requires '=' in t
    ensures SplitOnce(t, '=').Some?
    ensures SplitOnce(t, '=').value.0 == CHECKSUM_TAG <==> IsChecksumToken(t)
  {
    SplitOnceSpec(t, '=');
    var a, b := SplitOnce(t, '=').value.0, SplitOnce(t, '=').value.1;
    assert t == a + ['='] + b;
    assert t[|a|] == '=';
    if a == CHECKSUM_TAG {
      assert t[..3] == a + ['='];
    }
    if IsChecksumToken(t) {
      assert t[0] == '1' && t[1] == '0' && t[2] == '=';
      assert forall j :: 0 <= j < |a| ==> t[j] == a[j] && t[j] != '=';
      assert |a| == 2;
      assert a == t[..2] == CHECKSUM_TAG;
    }
  }

  /** When the token loop succeeds, the trailer ends up holding CheckSum(10) exactly when it already
      did or some token starts with "10=". */
  lemma {:induction false} DecodeTokensChecksumTag(tokens: seq<string>, acc: Message, trailerStarted: bool)
    requires DecodeTokens(tokens, acc, trailerStarted).Ok?
    ensures CHECKSUM_TAG in DecodeTokens(tokens, acc, trailerStarted).value.trailer
        <==> CHECKSUM_TAG in acc.trailer || exists i :: 0 <= i < |tokens| && IsChecksumToken(tokens[i])
  {
    if tokens != [] {
      SplitOnceSpec(tokens[0], '=');
      var tag, rest := SplitOnce(tokens[0], '=').value.0, SplitOnce(tokens[0], '=').value.1;
      var started := trailerStarted || tag == CHECKSUM_TAG;
      var next := File(acc, tag, FieldValue(rest), started);
      ChecksumToken(tokens[0]);
      DecodeTokensChecksumTag(tokens[1..], next, started);
      assert CHECKSUM_TAG in next.trailer <==> CHECKSUM_TAG in acc.trailer || IsChecksumToken(tokens[0]);
      if exists i :: 0 <= i < |tokens| && IsChecksumToken(tokens[i]) {
        var i :| 0 <= i < |tokens| && IsChecksumToken(tokens[i]);
        if i > 0 {
          assert tokens[1..][i - 1] == tokens[i];
        }
      }
      if exists j :: 0 <= j < |tokens| - 1 && IsChecksumToken(tokens[1..][j]) {
        var j :| 0 <= j < |tokens| - 1 && IsChecksumToken(tokens[1..][j]);
        assert tokens[j + 1] == tokens[1..][j];
      }
    }
  }

  /** `decode` answers "Checksum missing" exactly when every non-empty piece of the text has a '='
      and none starts with "10=". */
  lemma DecodingChecksumMissing(s: string)
    ensures Decoding(s) == Returned(Err(ERR_CHECKSUM_MISSING))
        <==> ((forall t :: t in Split(s, SOH) && t != "" ==> '=' in t)
              && (forall t :: t in Split(s, SOH) ==> !IsChecksumToken(t)))
  {
    var tokens := NonEmpty(Split(s, SOH));
    DecodeTokensFormat(tokens, EmptyMessage, false);
    NonEmptyMembership(Split(s, SOH));
    assert ERR_CHECKSUM_MISSING != ERR_FORMAT && ERR_CHECKSUM != ERR_CHECKSUM_MISSING;
    if DecodeTokens(tokens, EmptyMessage, false).Ok? {
      DecodeTokensChecksumTag(tokens, EmptyMessage, false);
      if exists t :: t in Split(s, SOH) && IsChecksumToken(t) {
        var t :| t in Split(s, SOH) && IsChecksumToken(t);
        assert t in tokens;
      }
    } else {
      var t :| t in tokens && '=' !in t;
    }
  }

  /** From the first CheckSum(10) field on, every field goes to the trailer: the header and the body
      no longer change. */
  lemma {:induction false} TrailerKeepsHeaderAndBody(tokens: seq<string>, acc: Message)
    requires DecodeTokens(tokens, acc, true).Ok?
    ensures DecodeTokens(tokens, acc, true).value.header == acc.header
    ensures DecodeTokens(tokens, acc, true).value.body == acc.body
  {
    if tokens != [] {
      var tag, rest := SplitOnce(tokens[0], '=').value.0, SplitOnce(tokens[0], '=').value.1;
      TrailerKeepsHeaderAndBody(tokens[1..], File(acc, tag, FieldValue(rest), true));
    }
  }

  /** A lone checksum field without its SOH, such as "10=123", leaves fewer than `|value| + 4`
      characters, and the length subtraction underflows. */
  lemma DecodeUnderflow(v: string)
    requires SOH !in v && '=' !in v
    ensures Decoding(Pair(CHECKSUM_TAG, v)) == SubtractOverflow
  {
    var p := Pair(CHECKSUM_TAG, v);
    SplitWithoutDelimiter(p, SOH);
    assert NonEmpty([p]) == [p];
    SplitOnceField(CHECKSUM_TAG, v);
    FieldValueWhole(v);
    assert DecodeTokens([p], EmptyMessage, false) == Ok(Message(map[], map[], map[CHECKSUM_TAG := v]));
  }

  /** A CheckSum(10) value the token loop files comes from a token `10=value…`, so it is at least
      three characters shorter than the longest token. */
  lemma {:induction false} DecodeTokensChecksumBound(tokens: seq<string>, acc: Message, trailerStarted: bool, n: nat)
    requires forall i :: 0 <= i < |tokens| ==> |tokens[i]| <= n
    requires CHECKSUM_TAG in acc.trailer ==> |acc.trailer[CHECKSUM_TAG]| + 3 <= n
    ensures var r := DecodeTokens(tokens, acc, trailerStarted);
      r.Ok? && CHECKSUM_TAG in r.value.trailer ==> |r.value.trailer[CHECKSUM_TAG]| + 3 <= n
    decreases |tokens|
  {
    if tokens != [] && SplitOnce(tokens[0], '=').Some? {
      var (tag, rest) := SplitOnce(tokens[0], '=').value;
      SplitOnceSpec(tokens[0], '=');
      FieldValueSpec(rest);
      var started := trailerStarted || tag == CHECKSUM_TAG;
      var next := File(acc, tag, FieldValue(rest), started);
      assert CHECKSUM_TAG in next.trailer ==> |next.trailer[CHECKSUM_TAG]| + 3 <= n;
      DecodeTokensStep(tokens, acc, trailerStarted, tag, rest);
      DecodeTokensChecksumBound(tokens[1..], next, started, n);
    }
  }

  /** The length subtraction underflows only on text without SOH: once the text holds an SOH, every
      token is shorter than the text, and the received checksum at least four characters shorter. */
  lemma DecodingUnderflowsOnlyWithoutSoh(s: string)
    requires SOH in s
    ensures !Decoding(s).SubtractOverflow?
  {
    var pieces := Split(s, SOH);
    var tokens := NonEmpty(pieces);
    SplitPiecesShorter(s, SOH);
    NonEmptyMembership(pieces);
    forall i | 0 <= i < |tokens| ensures |tokens[i]| <= |s| - 1 {
      assert tokens[i] in pieces;
    }
    DecodeTokensChecksumBound(tokens, EmptyMessage, false, |s| - 1);
  }

  /** An accepted text ends its checksum input seven characters before its end, and carries a
      three-digit checksum below 256: the byte sum mod 256 of that input. */
  lemma DecodeAcceptsOnlyChecksum(s: string)
    requires Decoding(s).Returned? && Decoding(s).result.Ok?
    ensures var m := Decoding(s).result.value;
      && CHECKSUM_TAG in m.trailer && |s| >= 7
      && |m.trailer[CHECKSUM_TAG]| == 3 && IsDigits(m.trailer[CHECKSUM_TAG])
      && ParseDigits(m.trailer[CHECKSUM_TAG]) == ByteSum(s[..|s| - 7]) % 256
      && ParseDigits(m.trailer[CHECKSUM_TAG]) < 256
  {
    var m := DecodeTokens(NonEmpty(Split(s, SOH)), EmptyMessage, false).value;
    Checksum3Value(s[..|s| - 7]);
  }

  /** Filing fields, one after the other, before the trailer has started. */
  function FileAll(acc: Message, es: seq<(string, string)>): Message
    decreases es
  {
    if es == [] then acc else FileAll(File(acc, es[0].0, es[0].1, false), es[1..])
  }

  lemma {:induction false} FileAllSnoc(acc: Message, es: seq<(string, string)>, e: (string, string))
    decreases es
    ensures FileAll(acc, es + [e]) == File(FileAll(acc, es), e.0, e.1, false)
  {
    if es == [] {
      assert es + [e] == [e];
    } else {
      assert (es + [e])[1..] == es[1..] + [e];
      FileAllSnoc(File(acc, es[0].0, es[0].1, false), es[1..], e);
    }
  }

  /** Filing `es` treats each tag on its own: the mandatory header tags go to the header and all
      others to the body, each with the value of its last occurrence; the trailer stays empty. */
  lemma {:induction false} FileAllKey(es: seq<(string, string)>, k: string)
    ensures FileAll(EmptyMessage, es).trailer == map[]
    ensures k in FileAll(EmptyMessage, es).header <==> k in REQUIRED_TAGS && LastValue(es, k).Some?
    ensures k in FileAll(EmptyMessage, es).body <==> k !in REQUIRED_TAGS && LastValue(es, k).Some?
    ensures k in FileAll(EmptyMessage, es).header ==> FileAll(EmptyMessage, es).header[k] == LastValue(es, k).value
    ensures k in FileAll(EmptyMessage, es).body ==> FileAll(EmptyMessage, es).body[k] == LastValue(es, k).value
  {
    if es != [] {
      var init := es[..|es| - 1];
      FileAllKey(init, k);
      assert es == init + [es[|es| - 1]];
      FileAllSnoc(EmptyMessage, init, es[|es| - 1]);
    }
  }

  /** The texts of readable fields are non-empty SOH-free tokens. */
  lemma ReadableTokens(es: seq<(string, string)>)
    requires forall i :: 0 <= i < |es| ==> Readable(es[i])
    ensures forall i :: 0 <= i < |PairTexts(es)| ==> SOH !in PairTexts(es)[i] && PairTexts(es)[i] != ""
  {
    PairTextsIndex(es);
    forall i | 0 <= i < |es| ensures SOH !in PairTexts(es)[i] && PairTexts(es)[i] != "" {
      assert PairTexts(es)[i] == es[i].0 + "=" + es[i].1;
      assert Readable(es[i]);
    }
  }

  /** SOH-terminated SOH-free pieces, then one more, split into those pieces and the empty piece
      after the last SOH. */
  lemma SplitClosedText(ps: seq<string>, tok: string)
    requires forall i :: 0 <= i < |ps| ==> SOH !in ps[i]
    requires SOH !in tok
    ensures Split(Terminated(ps) + (tok + [SOH]), SOH) == ps + [tok, ""]
  {
    SplitTerminated(ps, tok + [SOH]);
    SplitAfterPiece(tok, "", SOH);
    assert tok + [SOH] + "" == tok + [SOH];
  }

  /** The filter drops just the empty piece after the last SOH. */
  lemma NonEmptyClosed(ps: seq<string>, tok: string)
    requires forall i :: 0 <= i < |ps| ==> ps[i] != ""
    requires tok != ""
    ensures NonEmpty(ps + [tok, ""]) == ps + [tok]
  {
    NonEmptyKeepsAll(ps);
    var kept := ps + [tok];
    assert ps + [tok, ""] == kept + [""];
    NonEmptyAppend(kept, [""]);
    NonEmptySingle("");
    NonEmptyAppend(ps, [tok]);
    NonEmptySingle(tok);
  }

  /** The first of several readable fields is filed before the trailer. */
  lemma DecodeTokensFileFirst(es: seq<(string, string)>, rest: seq<string>, acc: Message)
    requires es != [] && Readable(es[0])
    ensures DecodeTokens(PairTexts(es) + rest, acc, false)
         == DecodeTokens(PairTexts(es[1..]) + rest, File(acc, es[0].0, es[0].1, false), false)
  {
    var tok := Pair(es[0].0, es[0].1);
    assert PairTexts(es) == [tok] + PairTexts(es[1..]);
    assert (PairTexts(es) + rest)[0] == tok;
    assert (PairTexts(es) + rest)[1..] == PairTexts(es[1..]) + rest;
    SplitOnceField(es[0].0, es[0].1);
    FieldValueWhole(es[0].1);
  }

  /** Readable fields are filed one by one, and the trailer has not started after them. */
  lemma {:induction false} DecodeTokensFiles(es: seq<(string, string)>, rest: seq<string>, acc: Message)
    requires forall i :: 0 <= i < |es| ==> Readable(es[i])
    ensures DecodeTokens(PairTexts(es) + rest, acc, false) == DecodeTokens(rest, FileAll(acc, es), false)
  {
    if es == [] {
      assert PairTexts(es) + rest == rest;
    } else {
      DecodeTokensFileFirst(es, rest, acc);
      DecodeTokensFiles(es[1..], rest, File(acc, es[0].0, es[0].1, false));
    }
  }

  /** The tokens of readable fields closed by a CheckSum(10) field are those fields' texts. */
  lemma FieldsTextTokens(es: seq<(string, string)>, cs: string)
    requires forall i :: 0 <= i < |es| ==> Readable(es[i])
    requires SOH !in cs
    ensures NonEmpty(Split(Terminated(PairTexts(es)) + Field(CHECKSUM_TAG, cs), SOH)) == PairTexts(es) + [Pair(CHECKSUM_TAG, cs)]
  {
    ReadableTokens(es);
    var ps, tok := PairTexts(es), Pair(CHECKSUM_TAG, cs);
    SplitClosedText(ps, tok);
    NonEmptyClosed(ps, tok);
  }

  /** The token loop over readable fields closed by a CheckSum(10) field files the fields and puts
      the checksum, alone, in the trailer. */
  lemma DecodeTokensOfFields(es: seq<(string, string)>, cs: string)
    requires forall i :: 0 <= i < |es| ==> Readable(es[i])
    requires '=' !in cs
    ensures DecodeTokens(PairTexts(es) + [Pair(CHECKSUM_TAG, cs)], EmptyMessage, false)
         == Ok(FileAll(EmptyMessage, es).(trailer := map[CHECKSUM_TAG := cs]))
  {
    DecodeTokensFiles(es, [Pair(CHECKSUM_TAG, cs)], EmptyMessage);
    var acc := FileAll(EmptyMessage, es);
    FileAllKey(es, CHECKSUM_TAG);
    DecodeChecksumLast(acc, cs);
  }

  /** A lone last CheckSum(10) token starts the trailer and puts its value there. */
  lemma DecodeChecksumLast(acc: Message, cs: string)
    requires '=' !in cs
    ensures DecodeTokens([Pair(CHECKSUM_TAG, cs)], acc, false) == Ok(acc.(trailer := acc.trailer[CHECKSUM_TAG := cs]))
  {
    var tok := Pair(CHECKSUM_TAG, cs);
    SplitOnceField(CHECKSUM_TAG, cs);
    FieldValueWhole(cs);
    assert [tok][1..] == [];
  }

  /** Readable fields closed by a CheckSum(10) field: `decode` files the fields and accepts exactly
      when the checksum value is the checksum of the fields' text, and answers "Invalid checksum"
      otherwise. */
  lemma DecodeFieldsThenChecksum(es: seq<(string, string)>, cs: string)
    requires forall i :: 0 <= i < |es| ==> Readable(es[i])
    requires SOH !in cs && '=' !in cs
    ensures var prefix := Terminated(PairTexts(es));
      Decoding(prefix + Field(CHECKSUM_TAG, cs))
        == if cs == Checksum3(prefix) then Returned(Ok(FileAll(EmptyMessage, es).(trailer := map[CHECKSUM_TAG := cs])))
           else Returned(Err(ERR_CHECKSUM))
  {
    var prefix := Terminated(PairTexts(es));
    var s := prefix + Field(CHECKSUM_TAG, cs);
    var m := FileAll(EmptyMessage, es).(trailer := map[CHECKSUM_TAG := cs]);
    FieldsTextTokens(es, cs);
    DecodeTokensOfFields(es, cs);
    assert Decoding(s) == CheckTrailer(s, m);
    assert |s| - |cs| - 4 == |prefix|;
    assert s[..|prefix|] == prefix;
  }

  /** Everything `decode` needs to read an encoding back: no SOH and no '=' in any tag, value or
      clock reading, no CheckSum(10) tag in the header or the body, no mandatory header tag in the
      body, and no trailer field besides the checksum. */
  predicate Encodable(m: Message, clock: string)
  {
    && SOH !in clock && '=' !in clock
    && (forall k :: k in m.header ==>
          SOH !in k && '=' !in k && k != CHECKSUM_TAG && SOH !in m.header[k] && '=' !in m.header[k])
    && (forall k :: k in m.body ==>
          SOH !in k && '=' !in k && k != CHECKSUM_TAG && k !in REQUIRED_TAGS && SOH !in m.body[k] && '=' !in m.body[k])
    && m.trailer.Keys <= {CHECKSUM_TAG}
  }

  /** One field of the header `encode` leaves behind holds no SOH and no '=' and is not CheckSum(10). */
  lemma EncodedHeaderFieldReadable(m: Message, clock: string, ord: EncodeOrder, k: string)
    requires Encodable(m, clock) && k in EncodedHeader(m, clock, ord)
    ensures Readable((k, EncodedHeader(m, clock, ord)[k]))
  {
    var h := EncodedHeader(m, clock, ord);
    if k == "9" {
      var v := h["9"];
      assert IsDigits(v);
      assert forall i :: 0 <= i < |v| ==> v[i] != SOH && v[i] != '=';
    } else {
      var d := WithDefaults(m.header, clock);
      assert h[k] == d[k];
      if k !in m.header {
        assert k == "8" || k == "52";
      }
    }
  }

  /** No field of the header `encode` leaves behind holds SOH or '=' or is CheckSum(10). */
  lemma EncodedHeaderReadable(m: Message, clock: string, ord: EncodeOrder)
    requires Encodable(m, clock)
    ensures var h := EncodedHeader(m, clock, ord);
      forall k :: k in h ==> Readable((k, h[k]))
  {
    forall k | k in EncodedHeader(m, clock, ord) ensures Readable((k, EncodedHeader(m, clock, ord)[k])) {
      EncodedHeaderFieldReadable(m, clock, ord, k);
    }
  }

  /** The entries of a map of readable fields are readable. */
  lemma ReadableEntries(m: map<string, string>, keys: seq<string>)
    requires forall k :: k in keys ==> k in m && Readable((k, m[k]))
    ensures forall i :: 0 <= i < |Entries(m, keys)| ==> Readable(Entries(m, keys)[i])
  {
    forall i | 0 <= i < |keys| ensures Readable(Entries(m, keys)[i]) {
      assert keys[i] in keys;
      EntriesIndex(m, keys, i);
    }
  }

  lemma ReadableAppend(a: seq<(string, string)>, b: seq<(string, string)>)
    requires forall i :: 0 <= i < |a| ==> Readable(a[i])
    requires forall i :: 0 <= i < |b| ==> Readable(b[i])
    ensures forall i :: 0 <= i < |a + b| ==> Readable((a + b)[i])
  {
    forall i | 0 <= i < |a + b| ensures Readable((a + b)[i]) {
      if i >= |a| {
        assert (a + b)[i] == b[i - |a|];
      }
    }
  }

  /** The last value written for `k`: its body value if `k` is a body tag, else its header value. */
  lemma LastValueOfWritten(h: map<string, string>, hk: seq<string>, body: map<string, string>, bodyOrder: seq<string>, k: string)
    requires IsOrdering(hk, h.Keys) && IsOrdering(bodyOrder, body.Keys)
    ensures LastValue(Entries(h, hk) + Entries(body, bodyOrder), k)
         == if k in body then Some(body[k]) else if k in h then Some(h[k]) else None
  {
    LastValueAppend(Entries(h, hk), Entries(body, bodyOrder), k);
    LastValueOfEntries(h, hk, k);
    LastValueOfEntries(body, bodyOrder, k);
  }

  /** The mandatory header fields of `h`. */
  function RequiredPart(h: map<string, string>): map<string, string>
  {
    map k | k in h && k in REQUIRED_TAGS :: h[k]
  }

  /** The other header fields of `h`. */
  function OtherPart(h: map<string, string>): map<string, string>
  {
    map k | k in h && k !in REQUIRED_TAGS :: h[k]
  }

  /** Filing the written header entries and then the body entries, for one header tag. */
  lemma FileAllEntriesHeaderKey(h: map<string, string>, hk: seq<string>, body: map<string, string>, bodyOrder: seq<string>, k: string)
    requires IsOrdering(hk, h.Keys) && IsOrdering(bodyOrder, body.Keys) && body.Keys !! REQUIRED_TAGS
    ensures var r := FileAll(EmptyMessage, Entries(h, hk) + Entries(body, bodyOrder));
      && (k in r.header <==> k in RequiredPart(h)) && (k in r.header ==> r.header[k] == RequiredPart(h)[k])
  {
    LastValueOfWritten(h, hk, body, bodyOrder, k);
    FileAllKey(Entries(h, hk) + Entries(body, bodyOrder), k);
  }

  /** Filing the written header entries and then the body entries, for one body tag. */
  lemma FileAllEntriesBodyKey(h: map<string, string>, hk: seq<string>, body: map<string, string>, bodyOrder: seq<string>, k: string)
    requires IsOrdering(hk, h.Keys) && IsOrdering(bodyOrder, body.Keys) && body.Keys !! REQUIRED_TAGS
    ensures var r := FileAll(EmptyMessage, Entries(h, hk) + Entries(body, bodyOrder));
      && (k in r.body <==> k in OtherPart(h) + body) && (k in r.body ==> r.body[k] == (OtherPart(h) + body)[k])
  {
    LastValueOfWritten(h, hk, body, bodyOrder, k);
    FileAllKey(Entries(h, hk) + Entries(body, bodyOrder), k);
  }

  lemma FileAllEntriesHeader(h: map<string, string>, hk: seq<string>, body: map<string, string>, bodyOrder: seq<string>)
    requires IsOrdering(hk, h.Keys) && IsOrdering(bodyOrder, body.Keys) && body.Keys !! REQUIRED_TAGS
    ensures FileAll(EmptyMessage, Entries(h, hk) + Entries(body, bodyOrder)).header == RequiredPart(h)
  {
    var r := FileAll(EmptyMessage, Entries(h, hk) + Entries(body, bodyOrder)).header;
    forall k ensures (k in r <==> k in RequiredPart(h)) && (k in r ==> r[k] == RequiredPart(h)[k]) {
      FileAllEntriesHeaderKey(h, hk, body, bodyOrder, k);
    }
    MapsAgree(r, RequiredPart(h));
  }

  lemma FileAllEntriesBody(h: map<string, string>, hk: seq<string>, body: map<string, string>, bodyOrder: seq<string>)
    requires IsOrdering(hk, h.Keys) && IsOrdering(bodyOrder, body.Keys) && body.Keys !! REQUIRED_TAGS
    ensures FileAll(EmptyMessage, Entries(h, hk) + Entries(body, bodyOrder)).body == OtherPart(h) + body
  {
    var r := FileAll(EmptyMessage, Entries(h, hk) + Entries(body, bodyOrder)).body;
    forall k ensures (k in r <==> k in OtherPart(h) + body) && (k in r ==> r[k] == (OtherPart(h) + body)[k]) {
      FileAllEntriesBodyKey(h, hk, body, bodyOrder, k);
    }
    MapsAgree(r, OtherPart(h) + body);
  }

  /** Filing the written header entries and then the body entries: the mandatory header fields in
      the header; the other header fields and the body fields, the body winning on a shared tag, in
      the body. */
  lemma FileAllEntries(h: map<string, string>, hk: seq<string>, body: map<string, string>, bodyOrder: seq<string>)
    requires IsOrdering(hk, h.Keys) && IsOrdering(bodyOrder, body.Keys) && body.Keys !! REQUIRED_TAGS
    ensures FileAll(EmptyMessage, Entries(h, hk) + Entries(body, bodyOrder))
         == Message(RequiredPart(h), OtherPart(h) + body, map[])
  {
    FileAllKey(Entries(h, hk) + Entries(body, bodyOrder), "");
    FileAllEntriesHeader(h, hk, body, bodyOrder);
    FileAllEntriesBody(h, hk, body, bodyOrder);
  }

  /** Round trip: decoding what `encode` produced gives back the mandatory header fields in the
      header, every other header field and every body field in the body (a body field wins over a
      header field with the same tag), and the checksum in the trailer. */
  lemma RoundTrip(m: Message, clock: string, ord: EncodeOrder)
    requires OrderFits(m, ord) && Encodable(m, clock)
    ensures var e := Encoding(m, clock, ord); var h := e.message.header;
      Decoding(e.text)
        == Returned(Ok(Message(RequiredPart(h), OtherPart(h) + m.body, e.message.trailer)))
  {
    EncodingText(m, clock, ord);
    var h := EncodedHeader(m, clock, ord);
    var hk := HeaderKeys(h, ord.header);
    HeaderKeysOrdering(h, ord.header);
    var headerEntries := Entries(h, hk);
    var bodyEntries := Entries(m.body, ord.body);
    var es := headerEntries + bodyEntries;

    // The text is the readable fields, then the checksum field.
    PairsAreEntryTexts(h, hk);
    PairsAreEntryTexts(m.body, ord.body);
    PairTextsAppend(headerEntries, bodyEntries);
    TerminatedAppend(PairTexts(headerEntries), PairTexts(bodyEntries));
    var prefix := HeaderText(h, ord.header) + FieldsText(m.body, ord.body);
    assert prefix == Terminated(PairTexts(es));

    EncodedHeaderReadable(m, clock, ord);
    ReadableEntries(h, hk);
    ReadableEntries(m.body, ord.body);
    ReadableAppend(headerEntries, bodyEntries);
    var cs := Checksum3(prefix);
    assert SOH !in cs && '=' !in cs by {
      assert IsDigits(cs);
    }
    DecodeFieldsThenChecksum(es, cs);
    FileAllEntries(h, hk, m.body, ord.body);
  }

  /** What the round trip promises about the fields a caller set: every mandatory header field but
      BodyLength(9), and every body field, comes back with its value. */
  lemma RoundTripKeepsFields(m: Message, clock: string, ord: EncodeOrder)
    requires OrderFits(m, ord) && Encodable(m, clock)
    ensures var d := Decoding(Encoding(m, clock, ord).text);
      && d.Returned? && d.result.Ok?
      && (forall k :: k in m.header && k in REQUIRED_TAGS && k != "9" ==>
            k in d.result.value.header && d.result.value.header[k] == m.header[k])
      && (forall k :: k in m.body ==> k in d.result.value.body && d.result.value.body[k] == m.body[k])
  {
    RoundTrip(m, clock, ord);
    EncodeFillsDefaults(m, clock, ord);
  }
}
