/** The array-based encoder of src/message_optimised.rs: a message is ten header slots, ten body
    slots and one trailer slot, each empty or holding one typed field. `encode` writes BodyLength(9)
    into header slot 1 and an unpadded CheckSum(10) into the trailer slot, and renders the present
    slots in index order. */
module OptimisedCodec {
  import opened Wire
  import opened Tag

  type Slot = Option<FixTag>

  /** `n` empty slots. */
  function EmptySlots(n: nat): (r: seq<Slot>)
    ensures |r| == n && forall i :: 0 <= i < n ==> r[i].None?
  {
    seq(n, _ => None)
  }

  /** The text of one slot: `tag_id=value` and SOH when it holds a field, nothing when it is empty. */
  function SlotText(slot: Slot): string
  {
    match slot
    case None => ""
    case Some(t) => Field(t.TagId(), t.Value())
  }

  /** The present slots rendered in index order. */
  function SlotsText(slots: seq<Slot>): string
  {
    if slots == [] then "" else SlotText(slots[0]) + SlotsText(slots[1..])
  }

  /** A field that `calculate_body_length` leaves out: BeginString(8) or BodyLength(9). */
  predicate Uncounted(t: FixTag)
  {
    t.BeginString? || t.BodyLength?
  }

  /** The left-out fields are exactly those whose tag id is "8" or "9". */
  lemma UncountedTags(t: FixTag)
    ensures Uncounted(t) <==> t.TagId() == "8" || t.TagId() == "9"
  {
  }

  /** What one slot adds to the body length: `|value| + |tag_id| + 2` for a present field that is
      not 8 or 9, else nothing. */
  function SlotWeight(slot: Slot): nat
  {
    match slot
    case None => 0
    case Some(t) => if Uncounted(t) then 0 else |t.Value()| + |t.TagId()| + 2
  }

  function WeightSum(slots: seq<Slot>): nat
  {
    if slots == [] then 0 else SlotWeight(slots[0]) + WeightSum(slots[1..])
  }

  /** `calculate_body_length`: the weights of the header slots, then of the body slots. */
  function CalculateBodyLength(header: seq<Slot>, body: seq<Slot>): nat
  {
    WeightSum(header + body)
  }

  /** `calculate_checksum`: the byte sum mod 256, as a number. */
  function CalculateChecksum(s: string): (r: nat)
    ensures r < 256
  {
    ByteSum(s) % 256
  }

  /** The slots with every 8 and 9 field emptied: the fields the body length is meant to count. */
  function Counted(slots: seq<Slot>): (r: seq<Slot>)
    ensures |r| == |slots|
  {
    if slots == [] then []
    else [if slots[0].Some? && Uncounted(slots[0].value) then None else slots[0]] + Counted(slots[1..])
  }

  lemma {:induction false} SlotsTextAppend(a: seq<Slot>, b: seq<Slot>)
    ensures SlotsText(a + b) == SlotsText(a) + SlotsText(b)
  {
    if a == [] {
      assert a + b == b;
    } else {
      assert (a + b)[0] == a[0] && (a + b)[1..] == a[1..] + b;
      SlotsTextAppend(a[1..], b);
    }
  }

  /** The body length is the length of the rendered text of every field but 8 and 9. */
  lemma {:induction false} WeightSumIsCountedLength(slots: seq<Slot>)
    ensures WeightSum(slots) == |SlotsText(Counted(slots))|
  {
    if slots != [] {
      WeightSumIsCountedLength(slots[1..]);
      var c := Counted(slots);
      assert c[0] == (if slots[0].Some? && Uncounted(slots[0].value) then None else slots[0]);
      assert c[1..] == Counted(slots[1..]);
    }
  }

  /** `calculate_body_length` counts exactly the octets of the rendered fields other than 8 and 9. */
  lemma BodyLengthIsCountedText(header: seq<Slot>, body: seq<Slot>)
    ensures CalculateBodyLength(header, body) == |SlotsText(Counted(header + body))|
  {
    WeightSumIsCountedLength(header + body);
  }

  lemma {:induction false} CountedAppend(a: seq<Slot>, b: seq<Slot>)
    ensures Counted(a + b) == Counted(a) + Counted(b)
  {
    if a == [] {
      assert a + b == b;
    } else {
      assert (a + b)[0] == a[0] && (a + b)[1..] == a[1..] + b;
      CountedAppend(a[1..], b);
    }
  }

  /** No slot holds an 8 or 9 field. */
  predicate AllCounted(slots: seq<Slot>)
  {
    forall i :: 0 <= i < |slots| ==> slots[i].None? || !Uncounted(slots[i].value)
  }

  /** Without 8 and 9 fields, nothing is emptied. */
  lemma {:induction false} CountedKeepsAll(slots: seq<Slot>)
    requires AllCounted(slots)
    ensures Counted(slots) == slots
  {
    if slots != [] {
      assert AllCounted(slots[1..]) by {
        forall i | 0 <= i < |slots| - 1 ensures slots[1..][i].None? || !Uncounted(slots[1..][i].value) {
          assert slots[1..][i] == slots[i + 1];
        }
      }
      CountedKeepsAll(slots[1..]);
    }
  }

  /** The body-length text, the slots `encode` leaves behind, and the text it returns. */
  datatype Rendered = Rendered(text: string, header: seq<Slot>, trailer: seq<Slot>)

  /** `encode` of the slots: BodyLength(9) goes into header slot 1, then the present slots are
      rendered and followed by "10=", the unpadded checksum of that rendering, and SOH. */
  function Encoding(header: seq<Slot>, body: seq<Slot>): Rendered
    requires |header| >= 2
  {
    var h := header[1 := Some(FixTag.BodyLength(NatToString(CalculateBodyLength(header, body))))];
    var msg := SlotsText(h + body);
    var checksum := NatToString(CalculateChecksum(msg));
    Rendered(msg + "10=" + checksum + [SOH], h, [Some(FixTag.Checksum(checksum))])
  }

  /** `int_to_str_no_alloc`: writes the decimal digits of `n` at the end of `buffer`, working
      backwards, and returns them; the bytes before them are left alone. The buffer must have room
      for every digit. */
  method IntToStrNoAlloc(n: nat, buffer: array<char>) returns (s: string)
    requires |NatToString(n)| <= buffer.Length
    modifies buffer
    ensures s == NatToString(n)
    ensures buffer[buffer.Length - |s|..] == s
    ensures buffer[..buffer.Length - |s|] == old(buffer[..buffer.Length - |s|])
  {
    ghost var digits := NatToString(n);
    ghost var initial := buffer[..];
    var pos := buffer.Length;
    ghost var written: string := [];
    if n == 0 {
      pos := pos - 1;
      buffer[pos] := '0';
      written := "0";
      assert buffer[..] == initial[..pos] + written;
    } else {
      var num := n;
      while num > 0
        invariant 0 <= pos <= buffer.Length
        invariant buffer[..] == initial[..pos] + written
        invariant Digits(num) + written == digits
        decreases num
      {
        DigitsStep(num, written, digits);
        pos := pos - 1;
        ghost var before := buffer[..];
        buffer[pos] := ('0' as int + num % 10) as char;
        assert buffer[..] == before[pos := DigitChar(num % 10)];
        WriteInFront(before, initial, pos, DigitChar(num % 10), written);
        written := [DigitChar(num % 10)] + written;
        num := num / 10;
      }
    }
    assert written == digits;
    s := buffer[pos..];
    SplitAtWritten(buffer[..], initial, pos, written);
  }

  /** `int_to_str_no_alloc(n, &mut [0u8; 16]).to_string()`: the digits of `n`, written into a fresh
      16-byte buffer. */
  method ToStringVia16Bytes(n: nat) returns (s: string)
    requires |NatToString(n)| <= 16
    ensures s == NatToString(n)
  {
    var buffer := new char[16](_ => '\0');
    s := IntToStrNoAlloc(n, buffer);
  }

  /** A buffer that is `initial` up to `pos` and `written` from there splits back into the two. */
  lemma SplitAtWritten(full: seq<char>, initial: seq<char>, pos: nat, written: string)
    requires pos <= |initial| && full == initial[..pos] + written
    ensures full[pos..] == written && full[..pos] == initial[..pos] && |full| == pos + |written|
  {
  }

  /** Writing `c` just before the characters already written extends them at the front. */
  lemma WriteInFront(before: seq<char>, initial: seq<char>, pos: nat, c: char, written: string)
    requires pos < |initial| && before == initial[..pos + 1] + written
    ensures before[pos := c] == initial[..pos] + ([c] + written)
  {
    assert initial[..pos + 1] == initial[..pos] + [initial[pos]];
  }

  /** The digits of a positive number end with its last digit. */
  lemma DigitsLast(num: nat)
    requires num > 0
    ensures Digits(num) == Digits(num / 10) + [DigitChar(num % 10)]
  {
  }

  /** Writing the last digit of `num` in front of the digits already written. */
  lemma DigitsStep(num: nat, written: string, digits: string)
    requires num > 0 && Digits(num) + written == digits
    ensures Digits(num / 10) + ([DigitChar(num % 10)] + written) == digits
    ensures |written| < |digits|
  {
    var d, c := Digits(num / 10), DigitChar(num % 10);
    DigitsLast(num);
    assert d + ([c] + written) == (d + [c]) + written;
  }

  /** The message object of src/message_optimised.rs. */
  class FixMessage2 {
    var header: array<Slot>
    var body: array<Slot>
    var trailer: array<Slot>

    /** Three separate arrays of the fixed sizes 10, 10 and 1. */
    ghost predicate Valid()
      reads this
    {
      && header.Length == 10 && body.Length == 10 && trailer.Length == 1
      && header != body && header != trailer && body != trailer
    }

    /** `FixMessage2::new`: every slot empty. */
    constructor ()
      ensures Valid() && fresh(header) && fresh(body) && fresh(trailer)
      ensures header[..] == EmptySlots(10) && body[..] == EmptySlots(10) && trailer[..] == EmptySlots(1)
    {
      header := new Slot[10](_ => None);
      body := new Slot[10](_ => None);
      trailer := new Slot[1](_ => None);
    }

    /** `FixMessage2::encode`. The body length must fit the 16-byte digit buffer. */
    method Encode() returns (text: string)
      requires Valid()
      requires |NatToString(CalculateBodyLength(header[..], body[..]))| <= 16
      modifies header, trailer
      ensures Valid() && body[..] == old(body[..])
      ensures var e := Encoding(old(header[..]), old(body[..]));
        text == e.text && header[..] == e.header && trailer[..] == e.trailer
    {
      ghost var h0 := header[..];
      var bodyLength := CalculateBodyLength(header[..], body[..]);
      var bodyLengthStr := ToStringVia16Bytes(bodyLength);
      header[1] := Some(FixTag.BodyLength(bodyLengthStr));
      assert header[..] == h0[1 := Some(FixTag.BodyLength(bodyLengthStr))];
      var msgStr := SlotsText(header[..] + body[..]);
      var checksumValue := CalculateChecksum(msgStr);
      DigitsLength(checksumValue);
      var checksum := ToStringVia16Bytes(checksumValue);
      trailer[0] := Some(FixTag.Checksum(checksum));
      text := msgStr + "10=" + checksum + [SOH];
    }
  }

  // ---------------------------------------------------------------------------
  // Properties of encoding

  /** The text is the present header slots (slot 1 now BodyLength(9)), then the present body slots,
      then "10=", the checksum of exactly that rendering, and SOH; the trailer slot holds the same
      checksum text, which reads back as the byte sum mod 256 of the rendering. */
  lemma EncodingLayout(header: seq<Slot>, body: seq<Slot>)
    requires |header| >= 2
    ensures var e := Encoding(header, body); var msg := SlotsText(e.header + body);
      && e.text == msg + "10=" + e.trailer[0].value.Value() + [SOH]
      && e.header[1] == Some(FixTag.BodyLength(NatToString(CalculateBodyLength(header, body))))
      && (forall i :: 0 <= i < |header| && i != 1 ==> e.header[i] == header[i])
      && |e.trailer| == 1 && e.trailer[0].Some? && e.trailer[0].value.TagId() == CHECKSUM_TAG
      && IsDigits(e.trailer[0].value.Value())
      && ParseDigits(e.trailer[0].value.Value()) == ByteSum(msg) % 256
  {
  }

  /** The text `encode` renders after header slots 0 and 1: the later header slots, then the body. */
  function AfterBodyLength(header: seq<Slot>, body: seq<Slot>): string
    requires |header| >= 2
  {
    SlotsText(header[2..] + body)
  }

  /** The text starts with header slots 0 and 1 and ends with the checksum field. */
  lemma EncodingFront(header: seq<Slot>, body: seq<Slot>)
    requires |header| >= 2
    ensures var e := Encoding(header, body);
      e.text == SlotText(header[0]) + SlotText(e.header[1]) + AfterBodyLength(header, body)
                + "10=" + e.trailer[0].value.Value() + [SOH]
  {
    var e := Encoding(header, body);
    EncodingLayout(header, body);
    SlotsTextSplitTwo(e.header, body);
    assert e.header[2..] == header[2..];
  }

  lemma SlotsTextSplitTwo(h: seq<Slot>, body: seq<Slot>)
    requires |h| >= 2
    ensures SlotsText(h + body) == SlotText(h[0]) + SlotText(h[1]) + SlotsText(h[2..] + body)
  {
    assert h + body == [h[0], h[1]] + (h[2..] + body);
    SlotsTextFront(h[0], h[1], h[2..] + body);
  }

  /** With no 8 or 9 field past slot 1, and nothing counted in slot 1, the body length is the
      length of the text after slots 0 and 1. */
  lemma BodyLengthOfRest(header: seq<Slot>, body: seq<Slot>)
    requires |header| >= 2
    requires header[0].Some? && header[0].value.BeginString?
    requires header[1].None? || Uncounted(header[1].value)
    requires AllCounted(header[2..]) && AllCounted(body)
    ensures CalculateBodyLength(header, body) == |AfterBodyLength(header, body)|
  {
    var tail := header[2..] + body;
    assert header + body == [header[0], header[1]] + tail;
    WeightSumFront(header[0], header[1], tail);
    CountedAppend(header[2..], body);
    CountedKeepsAll(header[2..]);
    CountedKeepsAll(body);
    WeightSumIsCountedLength(tail);
  }

  /** When slot 0 holds BeginString(8), slot 1 holds nothing counted, and no other slot holds an
      8 or 9 field, the text is BeginString, BodyLength, then exactly as many characters as
      BodyLength says, then the checksum field: the body length FIX defines. */
  lemma BodyLengthSpansBody(header: seq<Slot>, body: seq<Slot>)
    requires |header| >= 2
    requires header[0].Some? && header[0].value.BeginString?
    requires header[1].None? || Uncounted(header[1].value)
    requires AllCounted(header[2..]) && AllCounted(body)
    ensures var e := Encoding(header, body); var n := CalculateBodyLength(header, body);
      && e.text == SlotText(header[0]) + Field("9", NatToString(n)) + AfterBodyLength(header, body)
                   + "10=" + e.trailer[0].value.Value() + [SOH]
      && |AfterBodyLength(header, body)| == n
  {
    EncodingFront(header, body);
    BodyLengthOfRest(header, body);
  }

  lemma SlotsTextFront(a: Slot, b: Slot, tail: seq<Slot>)
    ensures SlotsText([a, b] + tail) == SlotText(a) + SlotText(b) + SlotsText(tail)
  {
    assert [a, b] + tail == [a] + ([b] + tail);
    SlotsTextCons(a, [b] + tail);
    SlotsTextCons(b, tail);
  }

  lemma SlotsTextCons(a: Slot, tail: seq<Slot>)
    ensures SlotsText([a] + tail) == SlotText(a) + SlotsText(tail)
  {
    assert ([a] + tail)[1..] == tail;
  }

  lemma WeightSumFront(a: Slot, b: Slot, tail: seq<Slot>)
    ensures WeightSum([a, b] + tail) == SlotWeight(a) + SlotWeight(b) + WeightSum(tail)
  {
    var s := [a, b] + tail;
    assert s[1..] == [b] + tail;
    assert s[1..][1..] == tail;
  }

  /** The checksum is written without zero padding: the text matches the three-digit checksum of
      the other codecs exactly when the sum mod 256 is at least 100. */
  lemma UnpaddedChecksum(s: string)
    ensures NatToString(CalculateChecksum(s)) == Checksum3(s) <==> CalculateChecksum(s) >= 100
  {
    var c := CalculateChecksum(s);
    var r := NatToString(c);
    DigitsLength(c);
    Checksum3Value(s);
    if c >= 100 {
      if |r| < 3 {
        ShortDigitsBound(r);
      }
      ParseDigitsInjective(r, Checksum3(s));
    }
  }

  /** At most two digits read back below 100. */
  lemma ShortDigitsBound(r: string)
    requires IsDigits(r) && |r| <= 2
    ensures ParseDigits(r) < 100
  {
    if r != [] {
      var p := r[..|r| - 1];
      assert IsDigits(p);
      if p != [] {
        assert p[..|p| - 1] == [];
      }
    }
  }

  /** The sample message of the source's tests, slot by slot. */
  const SAMPLE_CLOCK: string := "20231016-12:30:00.123"
  const SAMPLE_BEGIN: Slot := Some(FixTag.BeginString(Fix4_2))
  const SAMPLE_MSG_TYPE: Slot := Some(FixTag.MsgType(Logon))
  const SAMPLE_SEQ_NUM: Slot := Some(FixTag.MsgSeqNum("1"))
  const SAMPLE_TIME: Slot := Some(FixTag.SendingTime(SAMPLE_CLOCK))
  const SAMPLE_SENDER: Slot := Some(FixTag.SenderCompID(CompID("SENDER")))
  const SAMPLE_TARGET: Slot := Some(FixTag.TargetCompID(CompID("TARGET")))
  const SAMPLE_SYMBOL: Slot := Some(FixTag.Symbol("BTCUSDT"))

  function SampleHeader(): seq<Slot>
  {
    [SAMPLE_BEGIN, None, SAMPLE_MSG_TYPE, SAMPLE_SEQ_NUM, SAMPLE_TIME, SAMPLE_SENDER, SAMPLE_TARGET, None, None, None]
  }

  function SampleBody(): seq<Slot>
  {
    [SAMPLE_SYMBOL, None] + EmptySlots(8)
  }

  /** The sample message has body length 66. */
  lemma SampleBodyLength()
    ensures CalculateBodyLength(SampleHeader(), SampleBody()) == 66
  {
    SampleHeaderWeight();
    SampleBodyWeight();
    WeightSumAppend(SampleHeader(), SampleBody());
  }

  /** The sample header slots weigh 55: MsgType 5, MsgSeqNum 5, SendingTime 25, the two CompIDs 10 each. */
  lemma SampleHeaderWeight()
    ensures WeightSum(SampleHeader()) == 55
  {
    assert SlotWeight(SAMPLE_MSG_TYPE) == 5 && SlotWeight(SAMPLE_SEQ_NUM) == 5;
    assert SlotWeight(SAMPLE_TIME) == 25;
    assert SlotWeight(SAMPLE_SENDER) == 10 && SlotWeight(SAMPLE_TARGET) == 10;
    var none2: seq<Slot> := [None, None];
    var t3 := [SAMPLE_TARGET, None] + none2;
    var t2 := [SAMPLE_TIME, SAMPLE_SENDER] + t3;
    var t1 := [SAMPLE_MSG_TYPE, SAMPLE_SEQ_NUM] + t2;
    assert SampleHeader() == [SAMPLE_BEGIN, None] + t1;
    WeightSumFront(SAMPLE_BEGIN, None, t1);
    WeightSumFront(SAMPLE_MSG_TYPE, SAMPLE_SEQ_NUM, t2);
    WeightSumFront(SAMPLE_TIME, SAMPLE_SENDER, t3);
    WeightSumFront(SAMPLE_TARGET, None, none2);
    WeightSumFront(None, None, []);
  }

  /** The sample body slots weigh 11: Symbol 55=BTCUSDT. */
  lemma SampleBodyWeight()
    ensures WeightSum(SampleBody()) == 11
  {
    assert SlotWeight(SAMPLE_SYMBOL) == 11;
    WeightSumFront(SAMPLE_SYMBOL, None, EmptySlots(8));
    WeightSumEmptySlots(8);
  }

  lemma {:induction false} WeightSumAppend(a: seq<Slot>, b: seq<Slot>)
    ensures WeightSum(a + b) == WeightSum(a) + WeightSum(b)
  {
    if a == [] {
      assert a + b == b;
    } else {
      assert (a + b)[0] == a[0] && (a + b)[1..] == a[1..] + b;
      WeightSumAppend(a[1..], b);
    }
  }

  lemma {:induction false} WeightSumEmptySlots(n: nat)
    ensures WeightSum(EmptySlots(n)) == 0
  {
    if n > 0 {
      assert EmptySlots(n)[1..] == EmptySlots(n - 1);
      WeightSumEmptySlots(n - 1);
    }
  }
}
