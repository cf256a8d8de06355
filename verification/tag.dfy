/** The typed field tables of src/tag.rs: each field kind knows its numeric tag, its
    name and the text it puts on the wire. */
module Tag {
  import opened Wire

  /** CHECKSUM_TAG. */
  const CHECKSUM_TAG: string := "10"

  /** REQUIRED_HEADER_FIELDS: the seven mandatory header tags in their wire order. */
  const REQUIRED_HEADER_FIELDS: seq<string> := ["8", "9", "35", "49", "56", "34", "52"]

  /** The mandatory header tags as a set. */
  const REQUIRED_TAGS: set<string> := {"8", "9", "35", "49", "56", "34", "52"}

  /** A comp id; on its own it describes SenderCompID(49). */
  datatype CompID = CompID(id: string)
  {
    function TagId(): string { "49" }
    function FieldName(): string { "SenderCompID" }
    function Value(): string { id }
  }

  datatype PossDupFlag = Yes | No
  {
    function TagId(): string { "43" }
    function FieldName(): string { "PossDupFlag" }

    function Value(): string
    {
      match this
      case Yes => "Y"
      case No => "N"
    }

    /** `PossDupFlag::from_str`: accepts exactly the two wire values. */
    static function FromStr(value: string): (r: Result<PossDupFlag>)
      ensures r.Ok? <==> value == "Y" || value == "N"
      ensures r.Ok? ==> r.value.Value() == value
      ensures r.Err? ==> r.error == "Invalid PossDupFlag value"
    {
      if value == "Y" then Ok(Yes)
      else if value == "N" then Ok(No)
      else Err("Invalid PossDupFlag value")
    }
  }

  /** Parsing the wire value of a flag gives the flag back. */
  lemma PossDupFlagRoundTrip(f: PossDupFlag)
    ensures PossDupFlag.FromStr(f.Value()) == Ok(f)
  {
  }

  datatype BeginString = Fix4_2 | Fix4_4
  {
    function TagId(): string { "8" }
    function FieldName(): string { "BeginString" }

    function Value(): (r: string)
      ensures r == "FIX.4.2" <==> this == Fix4_2
      ensures r == "FIX.4.4" <==> this == Fix4_4
    {
      match this
      case Fix4_2 => "FIX.4.2"
      case Fix4_4 => "FIX.4.4"
    }
  }

  datatype MsgType =
    | Heartbeat | TestRequest | ResendRequest | Reject | SequenceReset | Logout
    | ExecutionReport | OrderCancelReject | Logon | News | SecurityDefinitionRequest
    | OrderSingle | SecurityDefinition | SecurityStatusRequest | SecurityStatus
    | OrderCancelRequest | OrderCancelReplaceRequest | OrderStatusRequest | DontKnowTrade
    | QuoteRequest | MarketDataRequest | MarketDataSnapshotFullRefresh
    | MarketDataIncrementalRefresh | MarketDataRequestReject | TradeCaptureReportRequest
    | TradeCaptureReport | TradeCaptureReportRequestAck
  {
    function TagId(): string { "35" }
    function FieldName(): string { "MsgType" }

    /** The MsgType(35) code of each message kind. */
    function Value(): (r: string)
      ensures 1 <= |r| <= 2
    {
      match this
      case Heartbeat => "0"
      case TestRequest => "1"
      case ResendRequest => "2"
      case Reject => "3"
      case SequenceReset => "4"
      case Logout => "5"
      case ExecutionReport => "8"
      case OrderCancelReject => "9"
      case Logon => "A"
      case News => "B"
      case SecurityDefinitionRequest => "c"
      case OrderSingle => "D"
      case SecurityDefinition => "d"
      case SecurityStatusRequest => "e"
      case SecurityStatus => "f"
      case OrderCancelRequest => "F"
      case OrderCancelReplaceRequest => "G"
      case OrderStatusRequest => "H"
      case DontKnowTrade => "Q"
      case QuoteRequest => "R"
      case MarketDataRequest => "V"
      case MarketDataSnapshotFullRefresh => "W"
      case MarketDataIncrementalRefresh => "X"
      case MarketDataRequestReject => "Y"
      case TradeCaptureReportRequest => "AD"
      case TradeCaptureReport => "AE"
      case TradeCaptureReportRequestAck => "AQ"
    }
  }

  /** Reads a MsgType(35) code back; the reference inverse of `MsgType.Value`. */
  function MsgTypeFromCode(code: string): Option<MsgType>
  {
    match code
    case "0" => Some(Heartbeat)
    case "1" => Some(TestRequest)
    case "2" => Some(ResendRequest)
    case "3" => Some(Reject)
    case "4" => Some(SequenceReset)
    case "5" => Some(Logout)
    case "8" => Some(ExecutionReport)
    case "9" => Some(OrderCancelReject)
    case "A" => Some(Logon)
    case "B" => Some(News)
    case "c" => Some(SecurityDefinitionRequest)
    case "D" => Some(OrderSingle)
    case "d" => Some(SecurityDefinition)
    case "e" => Some(SecurityStatusRequest)
    case "f" => Some(SecurityStatus)
    case "F" => Some(OrderCancelRequest)
    case "G" => Some(OrderCancelReplaceRequest)
    case "H" => Some(OrderStatusRequest)
    case "Q" => Some(DontKnowTrade)
    case "R" => Some(QuoteRequest)
    case "V" => Some(MarketDataRequest)
    case "W" => Some(MarketDataSnapshotFullRefresh)
    case "X" => Some(MarketDataIncrementalRefresh)
    case "Y" => Some(MarketDataRequestReject)
    case "AD" => Some(TradeCaptureReportRequest)
    case "AE" => Some(TradeCaptureReport)
    case "AQ" => Some(TradeCaptureReportRequestAck)
    case _ => None
  }

  /** Every MsgType code reads back as the kind that produced it. */
  lemma MsgTypeCodeRoundTrip(t: MsgType)
    ensures MsgTypeFromCode(t.Value()) == Some(t)
  {
  }

  /** The 27 MsgType codes are pairwise distinct. */
  lemma MsgTypeValueInjective(a: MsgType, b: MsgType)
    ensures a.Value() == b.Value() <==> a == b
  {
    MsgTypeCodeRoundTrip(a);
    MsgTypeCodeRoundTrip(b);
  }

  /** One typed FIX field. */
  datatype FixTag =
    | BeginString(version: BeginString)
    | MsgType(msgType: MsgType)
    | BodyLength(length: string)
    | SenderCompID(sender: CompID)
    | TargetCompID(target: CompID)
    | SenderSubID(senderSubId: string)
    | TargetSubID(targetSubId: string)
    | OnBehalfOfSubID(onBehalfOfSubId: string)
    | MsgSeqNum(seqNum: string)
    | SenderLocationID(locationId: string)
    | PossDupFlag(flag: PossDupFlag)
    | OrigSendingTime(origTime: string)
    | SendingTime(time: string)
    | Checksum(checksum: string)
    | Symbol(symbol: string)
  {
    /** The numeric tag of the field. */
    function TagId(): (r: string)
      ensures IsDigits(r) && 1 <= |r| && r[0] != '0'
    {
      match this
      case BeginString(f) => f.TagId()
      case MsgType(f) => f.TagId()
      case BodyLength(_) => "9"
      case SenderCompID(f) => f.TagId()
      case TargetCompID(_) => "56"
      case SenderSubID(_) => "50"
      case TargetSubID(_) => "57"
      case OnBehalfOfSubID(_) => "116"
      case MsgSeqNum(_) => "34"
      case SenderLocationID(_) => "142"
      case PossDupFlag(f) => f.TagId()
      case OrigSendingTime(_) => "122"
      case SendingTime(_) => "52"
      case Checksum(_) => "10"
      case Symbol(_) => "55"
    }

    /** The field's name. */
    function FieldName(): string
    {
      match this
      case BeginString(f) => f.FieldName()
      case MsgType(f) => f.FieldName()
      case BodyLength(_) => "BodyLength"
      case SenderCompID(f) => f.FieldName()
      case TargetCompID(_) => "TargetCompID"
      case SenderSubID(_) => "SenderSubID"
      case TargetSubID(_) => "TargetSubID"
      case OnBehalfOfSubID(_) => "OnBehalfOfSubID"
      case MsgSeqNum(_) => "MsgSeqNum"
      case SenderLocationID(_) => "SenderLocationID"
      case PossDupFlag(f) => f.FieldName()
      case OrigSendingTime(_) => "OrigSendingTime"
      case SendingTime(_) => "SendingTime"
      case Checksum(_) => "Checksum"
      case Symbol(_) => "Symbol"
    }

    /** The text the field carries on the wire. */
    function Value(): string
    {
      match this
      case BeginString(f) => f.Value()
      case MsgType(f) => f.Value()
      case BodyLength(length) => length
      case SenderCompID(f) => f.Value()
      case TargetCompID(f) => f.Value()
      case SenderSubID(subId) => subId
      case TargetSubID(subId) => subId
      case OnBehalfOfSubID(subId) => subId
      case MsgSeqNum(seqNum) => seqNum
      case SenderLocationID(locationId) => locationId
      case PossDupFlag(f) => f.Value()
      case OrigSendingTime(origTime) => origTime
      case SendingTime(time) => time
      case Checksum(checksum) => checksum
      case Symbol(symbol) => symbol
    }
  }

  /** The mandatory header tags are the tags of exactly seven field kinds, and only Checksum has tag 10. */
  lemma TagIdClasses(t: FixTag)
    ensures t.TagId() in REQUIRED_HEADER_FIELDS <==>
      t.BeginString? || t.MsgType? || t.BodyLength? || t.SenderCompID? || t.TargetCompID? || t.MsgSeqNum? || t.SendingTime?
    ensures t.TagId() == CHECKSUM_TAG <==> t.Checksum?
  {
  }

  /** Tag ids and field names identify the same kinds: two fields share a tag exactly when they share a name. */
  lemma TagIdMatchesFieldName(a: FixTag, b: FixTag)
    ensures a.TagId() == b.TagId() <==> a.FieldName() == b.FieldName()
  {
  }

  /** TargetCompID reports tag 56 and its own name although its CompID payload describes tag 49;
      the payload text is passed through unchanged. */
  lemma TargetCompIDOverridesPayload(c: CompID)
    ensures FixTag.TargetCompID(c).TagId() == "56" && c.TagId() == "49"
    ensures FixTag.TargetCompID(c).FieldName() == "TargetCompID" && c.FieldName() == "SenderCompID"
    ensures FixTag.TargetCompID(c).Value() == FixTag.SenderCompID(c).Value() == c.id
  {
  }

  /** Every field kind that carries text puts that text on the wire unchanged. */
  lemma ValueCarriesPayload(s: string)
    ensures FixTag.BodyLength(s).Value() == s && FixTag.SenderCompID(CompID(s)).Value() == s
    ensures FixTag.TargetCompID(CompID(s)).Value() == s && FixTag.SenderSubID(s).Value() == s
    ensures FixTag.TargetSubID(s).Value() == s && FixTag.OnBehalfOfSubID(s).Value() == s
    ensures FixTag.MsgSeqNum(s).Value() == s && FixTag.SenderLocationID(s).Value() == s
    ensures FixTag.OrigSendingTime(s).Value() == s && FixTag.SendingTime(s).Value() == s
    ensures FixTag.Checksum(s).Value() == s && FixTag.Symbol(s).Value() == s
  {
  }

  /** Each of the REQUIRED_HEADER_FIELDS is the tag of some field kind. */
  lemma RequiredHeaderFieldsAreTagIds()
    ensures forall i :: 0 <= i < |REQUIRED_HEADER_FIELDS| ==> exists t: FixTag :: t.TagId() == REQUIRED_HEADER_FIELDS[i]
  {
    assert FixTag.BeginString(Fix4_4).TagId() == REQUIRED_HEADER_FIELDS[0];
    assert FixTag.BodyLength("").TagId() == REQUIRED_HEADER_FIELDS[1];
    assert FixTag.MsgType(Logon).TagId() == REQUIRED_HEADER_FIELDS[2];
    assert FixTag.SenderCompID(CompID("")).TagId() == REQUIRED_HEADER_FIELDS[3];
    assert FixTag.TargetCompID(CompID("")).TagId() == REQUIRED_HEADER_FIELDS[4];
    assert FixTag.MsgSeqNum("").TagId() == REQUIRED_HEADER_FIELDS[5];
    assert FixTag.SendingTime("").TagId() == REQUIRED_HEADER_FIELDS[6];
  }
}
