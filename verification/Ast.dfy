/** Parsed server responses. Borrowed text and byte slices of the original are byte sequences here. */
module Ast {
  import opened Bytes

  datatype Status = StOk | StNo | StBad | StPreAuth | StBye

  datatype ResponseCode =
    | Alert
    | BadCharset(charsets: seq<bytes>)
    | CodeCapability(caps: seq<bytes>)
    | Parse
    | PermanentFlags(flags: seq<bytes>)
    | ReadOnly
    | ReadWrite
    | TryCreate
    | UidNext(n: nat)
    | UidValidity(n: nat)
    | Unseen(n: nat)
    | OtherCode(atom: bytes, extra: Option<bytes>)

  datatype StatusItem =
    | ItemMessages(n: nat)
    | ItemRecent(n: nat)
    | ItemUidNext(n: nat)
    | ItemUidValidity(n: nat)
    | ItemUnseen(n: nat)
    | ItemOther(n: nat)

  datatype FetchAttribute =
    | Flags(flags: seq<bytes>)
    | InternalDate(date: bytes)
    | Rfc822Size(n: nat)
    | Rfc822(data: bytes)
    | Rfc822Header(data: bytes)
    | Rfc822Text(data: bytes)
    | Envelope(raw: bytes)
    | Body(raw: bytes)
    | BodyStructure(raw: bytes)
    | BodySection(section: Option<bytes>, origin: Option<nat>, content: Option<bytes>)
    | Uid(n: nat)

  datatype DataResponse =
    | Capability(caps: seq<bytes>)
    | ListData(flags: seq<bytes>, delimiter: Option<bytes>, name: bytes)
    | Lsub(flags: seq<bytes>, delimiter: Option<bytes>, name: bytes)
    | StatusData(mailbox: bytes, items: seq<StatusItem>)
    | Search(ids: seq<nat>)
    | FlagsData(flags: seq<bytes>)
    | Exists(n: nat)
    | Recent(n: nat)
    | Expunge(n: nat)
    | Fetch(n: nat, attributes: seq<FetchAttribute>)
    | OtherData(line: bytes)

  datatype Response =
    | StatusResponse(tag: Option<bytes>, status: Status, code: Option<ResponseCode>, text: bytes)
    | Data(data: DataResponse)
    | Continue(code: Option<ResponseCode>, text: bytes)

  datatype ParseError =
    | Incomplete
    | InvalidChar(pos: nat)
    | InvalidNumber
    | LiteralTooLarge(got: nat, max: nat)
    | TooManyItems(max: nat)
    | Malformed(what: string)
    | Other(what: string)

  /** List elements a response code holds: the ones charged against the item budget. */
  function CodeItems(code: Option<ResponseCode>): nat {
    match code
    case Some(BadCharset(l)) => |l|
    case Some(CodeCapability(l)) => |l|
    case Some(PermanentFlags(l)) => |l|
    case _ => 0
  }

  function AttItems(att: FetchAttribute): nat {
    if att.Flags? then |att.flags| else 0
  }

  /** The attributes themselves plus the flags nested in them. */
  function AttsItems(atts: seq<FetchAttribute>): nat {
    if |atts| == 0 then 0
    else AttsItems(atts[..|atts| - 1]) + AttItems(atts[|atts| - 1]) + 1
  }

  function DataItems(d: DataResponse): nat {
    match d
    case Capability(l) => |l|
    case ListData(l, _, _) => |l|
    case Lsub(l, _, _) => |l|
    case StatusData(_, l) => |l|
    case FlagsData(l) => |l|
    case Fetch(_, atts) => AttsItems(atts)
    case _ => 0
  }

  /** Every list element in a response. SEARCH ids are not counted. */
  function ResponseItems(r: Response): nat {
    match r
    case StatusResponse(_, _, code, _) => CodeItems(code)
    case Continue(code, _) => CodeItems(code)
    case Data(d) => DataItems(d)
  }
}
