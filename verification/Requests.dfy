/** The transaction half of collector/ApiCommandParser.cpp as functions on the parser's state. */
module Requests {
  import opened Bytes
  import opened Wrappers
  import opened Messages

  const MAX_REQUEST_RETRIES: nat := 5

  /** The request fields of the parser. `asked` is history: the length given to the last startRequest. */
  datatype Parser = Parser(
    active: Option<EmsMessage>, retriesLeft: nat, response: seq<byte>,
    reqOffset: nat, reqLength: nat, reqDest: byte, reqType: byte,
    parsePosition: nat, responseCounter: nat, outputRaw: bool, asked: nat)

  /** What a client is told: OK, FAIL, or nothing yet. */
  datatype Verdict = Success | Failure | Undecided

  /** Output lines, before formatting. A byte read past the end of a short reply is None. */
  datatype Line =
    | Version(dest: byte, major: Option<byte>, minor: Option<byte>)
    | Maintenance(status: Option<byte>)
    | Record(prefix: string, number: nat, record: seq<byte>)
    | ScheduleName(index: Option<byte>)
    | Holiday(title: string, record: seq<byte>)
    | Contact(text: seq<byte>)
    | RawData(bytes: seq<byte>)

  /** The outcome of one parser call: new state, messages sent, lines output, frame handed to the
      message handler as if received, verdict. */
  datatype Effect = Effect(p: Parser, sends: seq<EmsMessage>, lines: seq<Line>, echo: Option<seq<byte>>,
                           verdict: Verdict)

  datatype RecordKind = ErrorRecord | ScheduleEntry

  function RecordSize(kind: RecordKind): nat {
    if kind == ErrorRecord then 12 else 2
  }

  /** Records that print as the empty string: no error stored, switching time unset. */
  predicate EmptyRecord(kind: RecordKind, record: seq<byte>)
    requires |record| == RecordSize(kind)
  {
    if kind == ErrorRecord then record[0] == 0 else record[1] >= 0x90
  }

  predicate IsOpmodeType(t: byte) { t in {0x3d, 0x47, 0x51, 0x5b} }

  predicate IsStatusType(t: byte) { t in {0x3e, 0x48, 0x52, 0x5c} }

  predicate IsScheduleType(t: byte) { t in {0x3f, 0x42, 0x49, 0x4c, 0x53, 0x56, 0x5d, 0x60} }

  predicate IsErrorType(t: byte) { 0x10 <= t <= 0x13 }

  function ByteAt(s: seq<byte>, i: nat): Option<byte> {
    if i < |s| then Some(s[i]) else None
  }

  // ---- Sending ----

  function SendCommand(p: Parser, dest: byte, typ: byte, offset: byte, data: seq<byte>,
                       expectResponse: bool): Effect {
    var msg := Outgoing(dest, typ, offset, data, expectResponse);
    Effect(p.(active := Some(msg), retriesLeft := MAX_REQUEST_RETRIES), [msg], [], None, Undecided)
  }

  /** Whether continueRequest asks for more. */
  predicate NeedsMore(p: Parser) {
    |p.response| < p.reqLength
  }

  function ContinueRequest(p: Parser): Effect {
    if !NeedsMore(p) then Effect(p, [], [], None, Undecided)
    else SendCommand(p, p.reqDest, p.reqType, (p.reqOffset + |p.response|) % 256,
                     [(p.reqLength - |p.response|) % 256], true)
  }

  function StartRequest(p: Parser, dest: byte, typ: byte, offset: nat, length: nat,
                        newRequest: bool, raw: bool): Effect {
    ContinueRequest(p.(reqOffset := offset, reqLength := length, reqDest := dest, reqType := typ,
                       response := [], parsePosition := 0, outputRaw := raw, asked := length,
                       responseCounter := if newRequest then 0 else p.responseCounter))
  }

  // ---- Lists of records ----

  /** Result of working through whole records from `position`: lines, where it stopped and why. */
  datatype Loop = Loop(lines: seq<Line>, position: nat, counter: nat, stopped: bool)

  function RecordLoop(kind: RecordKind, prefix: string, buffer: seq<byte>, position: nat, counter: nat): Loop
    decreases |buffer| - position
  {
    var size := RecordSize(kind);
    if position + size > |buffer| then Loop([], position, counter, false)
    else
      var record := buffer[position..position + size];
      if EmptyRecord(kind, record) then Loop([], position + size, counter + 1, true)
      else
        var rest := RecordLoop(kind, prefix, buffer, position + size, counter + 1);
        rest.(lines := [Record(prefix, counter + 1, record)] + rest.lines)
  }

  function LoopOverResponse(p: Parser, kind: RecordKind, prefix: string): Effect {
    var loop := RecordLoop(kind, prefix, p.response, p.parsePosition, p.responseCounter);
    var q := p.(parsePosition := loop.position, responseCounter := loop.counter);
    if loop.stopped || !NeedsMore(q) then Effect(q, [], loop.lines, None, Success)
    else ContinueRequest(q).(lines := loop.lines)
  }

  function ErrorPrefix(typ: byte): string {
    if typ == 0x10 then "L" else if typ == 0x11 then "B" else if typ == 0x12 then "S" else "D"
  }

  // ---- Contact texts ----

  /** A C string of at most 21 characters. */
  function UpToNul(s: seq<byte>): seq<byte> {
    if s == [] || s[0] == 0 then [] else [s[0]] + UpToNul(s[1..])
  }

  function ContactLines(s: seq<byte>): seq<Line> {
    if s == [] then []
    else if |s| <= 21 then [Contact(UpToNul(s))]
    else [Contact(UpToNul(s[..21]))] + ContactLines(s[21..])
  }

  // ---- Replies ----

  function Follow(p: Parser, dest: byte, typ: byte, offset: nat, length: nat, newRequest: bool): Effect {
    StartRequest(p, dest, typ, offset, length, newRequest, false)
  }

  function Done(p: Parser, lines: seq<Line>, verdict: Verdict): Effect {
    Effect(p, [], lines, None, verdict)
  }

  function HandleResponse(p: Parser): Effect {
    var t := p.reqType;
    if t == 0x02 then HandleVersion(p)
    else if IsErrorType(t) then HandleErrors(p)
    else if t == 0x15 then Follow(p, ADDRESS_UBA, 0x16, 0, 20, true)
    else if t == 0x16 then Done(p, [], Success)
    else if t == 0x1c then Done(p, [Maintenance(ByteAt(p.response, 0))], Success)
    else if IsOpmodeType(t) then
      if NeedsMore(p) then ContinueRequest(p) else Follow(p, ADDRESS_RC3X, t + 1, 0, 20, false)
    else if IsStatusType(t) then Follow(p, ADDRESS_RC3X, t + 1, 85, 2, false)
    else if IsScheduleType(t) then HandleSchedule(p)
    else if t == 0x38 || t == 0x39 then LoopOverResponse(p, ScheduleEntry, "")
    else if t == 0x33 then Follow(p, ADDRESS_UBA, 0x34, 0, 12, true)
    else if t == 0x34 then Follow(p, ADDRESS_RC3X, 0x37, 0, 12, true)
    else if t == 0x37 then Done(p, [], Success)
    else if t == 0xa4 then
      if NeedsMore(p) then ContinueRequest(p) else Done(p, ContactLines(p.response), Success)
    else if t == 0xa5 then Done(p, [], Success)
    else Done(p, [], Failure)
  }

  function HandleVersion(p: Parser): Effect {
    var known := p.reqDest in {ADDRESS_UBA, ADDRESS_BC10, ADDRESS_RC3X};
    var lines := if known then [Version(p.reqDest, ByteAt(p.response, 1), ByteAt(p.response, 2))] else [];
    if p.reqDest == ADDRESS_UBA then Follow(p, ADDRESS_BC10, 0x02, 0, 3, true).(lines := lines)
    else if p.reqDest == ADDRESS_BC10 then Follow(p, ADDRESS_RC3X, 0x02, 0, 3, true).(lines := lines)
    else Done(p, lines, Success)
  }

  function HandleErrors(p: Parser): Effect
    requires IsErrorType(p.reqType)
  {
    var e := LoopOverResponse(p, ErrorRecord, ErrorPrefix(p.reqType));
    if e.verdict == Success && p.reqType in {0x10, 0x12} then
      var count := if p.reqType == 0x10 then 5 else 4;
      Follow(e.p, p.reqDest, p.reqType + 1, 0, count * 12, false).(lines := e.lines)
    else e
  }

  function HandleSchedule(p: Parser): Effect {
    if p.reqOffset == 84 then Done(p, [ScheduleName(ByteAt(p.response, 0))], Success)
    else if p.reqOffset == 85 then Done(p, [], Success)
    else if p.reqOffset > 80 then
      if |p.response| < 6 then Done(p, [], Failure)
      else Done(p, [Holiday("begin", p.response[0..3]), Holiday("end", p.response[3..6])], Success)
    else LoopOverResponse(p, ScheduleEntry, "")
  }

  /** A reply to the outstanding request: right device, right type, and the offset that comes next. */
  predicate Matches(p: Parser, msg: EmsMessage) {
    msg.source == p.reqDest && msg.typ == p.reqType && msg.offset == |p.response| + p.reqOffset
  }

  /** The parser after the data of a reply has been taken in. */
  function Absorb(p: Parser, data: seq<byte>): Parser {
    if data == [] then p.(reqLength := |p.response|) else p.(response := p.response + data)
  }

  function HandleReply(p: Parser): Effect {
    if !p.outputRaw then HandleResponse(p)
    else if NeedsMore(p) then ContinueRequest(p)
    else Done(p, [RawData(p.response)], Success)
  }

  /** The message an acknowledged write would have been, had the device broadcast it. */
  function SimulatedResponse(request: EmsMessage): seq<byte> {
    EmsMessage(request.GetDestination(), 0, request.typ, request.offset, request.data).GetSendData(false)
  }

  function OnIncomingMessage(p: Parser, msg: EmsMessage): Effect {
    if p.active.None? then Done(p, [], Undecided)
    else if msg.typ == 0xff then
      if msg.offset != 0x04 then
        Effect(p.(active := None), [], [], Some(SimulatedResponse(p.active.value)), Success)
      else Done(p.(active := None), [], Failure)
    else if !Matches(p, msg) then Done(p, [], Undecided)
    else
      var e := HandleReply(Absorb(p, msg.data));
      if e.verdict == Success then e.(p := e.p.(active := None)) else e
  }

  /** The second component is true when the client is told ERRTIMEOUT. */
  function OnTimeout(p: Parser): (Effect, bool) {
    if p.active.None? then (Done(p, [], Undecided), false)
    else
      var q := p.(retriesLeft := if p.retriesLeft == 0 then 0xffff_ffff else p.retriesLeft - 1);
      if q.retriesLeft == 0 then (Done(q.(active := None), [], Undecided), true)
      else (Effect(q, [p.active.value], [], None, Undecided), false)
  }

  /** A request of which nothing has arrived yet and whose length is still the one asked for. */
  predicate FreshRequest(q: Parser) {
    q.response == [] && q.reqLength == q.asked
  }

  lemma LinesAssoc(a: seq<Line>, b: seq<Line>, c: seq<Line>)
    ensures a + (b + c) == (a + b) + c
  {
  }

  /** A list never fails, and sends nothing once it has decided. */
  lemma LoopVerdict(p: Parser, kind: RecordKind, prefix: string)
    ensures var e := LoopOverResponse(p, kind, prefix);
            && e.verdict != Failure && (e.verdict == Success ==> e.sends == []) && e.echo.None?
            && e.p.reqType == p.reqType && e.p.reqDest == p.reqDest
  {
    hide RecordLoop;
  }

  // ---- Commands that talk to the bus ----

  datatype Circuit = HK1 | HK2 | HK3 | HK4 {
    function Base(): byte {
      match this case HK1 => 61 case HK2 => 71 case HK3 => 81 case HK4 => 91
    }
  }

  datatype Command =
    | GetVersion | UbaRequestData | UbaGetErrors | UbaCheckMaintenance
    | RcRequestData | RcGetContactInfo | RcGetErrors
    | HkRequestData(hk: Circuit) | HkGetSchedule(hk: Circuit, second: bool) | HkGetActiveSchedule(hk: Circuit)
    | HkGetVacation(hk: Circuit) | HkGetHoliday(hk: Circuit)
    | WwRequestData | WwGetSchedule | ZirkGetSchedule
    | RawRead(dest: byte, typ: byte, offset: byte, len: byte)
    | WriteData(dest: byte, typ: byte, offset: byte, data: seq<byte>)

  /** Commands of an idle parser; a busy one refuses every command. */
  function Execute(p: Parser, cmd: Command): Effect {
    match cmd
    case GetVersion => Follow(p, ADDRESS_UBA, 0x02, 0, 3, true)
    case UbaRequestData => Follow(p, ADDRESS_UBA, 0x15, 0, 5, true)
    case UbaGetErrors => Follow(p, ADDRESS_UBA, 0x10, 0, 8 * 12, true)
    case UbaCheckMaintenance => Follow(p, ADDRESS_UBA, 0x1c, 5, 3, true)
    case RcRequestData => Follow(p, ADDRESS_RC3X, 0xa5, 0, 25, true)
    case RcGetContactInfo => Follow(p, ADDRESS_RC3X, 0xa4, 0, 42, true)
    case RcGetErrors => Follow(p, ADDRESS_RC3X, 0x12, 0, 4 * 12, true)
    case HkRequestData(hk) => Follow(p, ADDRESS_RC3X, hk.Base(), 0, 42, true)
    case HkGetSchedule(hk, second) =>
      Follow(p, ADDRESS_RC3X, hk.Base() + (if second then 5 else 2), 0, 42 * 2, true)
    case HkGetActiveSchedule(hk) => Follow(p, ADDRESS_RC3X, hk.Base() + 2, 84, 1, true)
    case HkGetVacation(hk) => Follow(p, ADDRESS_RC3X, hk.Base() + 2, 87, 2 * 3, true)
    case HkGetHoliday(hk) => Follow(p, ADDRESS_RC3X, hk.Base() + 2, 93, 2 * 3, true)
    case WwRequestData => Follow(p, ADDRESS_UBA, 0x33, 0, 10, true)
    case WwGetSchedule => Follow(p, ADDRESS_RC3X, 0x38, 0, 42 * 2, true)
    case ZirkGetSchedule => Follow(p, ADDRESS_RC3X, 0x39, 0, 42 * 2, true)
    case RawRead(dest, typ, offset, len) => StartRequest(p, dest, typ, offset, len, true, true)
    case WriteData(dest, typ, offset, data) => SendCommand(p, dest, typ, offset, data, false)
  }

  function Parse(p: Parser, cmd: Command): Effect {
    if p.active.Some? then Done(p, [], Undecided) else Execute(p, cmd)
  }
}
