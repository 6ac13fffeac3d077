/** The scheduler and the command parser as the objects they are in collector/CommandScheduler.cpp and
    collector/ApiCommandParser.cpp: they call each other and update themselves in place. Every method is
    proved to do to the abstract states what the functions of Scheduler, Requests and System say. */
module Commands {
  import opened Bytes
  import opened Wrappers
  import opened Messages
  import S = Scheduler
  import R = Requests
  import Y = System
  import W = WriteThrough

  /** The open connections of collector/CommandHandler.h, by number. */
  class ConnectionSet {
    var parsers: seq<ApiCommandParser>

    constructor ()
      ensures parsers == []
    {
      parsers := [];
    }
  }

  class EmsCommandSender {
    ghost const connections: ConnectionSet
    var currentClient: ApiCommandParser?
    var pending: seq<(ApiCommandParser, EmsMessage)>
    var lastCommTimes: map<byte, int>
    var sendTimer: Option<S.Armed>
    var cancelledSends: seq<EmsMessage>
    var responseTimeout: Option<int>
    var wire: seq<S.Sent>
    ghost var currentMessage: EmsMessage
    ghost var submitted: seq<EmsMessage>

    /** Whoever is served or waits is an open connection of this sender. */
    ghost predicate Valid()
      reads this, connections
    {
      && (currentClient != null ==> Serves(currentClient))
      && (forall i | 0 <= i < |pending| :: Serves(pending[i].0))
    }

    ghost predicate Serves(client: ApiCommandParser)
      reads connections
    {
      client.sender == this && client.id < |connections.parsers| && connections.parsers[client.id] == client
    }

    ghost function State(): S.Sender
      reads this
    {
      S.Sender(
        if currentClient == null then None else Some(S.Entry(currentClient.id, currentMessage)),
        seq(|pending|, i requires 0 <= i < |pending| reads this => S.Entry(pending[i].0.id, pending[i].1)),
        lastCommTimes, sendTimer, cancelledSends, responseTimeout, submitted, wire)
    }

    constructor (ghost connections: ConnectionSet)
      ensures this.connections == connections && Valid() && State() == S.IDLE
    {
      this.connections := connections;
      currentClient, pending, lastCommTimes, sendTimer := null, [], map[], None;
      cancelledSends, responseTimeout, wire, submitted := [], None, [], [];
      currentMessage := EmsMessage(0, 0, 0, 0, []);
    }

    /** A message for the PC arrived; `next` is a further command the current client has waiting. */
    method HandlePcMessage(message: EmsMessage, next: Option<R.Command>, now: int)
      requires Valid()
      modifies this, if currentClient == null then {} else {currentClient}
      ensures Valid()
      ensures old(currentClient) == null ==>
                State() == Y.SenderStep(old(State()), Y.PcMessage(message, next, now), 0, [], [])
      ensures old(currentClient) != null ==>
                var client, e := old(currentClient), Y.PcMessage(message, next, now);
                var (f, _, g) := Y.React(old(currentClient.State()), e);
                && State() == Y.SenderStep(old(State()), e, client.id, f.sends, g.sends)
                && client.State() == g.p
                && client.output == old(currentClient.output) + f.lines + g.lines
                && client.echoed == old(currentClient.echoed) + Echoes(f) + Echoes(g)
    {
      hide Y.React, S.ContinueWithNextRequest;
      ghost var before := State();
      lastCommTimes := lastCommTimes[message.source := now];
      responseTimeout := None;
      assert State() == S.NoteReply(before, message.source, now);
      if currentClient != null {
        currentClient.ClientMessage(message, next, now);
      } else {
        SendsNothing(State(), now);
      }
      ContinueWithNextRequest(now);
    }

    /** The response timeout expired. */
    method HandleResponseTimeout(next: Option<R.Command>, now: int)
      requires Valid()
      modifies this, if currentClient == null then {} else {currentClient}
      ensures Valid()
      ensures old(currentClient) == null ==>
                State() == Y.SenderStep(old(State()), Y.Timeout(next, now), 0, [], [])
      ensures old(currentClient) != null ==>
                var client, e := old(currentClient), Y.Timeout(next, now);
                var (f, _, g) := Y.React(old(currentClient.State()), e);
                && State() == Y.SenderStep(old(State()), e, client.id, f.sends, g.sends)
                && client.State() == g.p
                && client.output == old(currentClient.output) + f.lines + g.lines
                && client.echoed == old(currentClient.echoed) + Echoes(f) + Echoes(g)
    {
      hide Y.React, S.ContinueWithNextRequest;
      ghost var before := State();
      responseTimeout := None;
      assert State() == before.(deadline := None);
      if currentClient != null {
        currentClient.ClientTimeout(next, now);
      } else {
        SendsNothing(State(), now);
      }
      ContinueWithNextRequest(now);
    }

    method SendMessage(client: ApiCommandParser, message: EmsMessage, now: int)
      requires Valid() && Serves(client)
      modifies this
      ensures Valid() && State() == S.Submit(old(State()), client.id, message, now)
    {
      hide S.ContinueWithNextRequest;
      ghost var before := State();
      var wasIdle := currentClient == null;
      pending := pending + [(client, message)];
      submitted := submitted + [message];
      assert State() == before.(pending := before.pending + [S.Entry(client.id, message)],
                                submitted := before.submitted + [message]);
      if wasIdle {
        ContinueWithNextRequest(now);
      }
    }

    method ContinueWithNextRequest(now: int)
      requires Valid()
      modifies this
      ensures Valid() && State() == S.ContinueWithNextRequest(old(State()), now)
    {
      hide S.Dispatch;
      ghost var before := State();
      if pending == [] {
        currentClient := null;
        assert State() == before.(current := None);
        return;
      }
      var item := pending[0];
      currentClient := item.0;
      currentMessage := item.1;
      pending := pending[1..];
      assert State() == before.(current := Some(before.pending[0]), pending := before.pending[1..]);
      Dispatch(item.1, now);
    }

    /** The private sendMessage. */
    method Dispatch(message: EmsMessage, now: int)
      requires Valid()
      modifies `lastCommTimes, `sendTimer, `cancelledSends, `responseTimeout, `wire
      ensures State() == S.Dispatch(old(State()), message, now)
    {
      var device := message.GetDestination();
      if device in lastCommTimes && (now - lastCommTimes[device]) / 1000 <= 100 {
        // expires_at cancels a wait that is still pending
        if sendTimer.Some? {
          cancelledSends := cancelledSends + [sendTimer.value.msg];
        }
        sendTimer := Some(S.Armed(message, lastCommTimes[device] + S.MIN_DISTANCE));
      } else {
        DoSendMessage(message, now);
      }
    }

    method DoSendMessage(message: EmsMessage, now: int)
      modifies `lastCommTimes, `responseTimeout, `wire
      ensures State() == S.Transmit(old(State()), message, now)
    {
      var device := message.GetDestination();
      wire := wire + [S.Sent(message, now)];
      responseTimeout := Some(now + S.REQUEST_TIMEOUT);
      lastCommTimes := lastCommTimes[device := now];
    }

    method HandleSendTimer(now: int)
      requires Valid() && sendTimer.Some?
      modifies this
      ensures Valid() && State() == S.FireSend(old(State()), now)
    {
      var message := sendTimer.value.msg;
      sendTimer := None;
      DoSendMessage(message, now);
    }

    method HandleCancelledSend(now: int)
      requires Valid() && cancelledSends != []
      modifies this
      ensures Valid() && State() == S.FireCancelled(old(State()), now)
    {
      var message := cancelledSends[0];
      cancelledSends := cancelledSends[1..];
      DoSendMessage(message, now);
    }
  }

  lemma SendsNothing(s: S.Sender, now: int)
    ensures Y.Respond(s, 0, [], [], now) == S.ContinueWithNextRequest(s, now)
  {
  }

  /** What an effect hands to the message handler. */
  function Echoes(e: R.Effect): seq<seq<byte>> {
    if e.echo.Some? then [e.echo.value] else []
  }

  class ApiCommandParser {
    const id: nat
    const sender: EmsCommandSender
    var activeRequest: Option<EmsMessage>
    var retriesLeft: nat
    var requestResponse: seq<byte>
    var requestOffset: nat
    var requestLength: nat
    var requestDestination: byte
    var requestType: byte
    var parsePosition: nat
    var responseCounter: nat
    var outputRawData: bool
    var output: seq<R.Line>
    var echoed: seq<seq<byte>>
    ghost var asked: nat

    ghost function State(): R.Parser
      reads this
    {
      R.Parser(activeRequest, retriesLeft, requestResponse, requestOffset, requestLength,
               requestDestination, requestType, parsePosition, responseCounter, outputRawData, asked)
    }

    ghost predicate Ready()
      reads sender, sender.connections
    {
      sender.Valid() && sender.Serves(this)
    }

    /** Everything an effect says has happened since the given states. */
    ghost predicate Did(s: S.Sender, lines: seq<R.Line>, echo: seq<seq<byte>>, e: R.Effect, now: int)
      reads this, sender, sender.connections
    {
      && sender.Valid() && sender.State() == S.SubmitAll(s, id, e.sends, now)
      && State() == e.p && output == lines + e.lines
      && echoed == echo + Echoes(e)
    }

    constructor (id: nat, sender: EmsCommandSender)
      ensures this.id == id && this.sender == sender
      ensures activeRequest.None? && R.FreshRequest(State()) && output == [] && echoed == []
    {
      this.id, this.sender := id, sender;
      activeRequest, requestResponse, output, echoed := None, [], [], [];
      responseCounter, parsePosition, outputRawData := 0, 0, false;
      new;
      asked := requestLength;
    }

    method SendActiveRequest(now: int)
      requires Ready() && activeRequest.Some?
      modifies sender
      ensures sender.Valid()
      ensures sender.State() == S.SubmitAll(old(sender.State()), id, [activeRequest.value], now)
    {
      hide S.Submit;
      Y.SubmitAllOne(sender.State(), id, [activeRequest.value], now);
      sender.SendMessage(this, activeRequest.value, now);
    }

    method SendCommand(dest: byte, typ: byte, offset: byte, data: seq<byte>, expectResponse: bool, now: int)
      requires Ready()
      modifies this, sender
      ensures Did(old(sender.State()), old(output), old(echoed),
                  R.SendCommand(old(State()), dest, typ, offset, data, expectResponse), now)
    {
      hide S.SubmitAll;
      retriesLeft := R.MAX_REQUEST_RETRIES;
      activeRequest := Some(Outgoing(dest, typ, offset, data, expectResponse));
      SendActiveRequest(now);
    }

    method ContinueRequest(now: int) returns (again: bool)
      requires Ready()
      modifies this, sender
      ensures again == R.NeedsMore(old(State()))
      ensures Did(old(sender.State()), old(output), old(echoed), R.ContinueRequest(old(State())), now)
    {
      hide S.Submit, R.SendCommand;
      var alreadyReceived := |requestResponse|;
      if alreadyReceived >= requestLength {
        return false;
      }
      var offset := (requestOffset + alreadyReceived) % 256;
      var remaining := (requestLength - alreadyReceived) % 256;
      SendCommand(requestDestination, requestType, offset, [remaining], true, now);
      return true;
    }

    /** The fields of a request that has just begun. */
    method BeginRequest(dest: byte, typ: byte, offset: nat, length: nat, newRequest: bool, raw: bool)
      modifies this
      ensures activeRequest == old(activeRequest) && output == old(output) && echoed == old(echoed)
      ensures State() == old(State()).(
                reqOffset := offset, reqLength := length, reqDest := dest, reqType := typ,
                response := [], parsePosition := 0, outputRaw := raw, asked := length,
                responseCounter := if newRequest then 0 else old(State()).responseCounter)
    {
      requestOffset := offset;
      requestLength := length;
      requestDestination := dest;
      requestType := typ;
      requestResponse := [];
      parsePosition := 0;
      outputRawData := raw;
      if newRequest {
        responseCounter := 0;
      }
      asked := length;
    }

    method StartRequest(dest: byte, typ: byte, offset: nat, length: nat, newRequest: bool, raw: bool, now: int)
      requires Ready()
      modifies this, sender
      ensures Did(old(sender.State()), old(output), old(echoed),
                  R.StartRequest(old(State()), dest, typ, offset, length, newRequest, raw), now)
    {
      hide R.ContinueRequest, S.SubmitAll, R.NeedsMore, S.Submit, EmsCommandSender.State, EmsCommandSender.Valid,
           EmsCommandSender.Serves, State;
      BeginRequest(dest, typ, offset, length, newRequest, raw);
      var again := ContinueRequest(now);
    }

    method LoopOverResponse(kind: R.RecordKind, prefix: string, now: int) returns (verdict: R.Verdict)
      requires Ready()
      modifies this, sender
      ensures Did(old(sender.State()), old(output), old(echoed),
                  R.LoopOverResponse(old(State()), kind, prefix), now)
      ensures verdict == R.LoopOverResponse(old(State()), kind, prefix).verdict
    {
      hide R.ContinueRequest, S.SubmitAll, R.RecordLoop;
      NothingSent(sender.State(), id, now);
      var stopped := OutputRecords(kind, prefix);
      if stopped {
        return R.Success;
      }
      ContinueVerdict(State());
      var again := ContinueRequest(now);
      verdict := if again then R.Undecided else R.Success;
    }

    /** The loop of loopOverResponse. */
    method OutputRecords(kind: R.RecordKind, prefix: string) returns (stopped: bool)
      modifies `parsePosition, `responseCounter, `output
      ensures var loop := R.RecordLoop(kind, prefix, requestResponse, old(parsePosition), old(responseCounter));
              && output == old(output) + loop.lines && stopped == loop.stopped
              && parsePosition == loop.position && responseCounter == loop.counter
    {
      var msgSize := R.RecordSize(kind);
      ghost var lines, loop := output, R.RecordLoop(kind, prefix, requestResponse, parsePosition, responseCounter);
      while parsePosition + msgSize <= |requestResponse|
        invariant var rest := R.RecordLoop(kind, prefix, requestResponse, parsePosition, responseCounter);
                  && output + rest.lines == lines + loop.lines && rest.stopped == loop.stopped
                  && rest.position == loop.position && rest.counter == loop.counter
        decreases |requestResponse| - parsePosition
      {
        var record := requestResponse[parsePosition..parsePosition + msgSize];
        parsePosition := parsePosition + msgSize;
        responseCounter := responseCounter + 1;
        if R.EmptyRecord(kind, record) {
          assert output + [] == output;
          return true;
        }
        ghost var rest := R.RecordLoop(kind, prefix, requestResponse, parsePosition, responseCounter);
        R.LinesAssoc(output, [R.Record(prefix, responseCounter, record)], rest.lines);
        output := output + [R.Record(prefix, responseCounter, record)];
      }
      assert output + [] == output;
      return false;
    }

    method HandleVersion(now: int) returns (verdict: R.Verdict)
      requires Ready()
      modifies this, sender
      ensures Did(old(sender.State()), old(output), old(echoed), R.HandleVersion(old(State())), now)
      ensures verdict == R.HandleVersion(old(State())).verdict
    {
      hide R.StartRequest, S.SubmitAll;
      NothingSent(sender.State(), id, now);
      StartVerdict(State(), ADDRESS_BC10, 0x02, 0, 3, true, false);
      StartVerdict(State(), ADDRESS_RC3X, 0x02, 0, 3, true, false);
      if requestDestination in {ADDRESS_UBA, ADDRESS_BC10, ADDRESS_RC3X} {
        output := output + [R.Version(requestDestination, R.ByteAt(requestResponse, 1), R.ByteAt(requestResponse, 2))];
      }
      if requestDestination == ADDRESS_UBA {
        StartRequest(ADDRESS_BC10, 0x02, 0, 3, true, false, now);
      } else if requestDestination == ADDRESS_BC10 {
        StartRequest(ADDRESS_RC3X, 0x02, 0, 3, true, false, now);
      } else {
        return R.Success;
      }
      verdict := R.Undecided;
    }

    method HandleErrors(now: int) returns (verdict: R.Verdict)
      requires Ready() && R.IsErrorType(requestType)
      modifies this, sender
      ensures Did(old(sender.State()), old(output), old(echoed), R.HandleErrors(old(State())), now)
      ensures verdict == R.HandleErrors(old(State())).verdict
    {
      hide R.StartRequest, S.SubmitAll, R.LoopOverResponse;
      NothingSent(sender.State(), id, now);
      R.LoopVerdict(State(), R.ErrorRecord, R.ErrorPrefix(requestType));
      verdict := LoopOverResponse(R.ErrorRecord, R.ErrorPrefix(requestType), now);
      if verdict == R.Success && (requestType == 0x10 || requestType == 0x12) {
        var count := if requestType == 0x10 then 5 else 4;
        StartVerdict(State(), requestDestination, requestType + 1, 0, count * 12, false, false);
        StartRequest(requestDestination, requestType + 1, 0, count * 12, false, false, now);
        verdict := R.Undecided;
      }
    }

    method HandleSchedule(now: int) returns (verdict: R.Verdict)
      requires Ready()
      modifies this, sender
      ensures Did(old(sender.State()), old(output), old(echoed), R.HandleSchedule(old(State())), now)
      ensures verdict == R.HandleSchedule(old(State())).verdict
    {
      hide R.LoopOverResponse, S.SubmitAll;
      NothingSent(sender.State(), id, now);
      if requestOffset == 84 {
        output := output + [R.ScheduleName(R.ByteAt(requestResponse, 0))];
        verdict := R.Success;
      } else if requestOffset == 85 {
        verdict := R.Success;
      } else if requestOffset > 80 {
        if |requestResponse| < 6 {
          return R.Failure;
        }
        output := output + [R.Holiday("begin", requestResponse[0..3])];
        output := output + [R.Holiday("end", requestResponse[3..6])];
        verdict := R.Success;
      } else {
        verdict := LoopOverResponse(R.ScheduleEntry, "", now);
      }
    }

    method OutputContact()
      modifies `output
      ensures output == old(output) + R.ContactLines(requestResponse)
    {
      var i := 0;
      ghost var lines := output;
      assert requestResponse[0..] == requestResponse;
      while i < |requestResponse|
        invariant i <= |requestResponse|
        invariant output + R.ContactLines(requestResponse[i..]) == lines + R.ContactLines(requestResponse)
      {
        var len := if |requestResponse| - i < 21 then |requestResponse| - i else 21;
        R.LinesAssoc(output, [R.Contact(R.UpToNul(requestResponse[i..i + len]))],
                     R.ContactLines(requestResponse[i + len..]));
        ContactUnfold(requestResponse[i..], len);
        assert requestResponse[i..][..len] == requestResponse[i..i + len];
        assert requestResponse[i..][len..] == requestResponse[i + len..];
        output := output + [R.Contact(R.UpToNul(requestResponse[i..i + len]))];
        i := i + len;
      }
    }

    method HandleResponse(now: int) returns (verdict: R.Verdict)
      requires Ready()
      modifies this, sender
      ensures Did(old(sender.State()), old(output), old(echoed), R.HandleResponse(old(State())), now)
      ensures verdict == R.HandleResponse(old(State())).verdict
    {
      hide R.StartRequest, R.ContinueRequest, R.LoopOverResponse, R.HandleVersion, R.HandleErrors,
           R.HandleSchedule, S.SubmitAll;
      ResponseVerdicts(State());
      NothingSent(sender.State(), id, now);
      var t := requestType;
      verdict := R.Undecided;
      if t == 0x02 {
        verdict := HandleVersion(now);
      } else if R.IsErrorType(t) {
        verdict := HandleErrors(now);
      } else if t == 0x15 {
        StartRequest(ADDRESS_UBA, 0x16, 0, 20, true, false, now);
      } else if t == 0x16 {
        verdict := R.Success;
      } else if t == 0x1c {
        output := output + [R.Maintenance(R.ByteAt(requestResponse, 0))];
        verdict := R.Success;
      } else if R.IsOpmodeType(t) {
        var again := ContinueRequest(now);
        if !again {
          StartRequest(ADDRESS_RC3X, t + 1, 0, 20, false, false, now);
        }
      } else if R.IsStatusType(t) {
        StartRequest(ADDRESS_RC3X, t + 1, 85, 2, false, false, now);
      } else if R.IsScheduleType(t) {
        verdict := HandleSchedule(now);
      } else if t == 0x38 || t == 0x39 {
        verdict := LoopOverResponse(R.ScheduleEntry, "", now);
      } else if t == 0x33 {
        StartRequest(ADDRESS_UBA, 0x34, 0, 12, true, false, now);
      } else if t == 0x34 {
        StartRequest(ADDRESS_RC3X, 0x37, 0, 12, true, false, now);
      } else if t == 0x37 {
        verdict := R.Success;
      } else if t == 0xa4 {
        var again := ContinueRequest(now);
        if !again {
          OutputContact();
          verdict := R.Success;
        }
      } else if t == 0xa5 {
        verdict := R.Success;
      } else {
        verdict := R.Failure;
      }
    }

    method OnIncomingMessage(message: EmsMessage, now: int) returns (verdict: R.Verdict)
      requires Ready()
      modifies this, sender
      ensures Did(old(sender.State()), old(output), old(echoed), R.OnIncomingMessage(old(State()), message), now)
      ensures verdict == R.OnIncomingMessage(old(State()), message).verdict
    {
      hide R.HandleResponse, R.ContinueRequest, S.SubmitAll, EmsCommandSender.State, EmsCommandSender.Valid,
           EmsCommandSender.Serves;
      NothingSent(sender.State(), id, now);
      if activeRequest.None? {
        return R.Undecided;
      }
      if message.typ == 0xff {
        var success := message.offset != 0x04;
        if success {
          echoed := echoed + [R.SimulatedResponse(activeRequest.value)];
        }
        activeRequest := None;
        return if success then R.Success else R.Failure;
      }
      if message.source != requestDestination || message.typ != requestType
         || message.offset != |requestResponse| + requestOffset {
        return R.Undecided;
      }
      ghost var p := State();
      if message.data == [] {
        requestLength := |requestResponse|;
      } else {
        requestResponse := requestResponse + message.data;
      }
      assert State() == R.Absorb(p, message.data);
      if outputRawData {
        ContinueVerdict(State());
        var again := ContinueRequest(now);
        if again {
          verdict := R.Undecided;
        } else {
          output := output + [R.RawData(requestResponse)];
          verdict := R.Success;
        }
      } else {
        verdict := HandleResponse(now);
      }
      if verdict == R.Success {
        activeRequest := None;
      }
    }

    method OnTimeout(now: int) returns (gaveUp: bool)
      requires Ready()
      modifies this, sender
      ensures Did(old(sender.State()), old(output), old(echoed), R.OnTimeout(old(State())).0, now)
      ensures gaveUp == R.OnTimeout(old(State())).1
    {
      hide S.SubmitAll;
      NothingSent(sender.State(), id, now);
      if activeRequest.None? {
        return false;
      }
      retriesLeft := if retriesLeft == 0 then 0xffff_ffff else retriesLeft - 1;
      if retriesLeft == 0 {
        activeRequest := None;
        return true;
      }
      SendActiveRequest(now);
      return false;
    }

    /** A command that was recognised; the command texts themselves are not part of this model. */
    method Parse(cmd: R.Command, now: int)
      requires Ready()
      modifies this, sender
      ensures Did(old(sender.State()), old(output), old(echoed), R.Parse(old(State()), cmd), now)
    {
      hide R.StartRequest, S.SubmitAll, EmsCommandSender.State, EmsCommandSender.Valid, EmsCommandSender.Serves;
      NothingSent(sender.State(), id, now);
      if activeRequest.Some? {
        return;
      }
      match cmd {
        case GetVersion => StartRequest(ADDRESS_UBA, 0x02, 0, 3, true, false, now);
        case UbaRequestData => StartRequest(ADDRESS_UBA, 0x15, 0, 5, true, false, now);
        case UbaGetErrors => StartRequest(ADDRESS_UBA, 0x10, 0, 8 * 12, true, false, now);
        case UbaCheckMaintenance => StartRequest(ADDRESS_UBA, 0x1c, 5, 3, true, false, now);
        case RcRequestData => StartRequest(ADDRESS_RC3X, 0xa5, 0, 25, true, false, now);
        case RcGetContactInfo => StartRequest(ADDRESS_RC3X, 0xa4, 0, 42, true, false, now);
        case RcGetErrors => StartRequest(ADDRESS_RC3X, 0x12, 0, 4 * 12, true, false, now);
        case HkRequestData(hk) => StartRequest(ADDRESS_RC3X, hk.Base(), 0, 42, true, false, now);
        case HkGetSchedule(hk, second) =>
          StartRequest(ADDRESS_RC3X, hk.Base() + (if second then 5 else 2), 0, 42 * 2, true, false, now);
        case HkGetActiveSchedule(hk) => StartRequest(ADDRESS_RC3X, hk.Base() + 2, 84, 1, true, false, now);
        case HkGetVacation(hk) => StartRequest(ADDRESS_RC3X, hk.Base() + 2, 87, 2 * 3, true, false, now);
        case HkGetHoliday(hk) => StartRequest(ADDRESS_RC3X, hk.Base() + 2, 93, 2 * 3, true, false, now);
        case WwRequestData => StartRequest(ADDRESS_UBA, 0x33, 0, 10, true, false, now);
        case WwGetSchedule => StartRequest(ADDRESS_RC3X, 0x38, 0, 42 * 2, true, false, now);
        case ZirkGetSchedule => StartRequest(ADDRESS_RC3X, 0x39, 0, 42 * 2, true, false, now);
        case RawRead(dest, typ, offset, len) => StartRequest(dest, typ, offset, len, true, true, now);
        case WriteData(dest, typ, offset, data) => SendCommand(dest, typ, offset, data, false, now);
      }
    }

    /** A setting given as one number; false means ERRARGS, and nothing is sent. */
    method HandleSingleByteValue(value: real, dest: byte, typ: byte, offset: byte, multiplier: int,
                                 min: int, max: int, now: int) returns (ok: bool)
      requires Ready()
      modifies this, sender
      ensures sender.Valid() && ok == W.Accepted(value, multiplier, min, max).Some?
      ensures ok ==>
                var v := W.Accepted(value, multiplier, min, max).value;
                Did(old(sender.State()), old(output), old(echoed),
                    R.SendCommand(old(State()), dest, typ, offset, [W.Int8(v)], false), now)
      ensures !ok ==> State() == old(State()) && sender.State() == old(sender.State()) && output == old(output)
    {
      var valueInt := W.Truncate(multiplier as real * value);
      if valueInt < min * multiplier || valueInt > max * multiplier {
        return false;
      }
      var valueByte := W.Int8(valueInt);
      SendCommand(dest, typ, offset, [valueByte], false, now);
      return true;
    }

    /** The client around the parser: tells its user the result, and may add its next command. */
    method ClientMessage(message: EmsMessage, next: Option<R.Command>, now: int)
      requires Ready()
      modifies this, sender
      ensures var (f, _, g) := Y.React(old(State()), Y.PcMessage(message, next, now));
              Concluded(old(sender.State()), old(output), old(echoed), f, g, now)
    {
      hide R.OnIncomingMessage, R.Parse, S.SubmitAll;
      var verdict := OnIncomingMessage(message, now);
      NothingSent(sender.State(), id, now);
      if verdict != R.Undecided && next.Some? {
        Parse(next.value, now);
      }
    }

    method ClientTimeout(next: Option<R.Command>, now: int)
      requires Ready()
      modifies this, sender
      ensures var (f, _, g) := Y.React(old(State()), Y.Timeout(next, now));
              Concluded(old(sender.State()), old(output), old(echoed), f, g, now)
    {
      hide R.OnTimeout, R.Parse, S.SubmitAll;
      var gaveUp := OnTimeout(now);
      NothingSent(sender.State(), id, now);
      if gaveUp && next.Some? {
        Parse(next.value, now);
      }
    }

    /** Two effects, one after the other. */
    ghost predicate Concluded(s: S.Sender, lines: seq<R.Line>, echo: seq<seq<byte>>, f: R.Effect, g: R.Effect,
                              now: int)
      reads this, sender, sender.connections
    {
      && sender.Valid()
      && sender.State() == S.SubmitAll(S.SubmitAll(s, id, f.sends, now), id, g.sends, now)
      && State() == g.p && output == lines + f.lines + g.lines && echoed == echo + Echoes(f) + Echoes(g)
    }
  }

  lemma ContactUnfold(s: seq<byte>, len: nat)
    requires s != [] && len == if |s| < 21 then |s| else 21
    ensures R.ContactLines(s) == [R.Contact(R.UpToNul(s[..len]))] + R.ContactLines(s[len..])
  {
    if |s| <= 21 {
      assert s[..len] == s && s[len..] == [];
    }
  }

  lemma NothingSent(s: S.Sender, client: nat, now: int)
    ensures S.SubmitAll(s, client, [], now) == s
  {
  }

  lemma ContinueVerdict(p: R.Parser)
    ensures R.ContinueRequest(p).verdict == R.Undecided && R.ContinueRequest(p).lines == []
    ensures R.ContinueRequest(p).echo.None?
    ensures !R.NeedsMore(p) ==> R.ContinueRequest(p) == R.Done(p, [], R.Undecided)
  {
  }

  lemma StartVerdict(p: R.Parser, dest: byte, typ: byte, offset: nat, length: nat, newRequest: bool, raw: bool)
    ensures var e := R.StartRequest(p, dest, typ, offset, length, newRequest, raw);
            e.verdict == R.Undecided && e.lines == [] && e.echo.None?
  {
  }

  /** Requests never decide anything by themselves. */
  lemma ResponseVerdicts(p: R.Parser)
    ensures forall dest, typ, offset, length, newRequest ::
              R.StartRequest(p, dest, typ, offset, length, newRequest, false).verdict == R.Undecided
    ensures R.ContinueRequest(p).verdict == R.Undecided && R.ContinueRequest(p).lines == []
    ensures !R.NeedsMore(p) ==> R.ContinueRequest(p) == R.Done(p, [], R.Undecided)
  {
    ContinueVerdict(p);
    forall dest, typ, offset, length, newRequest
      ensures R.StartRequest(p, dest, typ, offset, length, newRequest, false).verdict == R.Undecided
    {
      StartVerdict(p, dest, typ, offset, length, newRequest, false);
    }
  }
}
