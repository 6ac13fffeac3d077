/** How many messages a command may send, and when a parser makes progress. */
module Progress {
  import opened Bytes
  import opened Wrappers
  import opened Messages
  import opened Requests

  /** Summed lengths of the requests that can still follow the current one. */
  function ChainRest(t: byte, dest: byte, raw: bool): nat {
    if raw then 0
    else if t == 0x02 then (if dest == ADDRESS_UBA then 6 else if dest == ADDRESS_BC10 then 3 else 0)
    else if t == 0x10 then 60
    else if t == 0x12 then 48
    else if t == 0x15 then 20
    else if IsOpmodeType(t) then 22
    else if IsStatusType(t) then 2
    else if t == 0x33 then 24
    else if t == 0x34 then 12
    else 0
  }

  /** Bytes of the current request not received yet. */
  function Remaining(p: Parser): nat {
    if NeedsMore(p) then p.reqLength - |p.response| else 0
  }

  /** A bound on the messages an active parser will send from now on: the retries it has left, and a
      full set of retries for every further byte it may have to ask for. */
  function Budget(p: Parser): nat {
    if p.active.None? then 0
    else (if p.retriesLeft == 0 then 0 else p.retriesLeft - 1)
         + 5 * (if Remaining(p) == 0 then 0 else Remaining(p) - 1)
         + 5 * ChainRest(p.reqType, p.reqDest, p.outputRaw)
  }

  /** An active parser has retries left. */
  predicate Counted(p: Parser) {
    p.active.Some? ==> 1 <= p.retriesLeft <= MAX_REQUEST_RETRIES
  }

  /** Sends of an effect fit into `before`, with the rest to spare. */
  predicate Pays(e: Effect, before: nat) {
    Counted(e.p) && |e.sends| + Budget(e.p) <= before
  }

  /** Undecided goes with exactly one message sent, a decision with none. */
  predicate SendsUntilDecided(e: Effect) {
    |e.sends| == (if e.verdict == Undecided then 1 else 0)
    && (|e.sends| == 1 ==> e.p.active == Some(e.sends[0]))
  }

  lemma ContinuePays(p: Parser)
    requires NeedsMore(p)
    ensures SendsUntilDecided(ContinueRequest(p))
    ensures Pays(ContinueRequest(p), 5 * Remaining(p) + 5 * ChainRest(p.reqType, p.reqDest, p.outputRaw))
  {
  }

  lemma FollowPays(p: Parser, dest: byte, typ: byte, offset: nat, length: nat, newRequest: bool, raw: bool)
    requires length > 0
    ensures var e := StartRequest(p, dest, typ, offset, length, newRequest, raw);
            && SendsUntilDecided(e) && Pays(e, 5 * length + 5 * ChainRest(typ, dest, raw))
            && 1 + Budget(e.p) == 5 * length + 5 * ChainRest(typ, dest, raw)
  {
  }

  lemma LoopPays(p: Parser, kind: RecordKind, prefix: string)
    requires Counted(p)
    ensures var e := LoopOverResponse(p, kind, prefix);
            && SendsUntilDecided(e)
            && (e.verdict == Undecided ==>
                  Pays(e, 5 * Remaining(p) + 5 * ChainRest(p.reqType, p.reqDest, p.outputRaw)))
            && e.verdict != Failure
            && e.p.reqType == p.reqType && e.p.reqDest == p.reqDest && Counted(e.p)
  {
  }

  /** Handling a reply, after its data was taken in, sends at most one message, exactly if nothing is
      decided, and what it may send later is paid for by the bytes received. */
  lemma ReplyPays(p: Parser)
    requires Counted(p) && p.active.Some?
    ensures var e := HandleReply(p);
            && SendsUntilDecided(e)
            && (e.verdict == Undecided ==>
                  Pays(e, 5 * Remaining(p) + 5 * ChainRest(p.reqType, p.reqDest, p.outputRaw)))
            && Counted(e.p)
  {
    if NeedsMore(p) {
      ContinuePays(p);
    }
    if !p.outputRaw {
      ResponsePays(p);
    }
  }

  lemma ResponsePays(p: Parser)
    requires Counted(p) && p.active.Some? && !p.outputRaw
    ensures var e := HandleResponse(p);
            && SendsUntilDecided(e)
            && (e.verdict == Undecided ==>
                  Pays(e, 5 * Remaining(p) + 5 * ChainRest(p.reqType, p.reqDest, false)))
            && Counted(e.p)
  {
    hide StartRequest, ContinueRequest, LoopOverResponse, HandleErrors, Budget;
    var t := p.reqType;
    if t == 0x02 {
      FollowPays(p, ADDRESS_BC10, 0x02, 0, 3, true, false);
      FollowPays(p, ADDRESS_RC3X, 0x02, 0, 3, true, false);
    } else if IsErrorType(t) {
      ErrorsPay(p);
    } else if t == 0x15 {
      FollowPays(p, ADDRESS_UBA, 0x16, 0, 20, true, false);
    } else if IsOpmodeType(t) {
      if NeedsMore(p) {
        ContinuePays(p);
      }
      FollowPays(p, ADDRESS_RC3X, t + 1, 0, 20, false, false);
    } else if IsStatusType(t) {
      FollowPays(p, ADDRESS_RC3X, t + 1, 85, 2, false, false);
    } else if IsScheduleType(t) || t == 0x38 || t == 0x39 {
      LoopPays(p, ScheduleEntry, "");
    } else if t == 0x33 {
      FollowPays(p, ADDRESS_UBA, 0x34, 0, 12, true, false);
    } else if t == 0x34 {
      FollowPays(p, ADDRESS_RC3X, 0x37, 0, 12, true, false);
    } else if t == 0xa4 && NeedsMore(p) {
      ContinuePays(p);
    }
  }

  lemma ErrorsPay(p: Parser)
    requires Counted(p) && IsErrorType(p.reqType) && !p.outputRaw
    ensures var e := HandleErrors(p);
            && SendsUntilDecided(e)
            && (e.verdict == Undecided ==>
                  Pays(e, 5 * Remaining(p) + 5 * ChainRest(p.reqType, p.reqDest, false)))
            && Counted(e.p)
  {
    hide StartRequest, LoopOverResponse, Budget;
    var prefix := ErrorPrefix(p.reqType);
    var l := LoopOverResponse(p, ErrorRecord, prefix);
    LoopPays(p, ErrorRecord, prefix);
    FollowPays(l.p, p.reqDest, p.reqType + 1, 0, if p.reqType == 0x10 then 60 else 48, false, false);
  }

  /** Whether the parser takes the message as news about its request. */
  predicate Relevant(p: Parser, msg: EmsMessage) {
    msg.typ == 0xff || Matches(p, msg)
  }

  /** Every relevant message decides, or is answered by one message that its bytes pay for; every other
      message changes nothing. */
  lemma MessagePays(p: Parser, msg: EmsMessage)
    requires Counted(p) && p.active.Some?
    ensures var e := OnIncomingMessage(p, msg);
            && Pays(e, Budget(p))
            && (Relevant(p, msg) ==> SendsUntilDecided(e))
            && (!Relevant(p, msg) ==> e == Done(p, [], Undecided))
            && (e.verdict == Success ==> e.p.active.None?)
  {
    if msg.typ != 0xff && Matches(p, msg) {
      var q := Absorb(p, msg.data);
      assert Remaining(q) <= (if Remaining(p) == 0 then 0 else Remaining(p) - 1);
      ReplyPays(q);
      var e := HandleReply(q);
      if e.verdict == Failure {
        FailureKeepsParser(q);
      }
    }
  }

  lemma FailureKeepsParser(p: Parser)
    ensures HandleReply(p).verdict == Failure ==> HandleReply(p).p == p
  {
    if IsErrorType(p.reqType) {
      LoopVerdict(p, ErrorRecord, ErrorPrefix(p.reqType));
    }
    LoopVerdict(p, ScheduleEntry, "");
  }

  /** A timeout repeats the active request, at the cost of one retry, or gives up. */
  lemma TimeoutPays(p: Parser)
    requires Counted(p) && p.active.Some?
    ensures var (e, gaveUp) := OnTimeout(p);
            && Pays(e, Budget(p))
            && (gaveUp ==> e.p.active.None? && e.sends == [])
            && (!gaveUp ==> e.sends == [p.active.value] && e.p.active == p.active)
  {
  }

  /** The parser after `n` timeouts in a row. */
  function Expire(p: Parser, n: nat): Parser
    decreases n
  {
    if n == 0 then p else Expire(OnTimeout(p).0.p, n - 1)
  }

  /** Without an answer, a request is sent once and then once per timeout until it has been sent five
      times; the timeout after that gives it up, not an earlier one. */
  lemma {:induction false} GivesUpExactly(p: Parser, n: nat)
    requires p.active.Some? && 1 <= n <= p.retriesLeft
    ensures n < p.retriesLeft ==> Expire(p, n) == p.(retriesLeft := p.retriesLeft - n)
    ensures n == p.retriesLeft ==> Expire(p, n).active.None?
    decreases n
  {
    if n > 1 {
      GivesUpExactly(OnTimeout(p).0.p, n - 1);
    }
  }

  /** Five transmissions for every byte asked for, over the whole chain. */
  function CommandBytes(cmd: Command): nat {
    match cmd
    case GetVersion => 3 + 3 + 3
    case UbaRequestData => 5 + 20
    case UbaGetErrors => 96 + 60
    case UbaCheckMaintenance => 3
    case RcRequestData => 25
    case RcGetContactInfo => 42
    case RcGetErrors => 48 + 48
    case HkRequestData(_) => 42 + 20 + 2
    case HkGetSchedule(_, _) => 84
    case HkGetActiveSchedule(_) => 1
    case HkGetVacation(_) => 6
    case HkGetHoliday(_) => 6
    case WwRequestData => 10 + 12 + 12
    case WwGetSchedule => 84
    case ZirkGetSchedule => 84
    case RawRead(_, _, _, len) => len
    case WriteData(_, _, _, _) => 1
  }

  /** What replies to an unfinished read can still set off. */
  function StaleBudget(p: Parser): nat {
    5 * (if Remaining(p) == 0 then 0 else Remaining(p) - 1) + 5 * ChainRest(p.reqType, p.reqDest, p.outputRaw)
  }

  /** A command sends its first message and starts with a budget that allows five times its summed
      length; a write starts with five plus what replies to an older, unfinished read can still set off. */
  lemma CommandPays(p: Parser, cmd: Command)
    requires p.active.None?
    ensures var e := Parse(p, cmd);
            && Counted(e.p)
            && (CommandBytes(cmd) > 0 ==> |e.sends| == 1 && e.p.active == Some(e.sends[0]))
            && (CommandBytes(cmd) == 0 ==> e.sends == [] && e.p.active.None?)
            && (!cmd.WriteData? ==> |e.sends| + Budget(e.p) == 5 * CommandBytes(cmd))
            && (cmd.WriteData? ==> |e.sends| + Budget(e.p) == 5 + StaleBudget(p))
  {
  }

  /** A holiday or vacation answer that is too short, or a type no command asks for. */
  predicate Unusable(p: Parser, data: seq<byte>) {
    !p.outputRaw
    && ((IsScheduleType(p.reqType) && p.reqOffset > 80 && p.reqOffset !in {84, 85}
         && |p.response| + |data| < 6)
        || !KnownType(p.reqType))
  }

  /** When a reply makes the client hear FAIL without the request being dropped. */
  lemma FailsExactly(p: Parser, msg: EmsMessage)
    requires p.active.Some? && msg.typ != 0xff
    ensures OnIncomingMessage(p, msg).verdict == Failure <==> Matches(p, msg) && Unusable(p, msg.data)
  {
    hide RecordLoop, LoopOverResponse;
    var q := Absorb(p, msg.data);
    if IsErrorType(q.reqType) {
      LoopVerdict(q, ErrorRecord, ErrorPrefix(q.reqType));
    }
    LoopVerdict(q, ScheduleEntry, "");
  }

  /** When the command in flight ends with OK and its message echoed to the cache: exactly on an
      acknowledgement that is no refusal. Any other OK is the end of a read: a reply that fits what was
      last asked for. */
  lemma EchoedExactly(p: Parser, msg: EmsMessage)
    requires p.active.Some?
    ensures var e := OnIncomingMessage(p, msg);
            && (e.verdict == Success && e.echo.Some? <==> msg.typ == 0xff && msg.offset != 0x04)
            && (e.verdict == Success && e.echo.None? ==> msg.typ != 0xff && Matches(p, msg))
            && (e.echo.Some? ==> e.echo.value == SimulatedResponse(p.active.value))
  {
    hide RecordLoop, LoopOverResponse;
    if msg.typ != 0xff && Matches(p, msg) {
      ReplyEchoesNothing(Absorb(p, msg.data));
    }
  }

  lemma ReplyEchoesNothing(p: Parser)
    ensures HandleReply(p).echo.None?
  {
    hide LoopOverResponse, RecordLoop;
    LoopVerdict(p, ErrorRecord, ErrorPrefix(p.reqType));
    LoopVerdict(p, ScheduleEntry, "");
  }

  /** Which raw-read replies end the command: those that complete the read, or say there is no more. */
  lemma RawReplyEndsExactly(p: Parser, msg: EmsMessage)
    requires p.active.Some? && p.outputRaw && msg.typ != 0xff
    ensures OnIncomingMessage(p, msg).verdict == Success <==>
              Matches(p, msg) && (msg.data == [] || |p.response| + |msg.data| >= p.reqLength)
  {
  }

  /** After a raw read of two bytes was answered with one. */
  function HalfRead(p: Parser, dest: byte): Parser {
    OnIncomingMessage(Parse(p, RawRead(dest, 0x10, 0, 2)).p, EmsMessage(dest, ADDRESS_PC, 0x10, 0, [1])).p
  }

  /** The OK of a write can be that of an older read: a raw read of two bytes gets one of them and is
      given up; then a write is in flight, and the late second byte ends it with OK, unacknowledged. */
  lemma LateReplyEndsWrite(p: Parser, dest: byte, value: byte)
    requires p.active.None? && dest < 128
    ensures var half := HalfRead(p, dest);
            var given := Expire(half, MAX_REQUEST_RETRIES);
            var write := Parse(given, WriteData(dest, 0x20, 0, [value]));
            var e := OnIncomingMessage(write.p, EmsMessage(dest, ADDRESS_PC, 0x10, 1, [2]));
            && given.active.None? && write.sends == [Outgoing(dest, 0x20, 0, [value], false)]
            && e.verdict == Success && e.p.active.None? && e.echo.None? && e.lines == [RawData([1, 2])]
  {
    hide Expire, HalfRead;
    var half := HalfRead(p, dest);
    HalfReadIs(p, dest);
    GivesUpExactly(half, MAX_REQUEST_RETRIES);
    ExpireKeeps(half, MAX_REQUEST_RETRIES);
    assert [1] + [2] == [1, 2];
  }

  lemma HalfReadIs(p: Parser, dest: byte)
    requires p.active.None?
    ensures var q := HalfRead(p, dest);
            && q.response == [1] && q.active.Some? && q.retriesLeft == MAX_REQUEST_RETRIES && q.outputRaw
            && q.reqDest == dest && q.reqType == 0x10 && q.reqOffset == 0 && q.reqLength == 2
  {
    assert [] + [1] == [1];
  }

  lemma {:induction false} ExpireKeeps(p: Parser, n: nat)
    ensures Expire(p, n) == p.(active := Expire(p, n).active, retriesLeft := Expire(p, n).retriesLeft)
    decreases n
  {
    if n > 0 {
      ExpireKeeps(OnTimeout(p).0.p, n - 1);
    }
  }

  predicate KnownType(t: byte) {
    IsErrorType(t) || IsOpmodeType(t) || IsStatusType(t) || IsScheduleType(t)
    || t in {0x02, 0x15, 0x16, 0x1c, 0x33, 0x34, 0x37, 0x38, 0x39, 0xa4, 0xa5}
  }
}
