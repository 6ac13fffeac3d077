/** The two sides of a conversation fit together: what the parser asks for is what it takes as answer,
    and a command asks for what it is documented to read. */
module Dialogue {
  import opened Bytes
  import opened Wrappers
  import opened Messages
  import opened Requests
  import opened Reassembly
  import opened Progress

  /** The request on its way asks for the bytes that are still missing, from the first one on. */
  predicate AsksNext(p: Parser) {
    && NeedsMore(p) && p.reqLength < 256 && p.reqOffset < 256
    && p.active == Some(Outgoing(p.reqDest, p.reqType, (p.reqOffset + |p.response|) % 256,
                                 [p.reqLength - |p.response|], true))
  }

  /** A message a device sends in reply to a request: from the device, about the bytes asked for. */
  predicate Answers(request: EmsMessage, msg: EmsMessage) {
    msg.source == request.GetDestination() && msg.typ == request.typ && msg.offset == request.offset
  }

  /** A direct answer is taken exactly if the address asked is a device's and the next byte is one a
      message can name; a raw read from elsewhere is never answered. */
  lemma AnswerMatches(p: Parser, msg: EmsMessage)
    requires AsksNext(p) && Answers(p.active.value, msg)
    ensures Matches(p, msg) <==> p.reqDest < 128 && p.reqOffset + |p.response| < 256
  {
  }

  lemma StartAsksNext(p: Parser, dest: byte, typ: byte, offset: nat, length: nat, newRequest: bool, raw: bool)
    requires 0 < length < 256 && offset < 256
    ensures var q := StartRequest(p, dest, typ, offset, length, newRequest, raw).p;
            && AsksNext(q) && q.reqDest == dest && q.reqType == typ && q.reqOffset == offset
            && q.reqLength == length && q.response == [] && q.outputRaw == raw
  {
  }

  lemma ContinueAsksNext(p: Parser)
    requires NeedsMore(p) && p.reqLength < 256 && p.reqOffset < 256
    ensures AsksNext(ContinueRequest(p).p)
  {
  }

  lemma LoopAsksNext(p: Parser, kind: RecordKind, prefix: string)
    requires p.reqLength < 256 && p.reqOffset < 256
    ensures var e := LoopOverResponse(p, kind, prefix);
            && e.p.reqDest == p.reqDest && e.p.reqType == p.reqType
            && (e.verdict == Undecided ==> AsksNext(e.p)) && e.verdict != Failure
  {
    hide RecordLoop;
  }

  lemma HandleAsksNext(p: Parser)
    requires p.reqLength < 256 && p.reqOffset < 256
    ensures HandleReply(p).verdict == Undecided ==> AsksNext(HandleReply(p).p)
  {
    hide StartRequest, ContinueRequest, LoopOverResponse, AsksNext;
    var t := p.reqType;
    if NeedsMore(p) {
      ContinueAsksNext(p);
    }
    if !p.outputRaw {
      if t == 0x02 {
        StartAsksNext(p, ADDRESS_BC10, 0x02, 0, 3, true, false);
        StartAsksNext(p, ADDRESS_RC3X, 0x02, 0, 3, true, false);
      } else if IsErrorType(t) {
        var l := LoopOverResponse(p, ErrorRecord, ErrorPrefix(t));
        LoopAsksNext(p, ErrorRecord, ErrorPrefix(t));
        StartAsksNext(l.p, p.reqDest, t + 1, 0, if t == 0x10 then 60 else 48, false, false);
      } else if t == 0x15 {
        StartAsksNext(p, ADDRESS_UBA, 0x16, 0, 20, true, false);
      } else if IsOpmodeType(t) {
        StartAsksNext(p, ADDRESS_RC3X, t + 1, 0, 20, false, false);
      } else if IsStatusType(t) {
        StartAsksNext(p, ADDRESS_RC3X, t + 1, 85, 2, false, false);
      } else if IsScheduleType(t) || t == 0x38 || t == 0x39 {
        LoopAsksNext(p, ScheduleEntry, "");
      } else if t == 0x33 {
        StartAsksNext(p, ADDRESS_UBA, 0x34, 0, 12, true, false);
      } else if t == 0x34 {
        StartAsksNext(p, ADDRESS_RC3X, 0x37, 0, 12, true, false);
      }
    }
  }

  /** As long as nothing is decided, the parser keeps asking for exactly what is missing, through replies
      of any size, stray messages and timeouts. */
  lemma KeepsAsking(p: Parser, msg: EmsMessage)
    requires AsksNext(p)
    ensures OnIncomingMessage(p, msg).verdict == Undecided ==> AsksNext(OnIncomingMessage(p, msg).p)
    ensures OnTimeout(p).0.p.active.Some? ==> AsksNext(OnTimeout(p).0.p)
  {
    hide HandleReply;
    if msg.typ != 0xff && Matches(p, msg) {
      HandleAsksNext(Absorb(p, msg.data));
    }
  }

  // ---- Replies that bring less than was asked for ----

  /** Raw reads, heating circuit settings and contact texts are read to the end before anything else: a
      partial reply is followed by a request for exactly the rest. */
  lemma PartialReplyGoesOn(p: Parser, msg: EmsMessage)
    requires p.active.Some? && Matches(p, msg) && msg.typ != 0xff
    requires msg.data != [] && |p.response| + |msg.data| < p.reqLength
    requires p.outputRaw || p.reqType in {0x3d, 0x47, 0x51, 0x5b, 0xa4}
    ensures var e, n := OnIncomingMessage(p, msg), |p.response| + |msg.data|;
            && e.verdict == Undecided && e.lines == []
            && e.sends == [Outgoing(p.reqDest, p.reqType, (p.reqOffset + n) % 256, [(p.reqLength - n) % 256], true)]
            && e.p == p.(active := Some(e.sends[0]), retriesLeft := 5, response := p.response + msg.data)
  {
  }

  /** The other answers are taken as they come: whatever a reply brings, it ends the command, or the next
      piece is asked for. */
  lemma AnyReplyMovesOn(p: Parser, msg: EmsMessage)
    requires p.active.Some? && Matches(p, msg) && msg.typ != 0xff && !p.outputRaw
    ensures var e := OnIncomingMessage(p, msg);
            && (p.reqType in {0x16, 0x1c, 0x37, 0xa5} ==> e.verdict == Success)
            && (p.reqType == 0x02 && p.reqDest !in {0x08, 0x09} ==> e.verdict == Success)
            && (p.reqType in {0x3f, 0x42, 0x49, 0x4c, 0x53, 0x56, 0x5d, 0x60} && p.reqOffset in {84, 85} ==>
                  e.verdict == Success)
            && (p.reqType == 0x02 && p.reqDest == 0x08 ==> AsksFor(e.p, Ask(0x09, 0x02, 0, 3), false))
            && (p.reqType == 0x02 && p.reqDest == 0x09 ==> AsksFor(e.p, Ask(0x10, 0x02, 0, 3), false))
            && (p.reqType == 0x15 ==> AsksFor(e.p, Ask(0x08, 0x16, 0, 20), false))
            && (p.reqType == 0x33 ==> AsksFor(e.p, Ask(0x08, 0x34, 0, 12), false))
            && (p.reqType == 0x34 ==> AsksFor(e.p, Ask(0x10, 0x37, 0, 12), false))
            && (p.reqType in {0x3e, 0x48, 0x52, 0x5c} ==> AsksFor(e.p, Ask(0x10, p.reqType + 1, 85, 2), false))
  {
    hide LoopOverResponse, AsksNext, StartRequest, HandleErrors, HandleSchedule, Absorb;
    var q := Absorb(p, msg.data);
    SameKind(p, msg.data);
    FollowAsks(q, Ask(0x09, 0x02, 0, 3), true);
    FollowAsks(q, Ask(0x10, 0x02, 0, 3), true);
    FollowAsks(q, Ask(0x08, 0x16, 0, 20), true);
    FollowAsks(q, Ask(0x08, 0x34, 0, 12), true);
    FollowAsks(q, Ask(0x10, 0x37, 0, 12), true);
    if IsStatusType(p.reqType) {
      FollowAsks(q, Ask(0x10, p.reqType + 1, 85, 2), false);
    }
    if IsScheduleType(p.reqType) && p.reqOffset in {84, 85} {
      ShortAnswerEnds(q);
    }
  }

  lemma SameKind(p: Parser, data: seq<byte>)
    ensures var q := Absorb(p, data);
            q.reqType == p.reqType && q.reqDest == p.reqDest && q.reqOffset == p.reqOffset && q.outputRaw == p.outputRaw
  {
  }

  lemma FollowAsks(q: Parser, a: Ask, newRequest: bool)
    requires 0 < a.length < 256 && a.offset < 256
    ensures var e := Follow(q, a.dest, a.typ, a.offset, a.length, newRequest);
            e.verdict == Undecided && AsksFor(e.p, a, false)
  {
    hide AsksNext;
    StartAsksNext(q, a.dest, a.typ, a.offset, a.length, newRequest, false);
    StartVerdictUndecided(q, a);
  }

  lemma ShortAnswerEnds(q: Parser)
    requires q.reqOffset in {84, 85}
    ensures HandleSchedule(q).verdict == Success
  {
  }

  // ---- What each command reads ----

  datatype Ask = Ask(dest: byte, typ: byte, offset: nat, length: nat)

  /** The pieces of device memory a read command is for, in order. */
  function Asks(cmd: Command): seq<Ask> {
    match cmd
    case GetVersion =>
      [Ask(ADDRESS_UBA, 0x02, 0, 3), Ask(ADDRESS_BC10, 0x02, 0, 3), Ask(ADDRESS_RC3X, 0x02, 0, 3)]
    case UbaRequestData => [Ask(ADDRESS_UBA, 0x15, 0, 5), Ask(ADDRESS_UBA, 0x16, 0, 20)]
    case UbaGetErrors => [Ask(ADDRESS_UBA, 0x10, 0, 96), Ask(ADDRESS_UBA, 0x11, 0, 60)]
    case UbaCheckMaintenance => [Ask(ADDRESS_UBA, 0x1c, 5, 3)]
    case RcRequestData => [Ask(ADDRESS_RC3X, 0xa5, 0, 25)]
    case RcGetContactInfo => [Ask(ADDRESS_RC3X, 0xa4, 0, 42)]
    case RcGetErrors => [Ask(ADDRESS_RC3X, 0x12, 0, 48), Ask(ADDRESS_RC3X, 0x13, 0, 48)]
    case HkRequestData(hk) =>
      [Ask(ADDRESS_RC3X, hk.Base(), 0, 42), Ask(ADDRESS_RC3X, hk.Base() + 1, 0, 20),
       Ask(ADDRESS_RC3X, hk.Base() + 2, 85, 2)]
    case HkGetSchedule(hk, second) => [Ask(ADDRESS_RC3X, hk.Base() + (if second then 5 else 2), 0, 84)]
    case HkGetActiveSchedule(hk) => [Ask(ADDRESS_RC3X, hk.Base() + 2, 84, 1)]
    case HkGetVacation(hk) => [Ask(ADDRESS_RC3X, hk.Base() + 2, 87, 6)]
    case HkGetHoliday(hk) => [Ask(ADDRESS_RC3X, hk.Base() + 2, 93, 6)]
    case WwRequestData =>
      [Ask(ADDRESS_UBA, 0x33, 0, 10), Ask(ADDRESS_UBA, 0x34, 0, 12), Ask(ADDRESS_RC3X, 0x37, 0, 12)]
    case WwGetSchedule => [Ask(ADDRESS_RC3X, 0x38, 0, 84)]
    case ZirkGetSchedule => [Ask(ADDRESS_RC3X, 0x39, 0, 84)]
    case RawRead(dest, typ, offset, len) => if len == 0 then [] else [Ask(dest, typ, offset, len)]
    case WriteData(_, _, _, _) => []
  }

  /** The parser has just begun to ask for a piece of memory. */
  predicate AsksFor(p: Parser, a: Ask, raw: bool) {
    && AsksNext(p) && p.response == [] && p.outputRaw == raw
    && p.reqDest == a.dest && p.reqType == a.typ && p.reqOffset == a.offset && p.reqLength == a.length
  }

  /** A device that answers with everything asked for at once. */
  function FullAnswer(p: Parser, data: seq<byte>): EmsMessage
    requires p.reqOffset < 256
  {
    EmsMessage(p.reqDest, ADDRESS_PC, p.reqType, p.reqOffset, data)
  }

  /** The parser answered in full, one piece after the other, as far as `pieces` go. */
  ghost predicate Walks(p: Parser, asks: seq<Ask>, raw: bool, pieces: seq<seq<byte>>)
    requires |pieces| == |asks|
    decreases |asks|
  {
    asks == [] ||
    (&& AsksFor(p, asks[0], raw)
     && (|pieces[0]| == asks[0].length ==>
           var e := OnIncomingMessage(p, FullAnswer(p, pieces[0]));
           if |asks| == 1 then e.verdict == Success && e.p.active.None?
           else e.verdict == Undecided && Walks(e.p, asks[1..], raw, pieces[1..])))
  }

  lemma AfterFullAnswer(p: Parser, a: Ask, raw: bool, data: seq<byte>)
    requires AsksFor(p, a, raw) && a.typ != 0xff && |data| == a.length
    ensures var q := p.(response := data);
            var e := OnIncomingMessage(p, FullAnswer(p, data));
            && !NeedsMore(q) && e.verdict == HandleReply(q).verdict
            && e.p == (if e.verdict == Success then HandleReply(q).p.(active := None) else HandleReply(q).p)
  {
    hide HandleReply;
    assert [] + data == data;
  }

  /** A full answer to the last piece of a chain ends the command with OK. */
  lemma LastPiece(p: Parser, a: Ask, data: seq<byte>)
    requires AsksFor(p, a, false) && |data| == a.length
    requires a.typ in {0x11, 0x13, 0x16, 0x1c, 0x37, 0x38, 0x39, 0xa4, 0xa5}
             || (a.typ == 0x02 && a.dest == ADDRESS_RC3X)
             || (IsScheduleType(a.typ) && (a.offset in {0, 84, 85} || a.length == 6))
    ensures Walks(p, [a], false, [data])
  {
    hide OnIncomingMessage, RecordLoop, AsksNext, ContactLines;
    AfterFullAnswer(p, a, false, data);
  }

  /** A full answer inside a chain moves on to the next piece. */
  lemma NextPiece(p: Parser, a: Ask, b: Ask, data: seq<byte>)
    requires AsksFor(p, a, false) && |data| == a.length
    requires
      || (a.typ == 0x02 && b == Ask(if a.dest == ADDRESS_UBA then ADDRESS_BC10 else ADDRESS_RC3X, 0x02, 0, 3)
          && a.dest in {ADDRESS_UBA, ADDRESS_BC10})
      || (a.typ == 0x15 && b == Ask(ADDRESS_UBA, 0x16, 0, 20))
      || (a.typ == 0x10 && b == Ask(a.dest, 0x11, 0, 60))
      || (a.typ == 0x12 && b == Ask(a.dest, 0x13, 0, 48))
      || (IsOpmodeType(a.typ) && b == Ask(ADDRESS_RC3X, a.typ + 1, 0, 20))
      || (IsStatusType(a.typ) && b == Ask(ADDRESS_RC3X, a.typ + 1, 85, 2))
      || (a.typ == 0x33 && b == Ask(ADDRESS_UBA, 0x34, 0, 12))
      || (a.typ == 0x34 && b == Ask(ADDRESS_RC3X, 0x37, 0, 12))
    ensures var e := OnIncomingMessage(p, FullAnswer(p, data));
            e.verdict == Undecided && AsksFor(e.p, b, false)
  {
    hide OnIncomingMessage, RecordLoop, AsksNext, StartRequest, ContinueRequest;
    AfterFullAnswer(p, a, false, data);
    var q := p.(response := data);
    var l := LoopOverResponse(q, ErrorRecord, ErrorPrefix(q.reqType));
    var from := if IsErrorType(a.typ) then l.p else q;
    StartAsksNext(from, b.dest, b.typ, b.offset, b.length, true, false);
    StartAsksNext(from, b.dest, b.typ, b.offset, b.length, false, false);
    StartVerdictUndecided(from, b);
  }

  lemma StartVerdictUndecided(p: Parser, b: Ask)
    ensures StartRequest(p, b.dest, b.typ, b.offset, b.length, true, false).verdict == Undecided
    ensures StartRequest(p, b.dest, b.typ, b.offset, b.length, false, false).verdict == Undecided
  {
  }

  lemma WalkOne(p: Parser, a: Ask, b: Ask, rest: seq<Ask>, pieces: seq<seq<byte>>)
    requires |pieces| == |rest| + 2 && AsksFor(p, a, false)
    requires |pieces[0]| == a.length ==>
               var e := OnIncomingMessage(p, FullAnswer(p, pieces[0]));
               e.verdict == Undecided && Walks(e.p, [b] + rest, false, pieces[1..])
    ensures Walks(p, [a, b] + rest, false, pieces)
  {
    hide OnIncomingMessage, AsksFor;
    assert ([a, b] + rest)[1..] == [b] + rest;
  }

  /** The last two pieces of a chain. */
  lemma WalkTwo(p: Parser, a: Ask, b: Ask, pieces: seq<seq<byte>>)
    requires |pieces| == 2 && AsksFor(p, a, false)
    requires |pieces[0]| == a.length ==>
               var e := OnIncomingMessage(p, FullAnswer(p, pieces[0]));
               e.verdict == Undecided && AsksFor(e.p, b, false)
    requires b.typ in {0x11, 0x13, 0x16, 0x37} || (b.typ == 0x02 && b.dest == ADDRESS_RC3X)
             || (IsScheduleType(b.typ) && b.offset == 85)
    ensures Walks(p, [a, b], false, pieces)
  {
    hide OnIncomingMessage, AsksNext;
    if |pieces[0]| == a.length {
      var e := OnIncomingMessage(p, FullAnswer(p, pieces[0]));
      assert pieces[1..] == [pieces[1]];
      if |pieces[1]| == b.length {
        LastPiece(e.p, b, pieces[1]);
      }
      assert Walks(e.p, [b], false, [pieces[1]]);
    }
    assert [b] + [] == [b] && [a, b] + [] == [a, b];
    WalkOne(p, a, b, [], pieces);
  }

  /** Answered in full each time, a command asks for exactly its pieces, one after the other, and ends
      with OK after the last. (Only the answer to a raw read of type 0xff counts as an acknowledgement.) */
  lemma CommandAsksForItsPieces(p: Parser, cmd: Command, pieces: seq<seq<byte>>)
    requires p.active.None? && |pieces| == |Asks(cmd)| && (cmd.RawRead? ==> cmd.typ != 0xff)
    ensures Walks(Parse(p, cmd).p, Asks(cmd), cmd.RawRead?, pieces)
  {
    hide OnIncomingMessage, AsksNext, StartRequest;
    if Asks(cmd) != [] && cmd.RawRead? {
      RawWalks(p, cmd, pieces);
    } else if Asks(cmd) != [] {
      ChainWalks(p, cmd, pieces);
    }
  }

  lemma RawWalks(p: Parser, cmd: Command, pieces: seq<seq<byte>>)
    requires p.active.None? && cmd.RawRead? && cmd.len > 0 && cmd.typ != 0xff && |pieces| == 1
    ensures Walks(Parse(p, cmd).p, Asks(cmd), true, pieces)
  {
    hide AsksNext, StartRequest, OnIncomingMessage;
    var a := Asks(cmd)[0];
    var q := Parse(p, cmd).p;
    StartAsksNext(p, a.dest, a.typ, a.offset, a.length, true, true);
    assert AsksFor(q, a, true);
    if |pieces[0]| == a.length {
      AfterFullAnswer(q, a, true, pieces[0]);
    }
  }

  /** All commands but raw reads: one to three pieces. */
  lemma ChainWalks(p: Parser, cmd: Command, pieces: seq<seq<byte>>)
    requires p.active.None? && !cmd.RawRead? && Asks(cmd) != [] && |pieces| == |Asks(cmd)|
    ensures Walks(Parse(p, cmd).p, Asks(cmd), false, pieces)
  {
    hide OnIncomingMessage, AsksNext, Walks, StartRequest;
    var asks, q := Asks(cmd), Parse(p, cmd).p;
    var a := asks[0];
    StartAsksNext(p, a.dest, a.typ, a.offset, a.length, true, false);
    assert AsksFor(q, a, false);
    if |asks| == 1 {
      WalkLast(q, a, pieces);
    } else {
      var b := asks[1];
      if |pieces[0]| == a.length {
        NextPiece(q, a, b, pieces[0]);
      }
      if |asks| == 2 {
        assert asks == [a, b];
        WalkTwo(q, a, b, pieces);
      } else {
        assert asks == [a, b] + [asks[2]] && [b] + [asks[2]] == [b, asks[2]];
        if |pieces[0]| == a.length {
          var r := OnIncomingMessage(q, FullAnswer(q, pieces[0])).p;
          if |pieces[1]| == b.length {
            NextPiece(r, b, asks[2], pieces[1]);
          }
          WalkTwo(r, b, asks[2], pieces[1..]);
        }
        WalkOne(q, a, b, [asks[2]], pieces);
      }
    }
  }

  lemma WalkLast(p: Parser, a: Ask, pieces: seq<seq<byte>>)
    requires |pieces| == 1 && AsksFor(p, a, false)
    requires a.typ in {0x1c, 0x38, 0x39, 0xa4, 0xa5}
             || (IsScheduleType(a.typ) && (a.offset in {0, 84} || a.length == 6))
    ensures Walks(p, [a], false, pieces)
  {
    hide OnIncomingMessage, AsksNext;
    assert pieces == [pieces[0]];
    if |pieces[0]| == a.length {
      LastPiece(p, a, pieces[0]);
    }
  }
}
