/** What a parser holds and reports, against the memory of an honest device. */
module Reassembly {
  import opened Bytes
  import opened Wrappers
  import opened Messages
  import opened Requests

  /** The parameter memory of every device, by address and message type. */
  type Memory = (byte, byte) -> seq<byte>

  /** Any reply an honest device may ever have given, to whatever request, late, lost or repeated:
      a piece of its memory, or nothing from the end of its memory on. */
  predicate Honest(mem: Memory, msg: EmsMessage) {
    var m := mem(msg.source, msg.typ);
    if msg.data == [] then msg.offset >= |m|
    else msg.offset + |msg.data| <= |m| && msg.data == m[msg.offset..msg.offset + |msg.data|]
  }

  /** The response is the memory slice from the requested offset on, and the request has only been
      shortened if that slice reaches the end of the memory. */
  predicate Faithful(mem: Memory, p: Parser) {
    var m := mem(p.reqDest, p.reqType);
    var end := p.reqOffset + |p.response|;
    && (p.response == [] || (end <= |m| && p.response == m[p.reqOffset..end]))
    && (p.reqLength == p.asked || (p.reqLength <= |p.response| && end >= |m|))
  }

  /** All that was asked for, or all there is. */
  predicate Complete(mem: Memory, p: Parser) {
    |p.response| >= p.asked || p.reqOffset + |p.response| >= |mem(p.reqDest, p.reqType)|
  }

  lemma AbsorbFaithful(mem: Memory, p: Parser, msg: EmsMessage)
    requires Faithful(mem, p) && Honest(mem, msg) && Matches(p, msg)
    ensures Faithful(mem, Absorb(p, msg.data))
    ensures !NeedsMore(Absorb(p, msg.data)) ==> Complete(mem, Absorb(p, msg.data))
  {
    var m := mem(p.reqDest, p.reqType);
    if msg.data != [] {
      var a, b, c := p.reqOffset, p.reqOffset + |p.response|, p.reqOffset + |p.response| + |msg.data|;
      assert m[a..c] == m[a..b] + m[b..c];
    }
  }

  /** Handling a reply either leaves the transaction alone or starts the next one of a chain. */
  predicate SameRequest(p: Parser, q: Parser) {
    && q.reqDest == p.reqDest && q.reqType == p.reqType && q.reqOffset == p.reqOffset
    && q.reqLength == p.reqLength && q.asked == p.asked && q.response == p.response
  }

  lemma LoopKeepsRequest(p: Parser, kind: RecordKind, prefix: string)
    ensures SameRequest(p, LoopOverResponse(p, kind, prefix).p)
  {
  }

  lemma ReplyKeepsOrRestarts(p: Parser)
    ensures SameRequest(p, HandleReply(p).p) || FreshRequest(HandleReply(p).p)
  {
    hide LoopOverResponse, RecordLoop;
    LoopKeepsRequest(p, ScheduleEntry, "");
    if IsErrorType(p.reqType) {
      LoopKeepsRequest(p, ErrorRecord, ErrorPrefix(p.reqType));
    }
  }

  /** No message from honest devices, however lost, late, repeated or cut, spoils the response. */
  lemma ReassemblySafe(mem: Memory, p: Parser, msg: EmsMessage)
    requires Faithful(mem, p) && (msg.typ == 0xff || Honest(mem, msg))
    ensures Faithful(mem, OnIncomingMessage(p, msg).p)
  {
    hide HandleReply;
    if p.active.Some? && msg.typ != 0xff && Matches(p, msg) {
      AbsorbFaithful(mem, p, msg);
      ReplyKeepsOrRestarts(Absorb(p, msg.data));
    }
  }

  lemma ExecuteKeepsOrRestarts(p: Parser, cmd: Command)
    ensures SameRequest(p, Execute(p, cmd).p) || FreshRequest(Execute(p, cmd).p)
  {
  }

  lemma TimeoutAndCommandFaithful(mem: Memory, p: Parser, cmd: Command)
    requires Faithful(mem, p)
    ensures Faithful(mem, OnTimeout(p).0.p)
    ensures Faithful(mem, Parse(p, cmd).p)
  {
    hide Execute;
    ExecuteKeepsOrRestarts(p, cmd);
  }

  /** `n` bytes from `offset` on are inside the memory, and nothing that was asked for is missing. */
  predicate WholeSlice(m: seq<byte>, offset: nat, asked: nat, n: nat) {
    (n == 0 || offset + n <= |m|) && (n >= asked || offset + n >= |m|)
  }

  /** A raw read that ends with OK on a reply outputs the requested memory slice, cut only at its end. */
  lemma RawReadCorrect(mem: Memory, p: Parser, msg: EmsMessage)
    requires Faithful(mem, p) && Honest(mem, msg) && msg.typ != 0xff
    requires p.outputRaw && OnIncomingMessage(p, msg).verdict == Success
    ensures var m := mem(p.reqDest, p.reqType);
            exists n: nat ::
              && OnIncomingMessage(p, msg).lines == [RawData(Slice(m, p.reqOffset, n))]
              && WholeSlice(m, p.reqOffset, p.asked, n)
  {
    var q := Absorb(p, msg.data);
    AbsorbFaithful(mem, p, msg);
    assert q.response == Slice(mem(p.reqDest, p.reqType), p.reqOffset, |q.response|);
  }

  /** The contact texts: a query that ends with OK prints the requested memory slice in lines of 21
      bytes, each up to its first zero. */
  lemma ContactCorrect(mem: Memory, p: Parser, msg: EmsMessage)
    requires Faithful(mem, p) && Honest(mem, msg) && msg.typ != 0xff
    requires !p.outputRaw && p.reqType == 0xa4 && OnIncomingMessage(p, msg).verdict == Success
    ensures var m, lines := mem(p.reqDest, p.reqType), OnIncomingMessage(p, msg).lines;
            exists n: nat :: WholeSlice(m, p.reqOffset, p.asked, n) && ShowsTexts(lines, Slice(m, p.reqOffset, n))
  {
    hide ContactLines;
    var q := Absorb(p, msg.data);
    AbsorbFaithful(mem, p, msg);
    assert q.response == Slice(mem(p.reqDest, p.reqType), p.reqOffset, |q.response|);
    ContactLinesShow(q.response);
  }

  /** One line for every 21 bytes begun, holding them up to the first zero. */
  ghost predicate ShowsTexts(lines: seq<Line>, bytes: seq<byte>) {
    |lines| == (|bytes| + 20) / 21
    && forall i | 0 <= i < |lines| ::
         ShowsText(lines[i], bytes[21 * i..if 21 * i + 21 < |bytes| then 21 * i + 21 else |bytes|])
  }

  /** The longest beginning without a zero. */
  ghost predicate ShowsText(line: Line, bytes: seq<byte>) {
    line.Contact? && line.text <= bytes && 0 !in line.text
    && (|line.text| < |bytes| ==> bytes[|line.text|] == 0)
  }

  lemma {:induction false} UpToNulShows(s: seq<byte>)
    ensures ShowsText(Contact(UpToNul(s)), s)
  {
    if s != [] && s[0] != 0 {
      UpToNulShows(s[1..]);
    }
  }

  lemma {:induction false} ContactLinesShow(s: seq<byte>)
    ensures ShowsTexts(ContactLines(s), s)
    decreases |s|
  {
    hide UpToNul, ShowsText;
    if s != [] && |s| <= 21 {
      UpToNulShows(s);
      assert s[0..|s|] == s;
    } else if s != [] {
      var lines, rest := ContactLines(s), ContactLines(s[21..]);
      UpToNulShows(s[..21]);
      ContactLinesShow(s[21..]);
      assert |lines| == 1 + |rest|;
      forall i | 0 <= i < |lines|
        ensures ShowsText(lines[i], s[21 * i..if 21 * i + 21 < |s| then 21 * i + 21 else |s|])
      {
        if i > 0 {
          var k := i - 1;
          var end := if 21 * k + 21 < |s| - 21 then 21 * k + 21 else |s| - 21;
          assert s[21..|s|] == s[21..];
          PartOfSlice(s, 21, |s|, 21 * k, end);
          assert s[21..][21 * k..end] == s[21 * i..21 + end];
          assert lines[i] == rest[k];
        } else {
          assert s[0..21] == s[..21];
        }
      }
    }
  }

  /** A byte of the memory, if it was received. */
  function At(m: seq<byte>, i: nat, received: bool): Option<byte> {
    if received && i < |m| then Some(m[i]) else None
  }

  /** The lines an answer is shown as when `n` bytes of the memory, from `offset` on, have been received. */
  ghost predicate ShownExactly(m: seq<byte>, dest: byte, typ: byte, offset: nat, n: nat, lines: seq<Line>) {
    && (typ == 0x02 ==>
          lines == if dest in {0x08, 0x09, 0x10}
                   then [Version(dest, At(m, offset + 1, n >= 2), At(m, offset + 2, n >= 3))] else [])
    && (typ == 0x1c ==> lines == [Maintenance(At(m, offset, n >= 1))])
    && (typ in {0x3f, 0x42, 0x49, 0x4c, 0x53, 0x56, 0x5d, 0x60} && offset > 80 ==>
          if offset == 84 then lines == [ScheduleName(At(m, offset, n >= 1))]
          else if offset != 85 && n >= 6 then
            offset + 6 <= |m|
            && lines == [Holiday("begin", m[offset..offset + 3]), Holiday("end", m[offset + 3..offset + 6])]
          else lines == [])
    && (typ in {0x15, 0x16, 0x33, 0x34, 0x37, 0x3d, 0x3e, 0x47, 0x48, 0x51, 0x52, 0x5b, 0x5c, 0xa5} ==> lines == [])
  }

  /** Every reply to a request for a version, the maintenance state, a schedule's name, a vacation or a
      holiday, or for data that is only passed on, is shown as exactly these lines, as honest devices
      hold the bytes. */
  lemma AnswersExactly(mem: Memory, p: Parser, msg: EmsMessage)
    requires Faithful(mem, p) && Honest(mem, msg) && msg.typ != 0xff
    requires p.active.Some? && Matches(p, msg) && !p.outputRaw
    ensures ShownExactly(mem(p.reqDest, p.reqType), p.reqDest, p.reqType, p.reqOffset,
                         |p.response| + |msg.data|, OnIncomingMessage(p, msg).lines)
  {
    hide HandleReply, ShownExactly, Faithful;
    AbsorbFaithful(mem, p, msg);
    ReplyShown(mem, Absorb(p, msg.data));
  }

  lemma ReplyShown(mem: Memory, q: Parser)
    requires Faithful(mem, q) && !q.outputRaw
    ensures ShownExactly(mem(q.reqDest, q.reqType), q.reqDest, q.reqType, q.reqOffset, |q.response|,
                         HandleReply(q).lines)
  {
    hide LoopOverResponse, StartRequest, ContinueRequest, ContactLines, Faithful, HandleVersion, HandleSchedule,
         HandleErrors, At, ByteAt;
    ContinueSaysNothing(q);
    StartsSayNothing(q);
    ReceivedIsMemory(mem, q, 0);
    VersionShown(mem, q);
    if IsScheduleType(q.reqType) && q.reqOffset > 80 {
      ScheduleShown(mem, q);
    }
  }

  lemma VersionShown(mem: Memory, q: Parser)
    requires Faithful(mem, q)
    ensures var m, o, n := mem(q.reqDest, q.reqType), q.reqOffset, |q.response|;
            HandleVersion(q).lines ==
              if q.reqDest in {0x08, 0x09, 0x10}
              then [Version(q.reqDest, At(m, o + 1, n >= 2), At(m, o + 2, n >= 3))] else []
  {
    hide StartRequest, Faithful, At, ByteAt;
    StartsSayNothing(q);
    ReceivedIsMemory(mem, q, 1);
    ReceivedIsMemory(mem, q, 2);
  }

  lemma ScheduleShown(mem: Memory, q: Parser)
    requires Faithful(mem, q) && q.reqOffset > 80
    ensures var m, o, n, lines := mem(q.reqDest, q.reqType), q.reqOffset, |q.response|, HandleSchedule(q).lines;
            if o == 84 then lines == [ScheduleName(At(m, o, n >= 1))]
            else if o != 85 && n >= 6 then
              o + 6 <= |m| && lines == [Holiday("begin", m[o..o + 3]), Holiday("end", m[o + 3..o + 6])]
            else lines == []
  {
    hide LoopOverResponse, Faithful, At, ByteAt;
    ReceivedIsMemory(mem, q, 0);
    if |q.response| >= 6 {
      HolidaysAreMemory(mem, q);
    }
  }

  lemma ReceivedIsMemory(mem: Memory, q: Parser, i: nat)
    requires Faithful(mem, q)
    ensures ByteAt(q.response, i) == At(mem(q.reqDest, q.reqType), q.reqOffset + i, |q.response| >= i + 1)
  {
  }

  lemma HolidaysAreMemory(mem: Memory, q: Parser)
    requires Faithful(mem, q) && |q.response| >= 6
    ensures var m, o := mem(q.reqDest, q.reqType), q.reqOffset;
            && o + 6 <= |m| && q.response[0..3] == m[o..o + 3] && q.response[3..6] == m[o + 3..o + 6]
  {
    var m, o := mem(q.reqDest, q.reqType), q.reqOffset;
    PartOfSlice(m, o, o + |q.response|, 0, 3);
    PartOfSlice(m, o, o + |q.response|, 3, 6);
    assert q.response == m[o..o + |q.response|];
  }

  lemma PartOfSlice(m: seq<byte>, from: nat, to: nat, i: nat, j: nat)
    requires from <= to <= |m| && i <= j <= to - from
    ensures m[from..to][i..j] == m[from + i..from + j]
  {
    var a, b := m[from..to][i..j], m[from + i..from + j];
    forall k | 0 <= k < j - i ensures a[k] == b[k] {
      assert m[from..to][i + k] == m[from + (i + k)];
    }
  }

  lemma ContinueSaysNothing(p: Parser)
    ensures ContinueRequest(p).lines == []
  {
  }

  lemma StartsSayNothing(p: Parser)
    ensures forall dest, typ, offset, length, newRequest, raw ::
              StartRequest(p, dest, typ, offset, length, newRequest, raw).lines == []
  {
  }

  /** `n` bytes from `offset` on, none if that is not all inside. */
  function Slice(m: seq<byte>, offset: nat, n: nat): seq<byte> {
    if offset + n <= |m| then m[offset..offset + n] else []
  }

  // ---- Lists: incremental parsing is batch parsing ----

  /** The records of a whole buffer, counted from `counter`. */
  function Batch(kind: RecordKind, prefix: string, counter: nat, buffer: seq<byte>): Loop {
    RecordLoop(kind, prefix, buffer, 0, counter)
  }

  /** Size of `n` records. */
  function Records(kind: RecordKind, n: nat): nat {
    if kind == ErrorRecord then 12 * n else 2 * n
  }

  function RecordAt(kind: RecordKind, buffer: seq<byte>, i: nat): (r: seq<byte>)
    requires Records(kind, i + 1) <= |buffer|
    ensures |r| == RecordSize(kind)
  {
    buffer[Records(kind, i)..Records(kind, i + 1)]
  }

  /** `n` whole records from number `k` on print as `lines`, the first being number `counter + 1`. */
  predicate Prints(kind: RecordKind, prefix: string, buffer: seq<byte>, k: nat, counter: nat, lines: seq<Line>) {
    forall i | 0 <= i < |lines| :: PrintsAs(kind, prefix, buffer, k + i, counter + i, lines[i])
  }

  predicate PrintsAs(kind: RecordKind, prefix: string, buffer: seq<byte>, k: nat, counter: nat, line: Line) {
    && Records(kind, k + 1) <= |buffer| && !EmptyRecord(kind, RecordAt(kind, buffer, k))
    && line == Record(prefix, counter + 1, RecordAt(kind, buffer, k))
  }

  /** A loop over the records from number `k` on prints the maximal run of whole non-empty records,
      numbered consecutively, and stops behind the first empty one if there is one. */
  predicate MaximalRun(kind: RecordKind, prefix: string, buffer: seq<byte>, k: nat, counter: nat, loop: Loop) {
    var n := |loop.lines|;
    && Prints(kind, prefix, buffer, k, counter, loop.lines)
    && (if loop.stopped
        then Records(kind, k + n + 1) <= |buffer| && EmptyRecord(kind, RecordAt(kind, buffer, k + n))
             && loop.counter == counter + n + 1 && loop.position == Records(kind, k + n + 1)
        else Records(kind, k + n + 1) > |buffer|
             && loop.counter == counter + n && loop.position == Records(kind, k + n))
  }

  lemma {:induction false} LoopIsMaximalRun(kind: RecordKind, prefix: string, buffer: seq<byte>, k: nat, counter: nat)
    ensures MaximalRun(kind, prefix, buffer, k, counter,
                       RecordLoop(kind, prefix, buffer, Records(kind, k), counter))
    decreases |buffer| - Records(kind, k)
  {
    hide EmptyRecord;
    var loop := RecordLoop(kind, prefix, buffer, Records(kind, k), counter);
    assert Records(kind, k + 1) == Records(kind, k) + RecordSize(kind);
    if Records(kind, k + 1) > |buffer| {
      assert loop == Loop([], Records(kind, k), counter, false);
    } else if EmptyRecord(kind, RecordAt(kind, buffer, k)) {
      assert loop == Loop([], Records(kind, k + 1), counter + 1, true);
    } else {
      var rest := RecordLoop(kind, prefix, buffer, Records(kind, k + 1), counter + 1);
      LoopIsMaximalRun(kind, prefix, buffer, k + 1, counter + 1);
      PrintsCons(kind, prefix, buffer, k, counter, rest.lines);
      assert loop.lines == [Record(prefix, counter + 1, RecordAt(kind, buffer, k))] + rest.lines;
      assert k + 1 + |rest.lines| == k + |loop.lines|;
    }
  }

  lemma PrintsCons(kind: RecordKind, prefix: string, buffer: seq<byte>, k: nat, counter: nat, rest: seq<Line>)
    requires Records(kind, k + 1) <= |buffer| && !EmptyRecord(kind, RecordAt(kind, buffer, k))
    requires Prints(kind, prefix, buffer, k + 1, counter + 1, rest)
    ensures Prints(kind, prefix, buffer, k, counter,
                   [Record(prefix, counter + 1, RecordAt(kind, buffer, k))] + rest)
  {
    var lines := [Record(prefix, counter + 1, RecordAt(kind, buffer, k))] + rest;
    forall i | 0 <= i < |lines|
      ensures PrintsAs(kind, prefix, buffer, k + i, counter + i, lines[i])
    {
      if i > 0 {
        assert PrintsAs(kind, prefix, buffer, k + 1 + (i - 1), counter + 1 + (i - 1), rest[i - 1]);
      }
    }
  }

  lemma {:induction false} LoopConcat(kind: RecordKind, prefix: string, a: seq<byte>, d: seq<byte>,
                                      position: nat, counter: nat)
    ensures var first, all := RecordLoop(kind, prefix, a, position, counter),
                              RecordLoop(kind, prefix, a + d, position, counter);
            if first.stopped then all == first
            else var rest := RecordLoop(kind, prefix, a + d, first.position, first.counter);
                 all == rest.(lines := first.lines + rest.lines)
    decreases |a| - position
  {
    var next := position + RecordSize(kind);
    var first, all := RecordLoop(kind, prefix, a, position, counter),
                      RecordLoop(kind, prefix, a + d, position, counter);
    if next > |a| {
      assert first == Loop([], position, counter, false);
      assert [] + all.lines == all.lines;
    } else {
      var record := a[position..next];
      assert (a + d)[position..next] == record;
      if EmptyRecord(kind, record) {
        assert first == all == Loop([], next, counter + 1, true);
      } else {
        var line := Record(prefix, counter + 1, record);
        var first1, all1 := RecordLoop(kind, prefix, a, next, counter + 1),
                            RecordLoop(kind, prefix, a + d, next, counter + 1);
        assert first == first1.(lines := [line] + first1.lines);
        assert all == all1.(lines := [line] + all1.lines);
        LoopConcat(kind, prefix, a, d, next, counter + 1);
        LinesAssoc([line], first1.lines,
                   RecordLoop(kind, prefix, a + d, first1.position, first1.counter).lines);
      }
    }
  }

  // ---- A whole list request, over any conversation ----

  /** Requests whose replies are lists: errors, hot water and circulation schedules, heating schedules. */
  predicate IsList(p: Parser) {
    !p.outputRaw
    && (IsErrorType(p.reqType) || p.reqType in {0x38, 0x39} || (IsScheduleType(p.reqType) && p.reqOffset <= 80))
  }

  function KindOf(t: byte): RecordKind {
    if IsErrorType(t) then ErrorRecord else ScheduleEntry
  }

  function PrefixOf(t: byte): string {
    if IsErrorType(t) then ErrorPrefix(t) else ""
  }

  function BatchOf(t: byte, counter: nat, buffer: seq<byte>): Loop {
    Batch(KindOf(t), PrefixOf(t), counter, buffer)
  }

  /** Everything in the response has been worked through, starting with number `start`. */
  predicate ParsedAll(p: Parser, start: nat) {
    var loop := BatchOf(p.reqType, start, p.response);
    !loop.stopped && p.parsePosition == loop.position && p.responseCounter == loop.counter
  }

  /** Whether the event `e` ended the list request of `p`: by OK, or by moving on to the next list. */
  predicate EndsList(p: Parser, e: Effect) {
    e.verdict != Undecided || e.p.reqType != p.reqType
  }

  lemma ListHandling(q: Parser)
    requires IsList(q)
    ensures var l := LoopOverResponse(q, KindOf(q.reqType), PrefixOf(q.reqType));
            && SameRequest(q, l.p) && l.p.outputRaw == q.outputRaw
            && (if l.verdict == Success && q.reqType in {0x10, 0x12}
                then HandleReply(q).lines == l.lines && HandleReply(q).p.reqType != q.reqType
                else HandleReply(q) == l)
  {
    LoopKeepsRequest(q, KindOf(q.reqType), PrefixOf(q.reqType));
  }

  /** One more reply: the lines so far are the lines of the whole buffer. */
  lemma ListReply(p: Parser, data: seq<byte>, start: nat)
    requires IsList(p) && ParsedAll(p, start)
    ensures var q := Absorb(p, data);
            var e := HandleReply(q);
            var loop := BatchOf(p.reqType, start, q.response);
            && BatchOf(p.reqType, start, p.response).lines + e.lines == loop.lines
            && (EndsList(p, e) ==> loop.stopped || !NeedsMore(q))
            && (!EndsList(p, e) ==> SameRequest(q, e.p) && IsList(e.p) && ParsedAll(e.p, start))
  {
    var q := Absorb(p, data);
    var kind, prefix := KindOf(p.reqType), PrefixOf(p.reqType);
    LoopConcat(kind, prefix, p.response, data, 0, start);
    assert q.response == p.response + data;
    ListHandling(q);
    LoopStep(q, kind, prefix);
  }

  lemma LoopStep(q: Parser, kind: RecordKind, prefix: string)
    ensures var l := LoopOverResponse(q, kind, prefix);
            var loop := RecordLoop(kind, prefix, q.response, q.parsePosition, q.responseCounter);
            && l.lines == loop.lines && l.p.parsePosition == loop.position && l.p.responseCounter == loop.counter
            && l.verdict == (if loop.stopped || !NeedsMore(q) then Success else Undecided)
  {
  }

  datatype Happening = Reply(msg: EmsMessage) | Expiry

  /** What one event does to a list request: lines, whether the request is over, whether a reply ended
      it, and the parser that goes on. */
  function ListEvent(p: Parser, h: Happening): (seq<Line>, bool, bool, Parser) {
    match h
    case Expiry => ([], OnTimeout(p).1, false, OnTimeout(p).0.p)
    case Reply(msg) =>
      var e := OnIncomingMessage(p, msg);
      (e.lines, EndsList(p, e), EndsList(p, e), e.p)
  }

  /** All lines of a list request until it is over or the events are, and whether a reply ended it. */
  function ListRun(p: Parser, hs: seq<Happening>): (seq<Line>, bool)
    decreases |hs|
  {
    if hs == [] then ([], false)
    else
      var (lines, over, ended, q) := ListEvent(p, hs[0]);
      if over then (lines, ended)
      else
        var (more, endedLater) := ListRun(q, hs[1..]);
        (lines + more, endedLater)
  }

  ghost predicate HonestAll(mem: Memory, hs: seq<Happening>) {
    forall i | 0 <= i < |hs| :: hs[i].Reply? ==> hs[i].msg.typ != 0xff && Honest(mem, hs[i].msg)
  }

  /** `lines` are what a slice of `n` bytes of the memory prints; if `ended`, nothing is missing. */
  ghost predicate PrintsSlice(mem: Memory, p: Parser, start: nat, lines: seq<Line>, ended: bool, n: nat) {
    var m := mem(p.reqDest, p.reqType);
    var loop := BatchOf(p.reqType, start, Slice(m, p.reqOffset, n));
    && lines == loop.lines && (n == 0 || p.reqOffset + n <= |m|)
    && (ended ==> loop.stopped || n >= p.asked || p.reqOffset + n >= |m|)
  }

  /** Lines printed before `p` was reached. */
  function LinesSoFar(p: Parser, start: nat): seq<Line> {
    BatchOf(p.reqType, start, p.response).lines
  }

  /** Through any conversation with honest devices, a list request prints the records of one slice of
      the device's memory, in one run and correctly numbered; when a reply ends it, the slice reaches
      an empty record, the requested length or the end of the memory. */
  lemma {:induction false} ListCorrect(mem: Memory, p: Parser, start: nat, hs: seq<Happening>)
    requires IsList(p) && Faithful(mem, p) && ParsedAll(p, start) && HonestAll(mem, hs)
    ensures exists n: nat :: PrintsSlice(mem, p, start, LinesSoFar(p, start) + ListRun(p, hs).0, ListRun(p, hs).1, n)
    decreases |hs|
  {
    var before := LinesSoFar(p, start);
    if hs == [] {
      assert Slice(mem(p.reqDest, p.reqType), p.reqOffset, |p.response|) == p.response;
      assert before + [] == before && ListRun(p, hs) == ([], false);
      assert PrintsSlice(mem, p, start, before + ListRun(p, hs).0, false, |p.response|);
    } else {
      var (lines, over, ended, q) := ListEvent(p, hs[0]);
      ListEventCorrect(mem, p, start, hs[0]);
      if !over {
        assert HonestAll(mem, hs[1..]);
        ListCorrect(mem, q, start, hs[1..]);
        var (more, endedLater) := ListRun(q, hs[1..]);
        ListCombine(mem, p, q, start, lines, more, endedLater);
        assert ListRun(p, hs) == (lines + more, endedLater);
      } else {
        assert ListRun(p, hs) == (lines, ended);
      }
    }
  }

  lemma ListCombine(mem: Memory, p: Parser, q: Parser, start: nat, lines: seq<Line>, more: seq<Line>, ended: bool)
    requires q.reqDest == p.reqDest && q.reqType == p.reqType && q.reqOffset == p.reqOffset && q.asked == p.asked
    requires LinesSoFar(q, start) == LinesSoFar(p, start) + lines
    requires exists n: nat :: PrintsSlice(mem, q, start, LinesSoFar(q, start) + more, ended, n)
    ensures exists n: nat :: PrintsSlice(mem, p, start, LinesSoFar(p, start) + (lines + more), ended, n)
  {
    var n: nat :| PrintsSlice(mem, q, start, LinesSoFar(q, start) + more, ended, n);
    assert LinesSoFar(p, start) + (lines + more) == LinesSoFar(q, start) + more;
    assert PrintsSlice(mem, p, start, LinesSoFar(p, start) + (lines + more), ended, n);
  }

  lemma ListEventCorrect(mem: Memory, p: Parser, start: nat, h: Happening)
    requires IsList(p) && Faithful(mem, p) && ParsedAll(p, start)
    requires h.Reply? ==> h.msg.typ != 0xff && Honest(mem, h.msg)
    ensures var (lines, over, ended, q) := ListEvent(p, h);
            if over
            then exists n: nat :: PrintsSlice(mem, p, start, LinesSoFar(p, start) + lines, ended, n)
            else && IsList(q) && Faithful(mem, q) && ParsedAll(q, start)
                 && q.reqDest == p.reqDest && q.reqType == p.reqType && q.reqOffset == p.reqOffset
                 && q.asked == p.asked && LinesSoFar(q, start) == LinesSoFar(p, start) + lines
  {
    hide HandleReply, RecordLoop, Honest;
    var before := LinesSoFar(p, start);
    assert before + [] == before;
    match h
    case Expiry =>
      assert Slice(mem(p.reqDest, p.reqType), p.reqOffset, |p.response|) == p.response;
      assert PrintsSlice(mem, p, start, before + [], false, |p.response|);
    case Reply(msg) =>
      ReassemblySafe(mem, p, msg);
      if p.active.Some? && Matches(p, msg) {
        ListStep(mem, p, start, msg);
      }
  }

  lemma ListStep(mem: Memory, p: Parser, start: nat, msg: EmsMessage)
    requires IsList(p) && Faithful(mem, p) && ParsedAll(p, start)
    requires msg.typ != 0xff && Honest(mem, msg) && p.active.Some? && Matches(p, msg)
    ensures var e := OnIncomingMessage(p, msg);
            && (EndsList(p, e) ==>
                  exists n: nat :: PrintsSlice(mem, p, start, LinesSoFar(p, start) + e.lines, true, n))
            && (!EndsList(p, e) ==>
                  && IsList(e.p) && ParsedAll(e.p, start)
                  && e.p.reqDest == p.reqDest && e.p.reqType == p.reqType && e.p.reqOffset == p.reqOffset
                  && e.p.asked == p.asked && LinesSoFar(e.p, start) == LinesSoFar(p, start) + e.lines)
  {
    hide HandleReply, RecordLoop, Faithful;
    var e, q := OnIncomingMessage(p, msg), Absorb(p, msg.data);
    AbsorbFaithful(mem, p, msg);
    ListReply(p, msg.data, start);
    assert e.lines == HandleReply(q).lines && e.verdict == HandleReply(q).verdict;
    assert Slice(mem(p.reqDest, p.reqType), p.reqOffset, |q.response|) == q.response;
    if EndsList(p, e) {
      assert PrintsSlice(mem, p, start, LinesSoFar(p, start) + e.lines, true, |q.response|);
    }
  }

  /** An error list that ends without a result is followed by the list of the next type from the same
      device, about which all of the above holds again, counting on from where this one stopped. */
  lemma NextListStarts(mem: Memory, p: Parser, start: nat, msg: EmsMessage)
    requires IsList(p) && Faithful(mem, p) && ParsedAll(p, start)
    requires msg.typ != 0xff && Honest(mem, msg) && p.active.Some? && Matches(p, msg)
    requires var e := OnIncomingMessage(p, msg); EndsList(p, e) && e.verdict == Undecided
    ensures var q := OnIncomingMessage(p, msg).p;
            && p.reqType in {0x10, 0x12} && q.reqType == p.reqType + 1 && q.reqDest == p.reqDest
            && q.reqOffset == 0 && q.active.Some? && IsList(q) && Faithful(mem, q)
            && q.responseCounter == BatchOf(p.reqType, start, p.response + msg.data).counter
            && ParsedAll(q, q.responseCounter) && LinesSoFar(q, q.responseCounter) == []
  {
    hide RecordLoop, Faithful, HandleReply;
    var q := Absorb(p, msg.data);
    var kind, prefix := KindOf(p.reqType), PrefixOf(p.reqType);
    ReassemblySafe(mem, p, msg);
    ListEndsInFollow(q);
    LoopConcat(kind, prefix, p.response, msg.data, 0, start);
    LoopStep(q, kind, prefix);
    assert q.response == p.response + msg.data;
    EmptyBatch(p.reqType + 1, OnIncomingMessage(p, msg).p);
  }

  lemma ListEndsInFollow(q: Parser)
    requires IsList(q)
    requires HandleReply(q).verdict == Undecided && HandleReply(q).p.reqType != q.reqType
    ensures q.reqType in {0x10, 0x12}
    ensures var l, r := LoopOverResponse(q, KindOf(q.reqType), PrefixOf(q.reqType)), HandleReply(q).p;
            && r.reqType == q.reqType + 1 && r.reqDest == q.reqDest && r.reqOffset == 0 && r.active.Some?
            && !r.outputRaw && r.response == [] && r.parsePosition == 0
            && r.responseCounter == l.p.responseCounter
  {
    hide RecordLoop;
    LoopKeepsRequest(q, KindOf(q.reqType), PrefixOf(q.reqType));
  }

  lemma EmptyBatch(t: byte, q: Parser)
    requires q.response == [] && q.parsePosition == 0 && q.reqType == t
    ensures ParsedAll(q, q.responseCounter) && LinesSoFar(q, q.responseCounter) == []
  {
  }

  predicate IsListCommand(cmd: Command) {
    cmd.UbaGetErrors? || cmd.RcGetErrors? || cmd.HkGetSchedule? || cmd.WwGetSchedule? || cmd.ZirkGetSchedule?
  }

  /** The same for the commands: from an idle parser, whatever it did before, records count from one. */
  lemma ListCommandCorrect(mem: Memory, p: Parser, cmd: Command, hs: seq<Happening>)
    requires p.active.None? && IsListCommand(cmd) && HonestAll(mem, hs)
    ensures var q := Parse(p, cmd).p;
            exists n: nat :: PrintsSlice(mem, q, 0, ListRun(q, hs).0, ListRun(q, hs).1, n)
  {
    hide Parse, ListRun, PrintsSlice, Faithful, ParsedAll, IsList, LinesSoFar, HonestAll;
    var q := Parse(p, cmd).p;
    ListBegins(mem, p, cmd);
    ListCorrect(mem, q, 0, hs);
    assert LinesSoFar(q, 0) + ListRun(q, hs).0 == ListRun(q, hs).0;
  }

  lemma ListBegins(mem: Memory, p: Parser, cmd: Command)
    requires p.active.None? && IsListCommand(cmd)
    ensures var q := Parse(p, cmd).p;
            IsList(q) && Faithful(mem, q) && ParsedAll(q, 0) && LinesSoFar(q, 0) == [] && q.active.Some?
  {
  }
}
