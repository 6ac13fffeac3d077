/** The command scheduler of collector/CommandScheduler.cpp: one request in flight, a queue behind it,
    a response timeout, and a timer that keeps requests to one device apart. Times in microseconds. */
module Scheduler {
  import opened Bytes
  import opened Wrappers
  import opened Messages

  const REQUEST_TIMEOUT: int := 1_000_000
  const MIN_DISTANCE: int := 100_000

  datatype Entry = Entry(client: nat, msg: EmsMessage)

  datatype Armed = Armed(msg: EmsMessage, due: int)

  /** A transmission: what, and when. */
  datatype Sent = Sent(msg: EmsMessage, at: int)

  /** `current` names the current client and, as history, the entry that made it current. `armed` is
      the delayed send; `cancelled` are delayed sends whose timer was re-armed under them and whose
      handlers still run. `submitted` and `wire` are history. */
  datatype Sender = Sender(
    current: Option<Entry>, pending: seq<Entry>, lastComm: map<byte, int>,
    armed: Option<Armed>, cancelled: seq<EmsMessage>, deadline: Option<int>,
    submitted: seq<EmsMessage>, wire: seq<Sent>)

  const IDLE: Sender := Sender(None, [], map[], None, [], None, [], [])

  /** doSendMessage */
  function Transmit(s: Sender, msg: EmsMessage, now: int): Sender {
    var device := msg.GetDestination();
    s.(wire := s.wire + [Sent(msg, now)],
       deadline := Some(now + REQUEST_TIMEOUT),
       lastComm := s.lastComm[device := now])
  }

  /** Whether a message has to wait: the difference counts in whole milliseconds. */
  predicate TooSoon(s: Sender, msg: EmsMessage, now: int) {
    var device := msg.GetDestination();
    device in s.lastComm && now - s.lastComm[device] < MIN_DISTANCE + 1000
  }

  /** sendMessage(message): at once, or by timer; re-arming the timer cancels a wait without stopping
      its handler. */
  function Dispatch(s: Sender, msg: EmsMessage, now: int): Sender {
    if TooSoon(s, msg, now) then
      s.(armed := Some(Armed(msg, s.lastComm[msg.GetDestination()] + MIN_DISTANCE)),
         cancelled := if s.armed.Some? then s.cancelled + [s.armed.value.msg] else s.cancelled)
    else Transmit(s, msg, now)
  }

  function ContinueWithNextRequest(s: Sender, now: int): Sender {
    if s.pending == [] then s.(current := None)
    else
      var item := s.pending[0];
      Dispatch(s.(current := Some(item), pending := s.pending[1..]), item.msg, now)
  }

  /** sendMessage(client, message) */
  function Submit(s: Sender, client: nat, msg: EmsMessage, now: int): Sender {
    var queued := s.(pending := s.pending + [Entry(client, msg)], submitted := s.submitted + [msg]);
    if s.current.None? then ContinueWithNextRequest(queued, now) else queued
  }

  function SubmitAll(s: Sender, client: nat, msgs: seq<EmsMessage>, now: int): Sender {
    if msgs == [] then s else Submit(SubmitAll(s, client, msgs[..|msgs| - 1], now), client, msgs[|msgs| - 1], now)
  }

  /** What handlePcMessage does before the client sees the message. */
  function NoteReply(s: Sender, source: byte, now: int): Sender {
    s.(lastComm := s.lastComm[source := now], deadline := None)
  }

  /** The delayed send's timer expires. */
  function FireSend(s: Sender, now: int): Sender
    requires s.armed.Some?
  {
    Transmit(s.(armed := None), s.armed.value.msg, now)
  }

  /** The handler of a cancelled delayed send runs; it does not look at the error code. */
  function FireCancelled(s: Sender, now: int): Sender
    requires s.cancelled != []
  {
    Transmit(s.(cancelled := s.cancelled[1..]), s.cancelled[0], now)
  }

  /** A message goes out at once unless its device was contacted within 100 ms, counted in whole
      milliseconds; then it is due 100 ms after that contact. Nothing waits without that reason. */
  lemma DispatchExactly(s: Sender, msg: EmsMessage, now: int)
    ensures var d, u := msg.dest % 128, Dispatch(s, msg, now);
            if d in s.lastComm && (now - s.lastComm[d]) / 1000 <= 100
            then u.armed == Some(Armed(msg, s.lastComm[d] + 100_000)) && u.wire == s.wire && u.lastComm == s.lastComm
                 && u.deadline == s.deadline
            else u.wire == s.wire + [Sent(msg, now)] && u.lastComm == s.lastComm[d := now] && u.armed == s.armed
                 && u.deadline == Some(now + 1_000_000)
  {
  }

  /** The response timeout, if set, is a second after the last transmission. */
  predicate TimeoutSet(s: Sender) {
    s.deadline.Some? ==> s.wire != [] && s.deadline.value == s.wire[|s.wire| - 1].at + 1_000_000
  }

  lemma ContinueSetsTimeout(s: Sender, now: int)
    requires TimeoutSet(s)
    ensures TimeoutSet(ContinueWithNextRequest(s, now))
  {
  }

  lemma {:induction false} SubmitAllSetsTimeout(s: Sender, client: nat, msgs: seq<EmsMessage>, now: int)
    requires TimeoutSet(s)
    ensures TimeoutSet(SubmitAll(s, client, msgs, now))
  {
    hide ContinueWithNextRequest;
    if msgs != [] {
      var k := |msgs| - 1;
      var t := SubmitAll(s, client, msgs[..k], now);
      SubmitAllSetsTimeout(s, client, msgs[..k], now);
      ContinueSetsTimeout(t.(pending := t.pending + [Entry(client, msgs[k])],
                             submitted := t.submitted + [msgs[k]]), now);
    }
  }

  // ---- Conservation: every submitted message is somewhere, exactly once ----

  function WireMessages(wire: seq<Sent>): seq<EmsMessage> {
    seq(|wire|, i requires 0 <= i < |wire| => wire[i].msg)
  }

  function PendingMessages(pending: seq<Entry>): seq<EmsMessage> {
    seq(|pending|, i requires 0 <= i < |pending| => pending[i].msg)
  }

  function ArmedMessages(armed: Option<Armed>): seq<EmsMessage> {
    if armed.Some? then [armed.value.msg] else []
  }

  /** In any run: submitted messages are, as a multiset, those sent, waiting on the timer, cancelled but
      still to be sent, and queued. So none is sent twice and none is lost. */
  ghost predicate Conserved(s: Sender) {
    multiset(s.submitted) == multiset(WireMessages(s.wire)) + multiset(ArmedMessages(s.armed))
                             + multiset(s.cancelled) + multiset(PendingMessages(s.pending))
  }

  /** In orderly runs, order is kept too, and nothing is cancelled. */
  ghost predicate InOrder(s: Sender) {
    s.submitted == WireMessages(s.wire) + ArmedMessages(s.armed) + PendingMessages(s.pending) && s.cancelled == []
  }

  /** No current client, no work; and whoever is current is waited for by some timer. */
  predicate Live(s: Sender) {
    && Quiet(s)
    && (s.current.Some? ==> s.armed.Some? || s.deadline.Some? || s.cancelled != [])
  }

  lemma WireSnoc(s: Sender, msg: EmsMessage, now: int)
    ensures WireMessages(Transmit(s, msg, now).wire) == WireMessages(s.wire) + [msg]
  {
  }

  lemma PendingHead(s: Sender)
    requires s.pending != []
    ensures PendingMessages(s.pending) == [s.pending[0].msg] + PendingMessages(s.pending[1..])
  {
  }

  lemma DispatchConserves(s: Sender, msg: EmsMessage, now: int)
    requires multiset(s.submitted) == multiset(WireMessages(s.wire)) + multiset(ArmedMessages(s.armed))
             + multiset(s.cancelled) + multiset(PendingMessages(s.pending)) + multiset{msg}
    ensures Conserved(Dispatch(s, msg, now))
  {
    if !TooSoon(s, msg, now) {
      WireSnoc(s, msg, now);
    }
  }

  lemma ContinueConserves(s: Sender, now: int)
    requires Conserved(s)
    ensures Conserved(ContinueWithNextRequest(s, now))
    ensures Live(ContinueWithNextRequest(s, now))
  {
    if s.pending != [] {
      PendingHead(s);
      DispatchConserves(s.(current := Some(s.pending[0]), pending := s.pending[1..]), s.pending[0].msg, now);
    }
  }

  predicate Quiet(s: Sender) {
    s.current.None? ==> s.pending == []
  }

  lemma PendingSnoc(pending: seq<Entry>, item: Entry)
    ensures PendingMessages(pending + [item]) == PendingMessages(pending) + [item.msg]
  {
  }

  lemma SubmitConserves(s: Sender, client: nat, msg: EmsMessage, now: int)
    requires Conserved(s) && Quiet(s)
    ensures Conserved(Submit(s, client, msg, now)) && Quiet(Submit(s, client, msg, now))
    ensures Live(s) ==> Live(Submit(s, client, msg, now))
  {
    hide Dispatch, PendingMessages, WireMessages, ArmedMessages;
    var queued := s.(pending := s.pending + [Entry(client, msg)], submitted := s.submitted + [msg]);
    PendingSnoc(s.pending, Entry(client, msg));
    if s.current.None? {
      ContinueConserves(queued, now);
    }
  }

  lemma FireConserves(s: Sender, now: int)
    requires Conserved(s) && Live(s)
    ensures s.armed.Some? ==> Conserved(FireSend(s, now)) && Live(FireSend(s, now))
    ensures s.cancelled != [] ==> Conserved(FireCancelled(s, now)) && Live(FireCancelled(s, now))
  {
    if s.armed.Some? {
      WireSnoc(s.(armed := None), s.armed.value.msg, now);
    }
    if s.cancelled != [] {
      WireSnoc(s.(cancelled := s.cancelled[1..]), s.cancelled[0], now);
      assert s.cancelled == [s.cancelled[0]] + s.cancelled[1..];
    }
  }

  // ---- Order and spacing, as long as no message for the PC arrives while a delayed send is armed ----

  /** Since contact with a device at time `t`, when `n` messages had been sent, the device has not been
      sent anything within 100 ms of it; and the scheduler remembers a contact that late. */
  ghost predicate Since(s: Sender, device: byte, t: int, n: nat) {
    && device in s.lastComm && s.lastComm[device] >= t
    && forall j | n <= j < |s.wire| && s.wire[j].msg.GetDestination() == device :: s.wire[j].at >= t + MIN_DISTANCE
  }

  /** So it is since every transmission; none is later than `clock`. */
  ghost predicate Spaced(s: Sender, clock: int) {
    forall i | 0 <= i < |s.wire| ::
      s.wire[i].at <= clock && Since(s, s.wire[i].msg.GetDestination(), s.wire[i].at, i + 1)
  }

  ghost predicate Tidy(s: Sender, clock: int) {
    && InOrder(s) && Spaced(s, clock)
    && (s.armed.Some? ==>
          var device := s.armed.value.msg.GetDestination();
          s.deadline.None? && device in s.lastComm && s.armed.value.due == s.lastComm[device] + MIN_DISTANCE)
  }

  ghost predicate Orderly(s: Sender, clock: int) {
    Tidy(s, clock) && Live(s) && (s.current.None? ==> s.armed.None? && s.deadline.None?)
  }

  lemma LaterTidy(s: Sender, clock: int, now: int)
    requires clock <= now
    ensures Tidy(s, clock) ==> Tidy(s, now)
    ensures Orderly(s, clock) ==> Orderly(s, now)
  {
    hide Since;
  }

  /** The last contact with the device is far enough back. */
  predicate Clear(s: Sender, msg: EmsMessage, now: int) {
    var device := msg.GetDestination();
    device in s.lastComm ==> s.lastComm[device] + MIN_DISTANCE <= now
  }

  lemma TransmitSince(s: Sender, msg: EmsMessage, now: int, device: byte, t: int, n: nat)
    requires Since(s, device, t, n) && Clear(s, msg, now)
    ensures Since(Transmit(s, msg, now), device, t, n)
  {
  }

  lemma TransmitSpaced(s: Sender, msg: EmsMessage, now: int)
    requires Spaced(s, now) && Clear(s, msg, now)
    ensures Spaced(Transmit(s, msg, now), now)
  {
    hide Clear;
    var u := Transmit(s, msg, now);
    forall i | 0 <= i < |u.wire| ensures Since(u, u.wire[i].msg.GetDestination(), u.wire[i].at, i + 1) {
      if i < |s.wire| {
        TransmitSince(s, msg, now, s.wire[i].msg.GetDestination(), s.wire[i].at, i + 1);
      }
    }
  }

  /** Taking the next request keeps what holds since any contact. */
  lemma ContinueSince(s: Sender, now: int, device: byte, t: int, n: nat)
    requires Since(s, device, t, n)
    ensures Since(ContinueWithNextRequest(s, now), device, t, n)
  {
    hide Since;
    if s.pending != [] {
      var u := s.(current := Some(s.pending[0]), pending := s.pending[1..]);
      SameContacts(s, u, device, t, n);
      if TooSoon(u, s.pending[0].msg, now) {
        SameContacts(u, Dispatch(u, s.pending[0].msg, now), device, t, n);
      } else {
        TransmitSince(u, s.pending[0].msg, now, device, t, n);
      }
    } else {
      SameContacts(s, s.(current := None), device, t, n);
    }
  }

  lemma SameContacts(s: Sender, u: Sender, device: byte, t: int, n: nat)
    requires u.lastComm == s.lastComm && u.wire == s.wire
    ensures Since(u, device, t, n) == Since(s, device, t, n)
  {
  }

  lemma SubmitSince(s: Sender, client: nat, msg: EmsMessage, now: int, device: byte, t: int, n: nat)
    requires Since(s, device, t, n)
    ensures Since(Submit(s, client, msg, now), device, t, n)
  {
    hide Since, ContinueWithNextRequest;
    var queued := s.(pending := s.pending + [Entry(client, msg)], submitted := s.submitted + [msg]);
    SameContacts(s, queued, device, t, n);
    if s.current.None? {
      ContinueSince(queued, now, device, t, n);
    }
  }

  lemma {:induction false} SubmitAllSince(s: Sender, client: nat, msgs: seq<EmsMessage>, now: int,
                                          device: byte, t: int, n: nat)
    requires Since(s, device, t, n)
    ensures Since(SubmitAll(s, client, msgs, now), device, t, n)
  {
    hide Since, Submit;
    if msgs != [] {
      var k := |msgs| - 1;
      SubmitAllSince(s, client, msgs[..k], now, device, t, n);
      SubmitSince(SubmitAll(s, client, msgs[..k], now), client, msgs[k], now, device, t, n);
    }
  }

  lemma ContinueOrderly(s: Sender, now: int)
    requires Tidy(s, now) && s.armed.None? && s.deadline.None?
    ensures Orderly(ContinueWithNextRequest(s, now), now)
  {
    hide Since, Spaced;
    if s.pending != [] {
      var item := s.pending[0];
      var t := s.(current := Some(item), pending := s.pending[1..]);
      PendingHead(s);
      WireSnoc(t, item.msg, now);
      SameSpaced(s, t, now);
      if TooSoon(t, item.msg, now) {
        SameSpaced(t, Dispatch(t, item.msg, now), now);
      } else {
        TransmitSpaced(t, item.msg, now);
      }
      assert WireMessages(s.wire) + [] + ([item.msg] + PendingMessages(t.pending))
          == WireMessages(s.wire) + [item.msg] + PendingMessages(t.pending);
    } else {
      SameSpaced(s, s.(current := None), now);
    }
  }

  lemma SameSpaced(s: Sender, u: Sender, clock: int)
    requires u.lastComm == s.lastComm && u.wire == s.wire
    ensures Spaced(u, clock) == Spaced(s, clock)
  {
    forall device, t, n ensures Since(u, device, t, n) == Since(s, device, t, n) {
      SameContacts(s, u, device, t, n);
    }
  }

  lemma SubmitOrderly(s: Sender, client: nat, msg: EmsMessage, now: int)
    requires Orderly(s, now)
    ensures Orderly(Submit(s, client, msg, now), now)
  {
    hide Spaced;
    var queued := QueuedOrderly(s, client, msg, now);
    if s.current.None? {
      ContinueOrderly(queued, now);
    }
  }

  lemma QueuedOrderly(s: Sender, client: nat, msg: EmsMessage, clock: int) returns (queued: Sender)
    requires Tidy(s, clock)
    ensures queued == s.(pending := s.pending + [Entry(client, msg)], submitted := s.submitted + [msg])
    ensures Tidy(queued, clock)
  {
    hide Spaced;
    queued := s.(pending := s.pending + [Entry(client, msg)], submitted := s.submitted + [msg]);
    SameSpaced(s, queued, clock);
    assert PendingMessages(queued.pending) == PendingMessages(s.pending) + [msg];
    assert s.submitted + [msg] == WireMessages(s.wire) + ArmedMessages(s.armed) + (PendingMessages(s.pending) + [msg]);
  }

  lemma FireSendOrderly(s: Sender, now: int)
    requires Orderly(s, now) && s.armed.Some? && s.armed.value.due <= now
    ensures Orderly(FireSend(s, now), now)
  {
    hide Since, Spaced;
    WireSnoc(s.(armed := None), s.armed.value.msg, now);
    SameSpaced(s, s.(armed := None), now);
    TransmitSpaced(s.(armed := None), s.armed.value.msg, now);
  }

  lemma FireSendSince(s: Sender, now: int, device: byte, t: int, n: nat)
    requires Tidy(s, now) && s.armed.Some? && s.armed.value.due <= now && Since(s, device, t, n)
    ensures Since(FireSend(s, now), device, t, n)
  {
    hide Since, Spaced;
    SameContacts(s, s.(armed := None), device, t, n);
    TransmitSince(s.(armed := None), s.armed.value.msg, now, device, t, n);
  }

  /** A reply is contact with the device it came from, and none before was later. */
  lemma NoteReplySince(s: Sender, source: byte, now: int, device: byte, t: int, n: nat)
    ensures Since(s, device, t, n) && t <= now ==> Since(NoteReply(s, source, now), device, t, n)
    ensures Since(NoteReply(s, source, now), source, now, |s.wire|)
  {
  }

  lemma NoteReplySpaced(s: Sender, source: byte, now: int)
    requires Spaced(s, now)
    ensures Spaced(NoteReply(s, source, now), now)
  {
    hide Since;
    var u := NoteReply(s, source, now);
    forall i | 0 <= i < |u.wire| ensures Since(u, u.wire[i].msg.GetDestination(), u.wire[i].at, i + 1) {
      NoteReplySince(s, source, now, s.wire[i].msg.GetDestination(), s.wire[i].at, i + 1);
    }
  }
}
