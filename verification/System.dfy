/** Several clients, one scheduler, and a bus that may lose, delay, repeat and reorder messages. */
module System {
  import opened Bytes
  import opened Wrappers
  import opened Messages
  import opened Scheduler
  import opened Requests
  import opened Progress

  datatype Collector = Collector(sender: Sender, parsers: seq<Parser>)

  /** Events, each with the time it is handled. A client told a final result may use the callback to
      submit its next command at once (`next`). */
  datatype Event =
    | Submission(client: nat, cmd: Command, now: int)
    | PcMessage(msg: EmsMessage, next: Option<Command>, now: int)
    | Timeout(next: Option<Command>, now: int)
    | SendTimer(now: int)
    | CancelledSend(now: int)

  /** Events that can happen: timers only fire if set. The response timeout may fire in any state, which
      covers completions already queued when the timer is cancelled. */
  predicate Possible(c: Collector, e: Event) {
    match e
    case Submission(client, _, _) => client < |c.parsers|
    case SendTimer(_) => c.sender.armed.Some?
    case CancelledSend(_) => c.sender.cancelled != []
    case _ => c.sender.current.Some? ==> c.sender.current.value.client < |c.parsers|
  }

  /** The client an event reaches. */
  function Actor(c: Collector, e: Event): Option<nat> {
    match e
    case Submission(client, _, _) => Some(client)
    case PcMessage(_, _, _) => CurrentClient(c.sender)
    case Timeout(_, _) => CurrentClient(c.sender)
    case _ => None
  }

  function CurrentClient(s: Sender): Option<nat> {
    if s.current.Some? then Some(s.current.value.client) else None
  }

  /** A further command, right after a result, if the client has one. */
  function Further(p: Parser, decided: bool, next: Option<Command>): Effect {
    if decided && next.Some? then Parse(p, next.value) else Done(p, [], Undecided)
  }

  /** What a parser does on an event: its effect, whether the client hears a final result, and the effect
      of the command that may follow. */
  function React(p: Parser, e: Event): (Effect, bool, Effect) {
    match e
    case Submission(_, cmd, _) =>
      var f := Parse(p, cmd);
      (f, false, Done(f.p, [], Undecided))
    case PcMessage(msg, next, _) =>
      var f := OnIncomingMessage(p, msg);
      (f, f.verdict != Undecided, Further(f.p, f.verdict != Undecided, next))
    case Timeout(next, _) =>
      var (f, gaveUp) := OnTimeout(p);
      (f, gaveUp, Further(f.p, gaveUp, next))
    case _ => (Done(p, [], Undecided), false, Done(p, [], Undecided))
  }

  /** The lines an event outputs to a client. */
  function Told(c: Collector, e: Event, client: nat): seq<Line>
    requires Possible(c, e)
  {
    if Actor(c, e) != Some(client) then []
    else
      var (f, _, g) := React(c.parsers[client], e);
      f.lines + g.lines
  }

  function ToldInRun(c: Collector, es: seq<Event>, client: nat): seq<Line>
    requires PossibleRun(c, es)
    decreases |es|
  {
    if es == [] then [] else Told(c, es[0], client) + ToldInRun(Step(c, es[0]), es[1..], client)
  }

  predicate IsResponse(e: Event) {
    e.PcMessage? || e.Timeout?
  }

  /** The scheduler's side: note the event, queue what the client sends, and after a response go on with
      the next request. */
  function SenderStep(s: Sender, e: Event, client: nat, first: seq<EmsMessage>, second: seq<EmsMessage>): Sender {
    match e
    case Submission(_, _, now) => SubmitAll(s, client, first, now)
    case PcMessage(msg, _, now) => Respond(NoteReply(s, msg.source, now), client, first, second, now)
    case Timeout(_, now) => Respond(s.(deadline := None), client, first, second, now)
    case SendTimer(now) => if s.armed.Some? then FireSend(s, now) else s
    case CancelledSend(now) => if s.cancelled != [] then FireCancelled(s, now) else s
  }

  function Respond(s: Sender, client: nat, first: seq<EmsMessage>, second: seq<EmsMessage>, now: int): Sender {
    ContinueWithNextRequest(SubmitAll(SubmitAll(s, client, first, now), client, second, now), now)
  }

  function Step(c: Collector, e: Event): Collector
    requires Possible(c, e)
  {
    match Actor(c, e)
    case None => c.(sender := SenderStep(c.sender, e, 0, [], []))
    case Some(client) =>
      var (f, decided, g) := React(c.parsers[client], e);
      Collector(SenderStep(c.sender, e, client, f.sends, g.sends), c.parsers[client := g.p])
  }

  ghost predicate PossibleRun(c: Collector, es: seq<Event>)
    decreases |es|
  {
    es == [] || (Possible(c, es[0]) && PossibleRun(Step(c, es[0]), es[1..]))
  }

  function Run(c: Collector, es: seq<Event>): Collector
    requires PossibleRun(c, es)
    decreases |es|
  {
    if es == [] then c else Run(Step(c, es[0]), es[1..])
  }

  /** At the start: an idle scheduler and parsers that have not asked for anything. */
  predicate Initial(c: Collector) {
    && c.sender == IDLE
    && forall i | 0 <= i < |c.parsers| :: c.parsers[i].active.None? && FreshRequest(c.parsers[i])
  }

  // ---- Ownership ----

  /** All entries: the current one, then the queue. */
  function Entries(s: Sender): seq<Entry> {
    (if s.current.Some? then [s.current.value] else []) + s.pending
  }

  /** No client occurs twice among the entries, and every entry is its client's active request. */
  ghost predicate OwnedBy(entries: seq<Entry>, parsers: seq<Parser>) {
    && (forall i, j | 0 <= i < j < |entries| :: entries[i].client != entries[j].client)
    && (forall i | 0 <= i < |entries| ::
          entries[i].client < |parsers| && parsers[entries[i].client].active == Some(entries[i].msg))
  }

  ghost predicate AllCounted(parsers: seq<Parser>) {
    forall i | 0 <= i < |parsers| :: Counted(parsers[i])
  }

  ghost predicate Owned(c: Collector) {
    && Live(c.sender) && Conserved(c.sender) && AllCounted(c.parsers)
    && OwnedBy(Entries(c.sender), c.parsers)
  }

  predicate HasEntry(s: Sender, client: nat) {
    exists i | 0 <= i < |Entries(s)| :: Entries(s)[i].client == client
  }

  lemma ContinueEntries(s: Sender, now: int)
    ensures Entries(ContinueWithNextRequest(s, now)) == s.pending
  {
  }

  lemma SubmitEntries(s: Sender, client: nat, msg: EmsMessage, now: int)
    requires Live(s)
    ensures Entries(Submit(s, client, msg, now)) == Entries(s) + [Entry(client, msg)]
  {
    if s.current.None? {
      ContinueEntries(s.(pending := s.pending + [Entry(client, msg)], submitted := s.submitted + [msg]), now);
    }
  }

  lemma SubmitAllOne(s: Sender, client: nat, msgs: seq<EmsMessage>, now: int)
    requires |msgs| <= 1
    ensures SubmitAll(s, client, msgs, now) == if msgs == [] then s else Submit(s, client, msgs[0], now)
  {
    if msgs != [] {
      assert msgs[..0] == [];
      assert SubmitAll(s, client, [], now) == s;
    }
  }

  /** A client without an entry gets one, for its active request. */
  lemma AddEntry(entries: seq<Entry>, parsers: seq<Parser>, client: nat, p: Parser, sends: seq<EmsMessage>)
    requires OwnedBy(entries, parsers) && client < |parsers|
    requires forall i | 0 <= i < |entries| :: entries[i].client != client
    requires |sends| <= 1 && (sends != [] ==> p.active == Some(sends[0]))
    ensures OwnedBy(entries + (if sends == [] then [] else [Entry(client, sends[0])]), parsers[client := p])
  {
  }

  lemma UpdateCounted(parsers: seq<Parser>, client: nat, p: Parser)
    requires AllCounted(parsers) && client < |parsers| && Counted(p)
    ensures AllCounted(parsers[client := p])
  {
  }

  /** What a client sends on an event, and what its request is then. */
  predicate Sound(p: Parser, e: Event) {
    var (f, decided, g) := React(p, e);
    && |f.sends| <= 1 && |g.sends| <= 1 && (f.sends == [] || g.sends == [])
    && (f.sends + g.sends != [] ==> g.p.active == Some((f.sends + g.sends)[0]))
    && (!IsResponse(e) ==> g.sends == []) && (!IsResponse(e) && !e.Submission? ==> f.sends == [])
    && Counted(g.p)
  }

  lemma ReactSound(p: Parser, e: Event)
    requires Counted(p) && (IsResponse(e) ==> p.active.Some?)
    ensures Sound(p, e)
  {
    match e
    case Submission(_, cmd, _) =>
      if p.active.None? {
        CommandPays(p, cmd);
      }
    case PcMessage(msg, next, _) =>
      MessagePays(p, msg);
      FurtherSound(OnIncomingMessage(p, msg).p, next);
    case Timeout(next, _) =>
      TimeoutPays(p);
      FurtherSound(OnTimeout(p).0.p, next);
    case _ =>
  }

  lemma FurtherSound(p: Parser, next: Option<Command>)
    requires Counted(p)
    ensures var g := Further(p, true, next);
            Counted(g.p) && |g.sends| <= 1 && (g.sends != [] ==> g.p.active == Some(g.sends[0]))
  {
    if next.Some? && p.active.None? {
      CommandPays(p, next.value);
    }
  }

  lemma BusyRefuses(p: Parser, e: Event)
    requires p.active.Some? && e.Submission?
    ensures React(p, e) == (Done(p, [], Undecided), false, Done(p, [], Undecided))
  {
  }

  /** The entries after an event: a response takes the first away, and what the client sends, at most
      one message, goes to the end. */
  function EntriesAfter(entries: seq<Entry>, e: Event, client: nat, sends: seq<EmsMessage>): seq<Entry> {
    (if IsResponse(e) && entries != [] then entries[1..] else entries)
    + (if sends == [] then [] else [Entry(client, sends[0])])
  }

  lemma SenderStepEntries(s: Sender, e: Event, client: nat, first: seq<EmsMessage>, second: seq<EmsMessage>)
    requires Live(s) && Conserved(s)
    requires |first| <= 1 && |second| <= 1 && (first == [] || second == [])
    requires s.current.None? && IsResponse(e) ==> first == [] && second == []
    requires !IsResponse(e) && !e.Submission? ==> first == []
    requires !IsResponse(e) ==> second == []
    ensures Live(SenderStep(s, e, client, first, second)) && Conserved(SenderStep(s, e, client, first, second))
    ensures Entries(SenderStep(s, e, client, first, second)) == EntriesAfter(Entries(s), e, client, first + second)
  {
    if IsResponse(e) {
      ResponseStepEntries(s, e, client, first, second);
    } else {
      OtherStepEntries(s, e, client, first);
      assert first + second == first;
    }
  }

  lemma ResponseStepEntries(s: Sender, e: Event, client: nat, first: seq<EmsMessage>, second: seq<EmsMessage>)
    requires Live(s) && Conserved(s) && IsResponse(e)
    requires |first| <= 1 && |second| <= 1 && (first == [] || second == [])
    requires s.current.None? ==> first == [] && second == []
    ensures Live(SenderStep(s, e, client, first, second)) && Conserved(SenderStep(s, e, client, first, second))
    ensures Entries(SenderStep(s, e, client, first, second)) == EntriesAfter(Entries(s), e, client, first + second)
  {
    var t := if e.PcMessage? then NoteReply(s, e.msg.source, e.now) else s.(deadline := None);
    assert s.pending == if Entries(s) == [] then [] else Entries(s)[1..];
    ResponseEntries(t, client, first, second, e.now);
  }

  lemma OtherStepEntries(s: Sender, e: Event, client: nat, first: seq<EmsMessage>)
    requires Live(s) && Conserved(s) && !IsResponse(e)
    requires |first| <= 1 && (!e.Submission? ==> first == [])
    ensures Live(SenderStep(s, e, client, first, [])) && Conserved(SenderStep(s, e, client, first, []))
    ensures Entries(SenderStep(s, e, client, first, [])) == EntriesAfter(Entries(s), e, client, first)
  {
    hide PendingMessages, WireMessages, ArmedMessages;
    if e.Submission? {
      SubmissionEntries(s, client, first, e.now);
    } else {
      FireConserves(s, e.now);
      assert Entries(s) + [] == Entries(s);
    }
  }

  lemma SubmissionEntries(s: Sender, client: nat, sends: seq<EmsMessage>, now: int)
    requires Live(s) && Conserved(s) && |sends| <= 1
    ensures var t := SubmitAll(s, client, sends, now);
            && Live(t) && Conserved(t)
            && Entries(t) == Entries(s) + (if sends == [] then [] else [Entry(client, sends[0])])
  {
    SubmitAllOne(s, client, sends, now);
    if sends != [] {
      SubmitConserves(s, client, sends[0], now);
      SubmitEntries(s, client, sends[0], now);
    }
  }

  lemma ResponseEntries(s: Sender, client: nat, first: seq<EmsMessage>, second: seq<EmsMessage>, now: int)
    requires Quiet(s) && Conserved(s)
    requires |first| <= 1 && |second| <= 1 && (first == [] || second == [])
    requires s.current.None? ==> first == [] && second == []
    ensures var sends := first + second;
            var t := Respond(s, client, first, second, now);
            && Live(t) && Conserved(t)
            && Entries(t) == s.pending + (if sends == [] then [] else [Entry(client, sends[0])])
  {
    var sends := first + second;
    SubmitAllOne(s, client, first, now);
    SubmitAllOne(SubmitAll(s, client, first, now), client, second, now);
    var queued := SubmitAll(SubmitAll(s, client, first, now), client, second, now);
    if sends != [] {
      assert sends[0] == if first != [] then first[0] else second[0];
      SubmitConserves(s, client, sends[0], now);
    }
    ContinueConserves(queued, now);
    ContinueEntries(queued, now);
  }

  lemma OwnedTail(entries: seq<Entry>, parsers: seq<Parser>)
    requires OwnedBy(entries, parsers) && entries != []
    ensures OwnedBy(entries[1..], parsers)
    ensures forall i | 0 <= i < |entries| - 1 :: entries[1..][i].client != entries[0].client
  {
  }

  lemma ParsersAfter(entries: seq<Entry>, parsers: seq<Parser>, e: Event, client: nat)
    requires OwnedBy(entries, parsers) && AllCounted(parsers) && client < |parsers|
    requires IsResponse(e) ==> entries != [] && entries[0].client == client
    requires e.Submission? || IsResponse(e)
    ensures var (f, _, g) := React(parsers[client], e);
            && Sound(parsers[client], e)
            && AllCounted(parsers[client := g.p])
            && OwnedBy(EntriesAfter(entries, e, client, f.sends + g.sends), parsers[client := g.p])
  {
    hide React;
    var p := parsers[client];
    var (f, decided, g) := React(p, e);
    ReactSound(p, e);
    UpdateCounted(parsers, client, g.p);
    if IsResponse(e) {
      OwnedTail(entries, parsers);
      AddEntry(entries[1..], parsers, client, g.p, f.sends + g.sends);
    } else if p.active.None? {
      AddEntry(entries, parsers, client, g.p, f.sends + g.sends);
    } else {
      BusyRefuses(p, e);
      assert parsers[client := g.p] == parsers;
      assert entries + [] == entries;
    }
  }

  /** The entries an event leaves. */
  function NewEntries(c: Collector, e: Event): seq<Entry>
    requires Possible(c, e)
  {
    match Actor(c, e)
    case None => Entries(c.sender)
    case Some(client) =>
      var (f, _, g) := React(c.parsers[client], e);
      EntriesAfter(Entries(c.sender), e, client, f.sends + g.sends)
  }

  // ---- What an event adds to the records of submitted and sent messages ----

  /** Messages the client an event reaches sends on it. */
  function NewSends(c: Collector, e: Event): seq<EmsMessage>
    requires Possible(c, e)
  {
    match Actor(c, e)
    case None => []
    case Some(client) =>
      var (f, _, g) := React(c.parsers[client], e);
      f.sends + g.sends
  }

  /** What was sent stays, and what is new was sent now. */
  ghost predicate Grows(s: Sender, u: Sender, now: int) {
    s.wire <= u.wire && forall j | |s.wire| <= j < |u.wire| :: u.wire[j].at == now
  }

  lemma ContinueGrows(s: Sender, now: int)
    ensures Grows(s, ContinueWithNextRequest(s, now), now)
    ensures ContinueWithNextRequest(s, now).submitted == s.submitted
  {
  }

  lemma {:induction false} SubmitAllGrows(s: Sender, client: nat, msgs: seq<EmsMessage>, now: int)
    ensures Grows(s, SubmitAll(s, client, msgs, now), now)
    ensures SubmitAll(s, client, msgs, now).submitted == s.submitted + msgs
  {
    hide ContinueWithNextRequest;
    if msgs != [] {
      var k := |msgs| - 1;
      var t := SubmitAll(s, client, msgs[..k], now);
      SubmitAllGrows(s, client, msgs[..k], now);
      ContinueGrows(t.(pending := t.pending + [Entry(client, msgs[k])], submitted := t.submitted + [msgs[k]]), now);
      assert s.submitted + msgs == s.submitted + msgs[..k] + [msgs[k]];
    }
  }

  lemma SenderStepGrows(s: Sender, e: Event, client: nat, first: seq<EmsMessage>, second: seq<EmsMessage>)
    requires !IsResponse(e) ==> second == [] && (e.Submission? || first == [])
    ensures Grows(s, SenderStep(s, e, client, first, second), e.now)
    ensures SenderStep(s, e, client, first, second).submitted == s.submitted + (first + second)
  {
    hide ContinueWithNextRequest, SubmitAll;
    if IsResponse(e) {
      var t := if e.PcMessage? then NoteReply(s, e.msg.source, e.now) else s.(deadline := None);
      var u := SubmitAll(t, client, first, e.now);
      SubmitAllGrows(t, client, first, e.now);
      SubmitAllGrows(u, client, second, e.now);
      ContinueGrows(SubmitAll(u, client, second, e.now), e.now);
      assert s.submitted + first + second == s.submitted + (first + second);
    } else {
      assert first + second == first;
      if e.Submission? {
        SubmitAllGrows(s, client, first, e.now);
      }
    }
  }

  /** An event records as submitted exactly what its client sends, and as sent now whatever it sends. */
  lemma StepGrows(c: Collector, e: Event)
    requires Possible(c, e)
    ensures Step(c, e).sender.submitted == c.sender.submitted + NewSends(c, e)
    ensures Grows(c.sender, Step(c, e).sender, e.now)
  {
    hide OnIncomingMessage, OnTimeout, Parse, Further, SenderStep;
    match Actor(c, e)
    case None => SenderStepGrows(c.sender, e, 0, [], []);
    case Some(client) =>
      var (f, _, g) := React(c.parsers[client], e);
      SenderStepGrows(c.sender, e, client, f.sends, g.sends);
  }

  /** All messages clients send in a run, in order. */
  function Requested(c: Collector, es: seq<Event>): seq<EmsMessage>
    requires PossibleRun(c, es)
    decreases |es|
  {
    if es == [] then [] else NewSends(c, es[0]) + Requested(Step(c, es[0]), es[1..])
  }

  lemma {:induction false} RunSubmits(c: Collector, es: seq<Event>)
    requires PossibleRun(c, es)
    ensures Run(c, es).sender.submitted == c.sender.submitted + Requested(c, es)
    decreases |es|
  {
    hide Step, NewSends;
    if es == [] {
      assert c.sender.submitted + [] == c.sender.submitted;
    } else {
      var d := Step(c, es[0]);
      StepGrows(c, es[0]);
      RunSubmits(d, es[1..]);
      assert c.sender.submitted + NewSends(c, es[0]) + Requested(d, es[1..])
          == c.sender.submitted + (NewSends(c, es[0]) + Requested(d, es[1..]));
    }
  }

  /** How many messages had been sent before the event number `k`. */
  function SentBefore(c: Collector, es: seq<Event>, k: nat): nat
    requires PossibleRun(c, es) && k <= |es|
    decreases |es|
  {
    if k == 0 then |c.sender.wire| else SentBefore(Step(c, es[0]), es[1..], k - 1)
  }

  lemma {:induction false} RunGrows(c: Collector, es: seq<Event>)
    requires PossibleRun(c, es)
    ensures c.sender.wire <= Run(c, es).sender.wire
    decreases |es|
  {
    hide Step;
    if es != [] {
      StepGrows(c, es[0]);
      RunGrows(Step(c, es[0]), es[1..]);
    }
  }

  /** Every message on the wire was sent at the time of the event that sent it. */
  lemma {:induction false} SentAtItsEvent(c: Collector, es: seq<Event>, k: nat)
    requires PossibleRun(c, es) && k < |es|
    ensures SentBefore(c, es, k) <= SentBefore(c, es, k + 1) <= |Run(c, es).sender.wire|
    ensures forall j | SentBefore(c, es, k) <= j < SentBefore(c, es, k + 1) :: Run(c, es).sender.wire[j].at == es[k].now
    decreases |es|
  {
    hide Step;
    if k == 0 {
      StepGrows(c, es[0]);
      RunGrows(Step(c, es[0]), es[1..]);
      assert SentBefore(c, es, 1) == SentBefore(Step(c, es[0]), es[1..], 0);
    } else {
      SentAtItsEvent(Step(c, es[0]), es[1..], k - 1);
    }
  }

  lemma SenderStepSetsTimeout(s: Sender, e: Event, client: nat, first: seq<EmsMessage>, second: seq<EmsMessage>)
    requires TimeoutSet(s)
    ensures TimeoutSet(SenderStep(s, e, client, first, second))
  {
    hide ContinueWithNextRequest, SubmitAll;
    if IsResponse(e) {
      var t := if e.PcMessage? then NoteReply(s, e.msg.source, e.now) else s.(deadline := None);
      SubmitAllSetsTimeout(t, client, first, e.now);
      SubmitAllSetsTimeout(SubmitAll(t, client, first, e.now), client, second, e.now);
      ContinueSetsTimeout(SubmitAll(SubmitAll(t, client, first, e.now), client, second, e.now), e.now);
    } else if e.Submission? {
      SubmitAllSetsTimeout(s, client, first, e.now);
    }
  }

  /** In every run the response timeout, if set, is one second after the last transmission. */
  lemma {:induction false} TimeoutAfterASecond(c: Collector, es: seq<Event>)
    requires TimeoutSet(c.sender) && PossibleRun(c, es)
    ensures TimeoutSet(Run(c, es).sender)
    decreases |es|
  {
    hide React, TimeoutSet, SenderStep;
    if es != [] {
      match Actor(c, es[0]) {
        case None => SenderStepSetsTimeout(c.sender, es[0], 0, [], []);
        case Some(client) =>
          var (f, _, g) := React(c.parsers[client], es[0]);
          SenderStepSetsTimeout(c.sender, es[0], client, f.sends, g.sends);
      }
      TimeoutAfterASecond(Step(c, es[0]), es[1..]);
    }
  }

  /** A client that hears OK and has its next command ready has it queued, last, in the same event, and its
      parser is as that command leaves it. */
  lemma NextCommandQueued(c: Collector, e: Event)
    requires Owned(c) && Possible(c, e) && e.PcMessage? && e.next.Some? && c.sender.current.Some?
    requires OnIncomingMessage(c.parsers[c.sender.current.value.client], e.msg).verdict == Success
    requires CommandBytes(e.next.value) > 0
    ensures var client := c.sender.current.value.client;
            var d := Step(c, e);
            var f := OnIncomingMessage(c.parsers[client], e.msg);
            var g := Execute(f.p, e.next.value);
            && d.parsers[client] == g.p && |g.sends| == 1
            && Entries(d.sender) == c.sender.pending + [Entry(client, g.sends[0])]
  {
    hide OnIncomingMessage, Execute, OwnedBy, AllCounted, Conserved, SenderStep;
    var client := c.sender.current.value.client;
    assert Entries(c.sender)[0] == c.sender.current.value;
    CurrentIsActive(c);
    MessagePays(c.parsers[client], e.msg);
    CommandPays(OnIncomingMessage(c.parsers[client], e.msg).p, e.next.value);
    StepKeepsOwned(c, e);
    assert Entries(c.sender)[1..] == c.sender.pending;
  }

  lemma CurrentIsActive(c: Collector)
    requires Owned(c) && c.sender.current.Some?
    ensures var client := c.sender.current.value.client;
            client < |c.parsers| && c.parsers[client].active.Some? && Counted(c.parsers[client])
  {
    assert Entries(c.sender)[0] == c.sender.current.value;
  }

  /** The main invariant: whatever happens, in whatever order. */
  lemma StepKeepsOwned(c: Collector, e: Event)
    requires Owned(c) && Possible(c, e)
    ensures Owned(Step(c, e))
    ensures Entries(Step(c, e).sender) == NewEntries(c, e)
  {
    hide React, OwnedBy, AllCounted, Conserved, SenderStep;
    var entries := Entries(c.sender);
    match Actor(c, e)
    case None =>
      SenderStepEntries(c.sender, e, 0, [], []);
      assert entries + [] == entries;
    case Some(client) =>
      var (f, decided, g) := React(c.parsers[client], e);
      if IsResponse(e) {
        assert entries[0] == c.sender.current.value;
      }
      ParsersAfter(entries, c.parsers, e, client);
      SenderStepEntries(c.sender, e, client, f.sends, g.sends);
  }

  /** Only the client an event reaches can change, and entries only move up, by a response. */
  lemma StepMoves(c: Collector, e: Event, client: nat)
    requires Owned(c) && Possible(c, e) && client < |c.parsers|
    ensures |Step(c, e).parsers| == |c.parsers|
    ensures Actor(c, e) != Some(client) ==> Step(c, e).parsers[client] == c.parsers[client]
    ensures Actor(c, e) == Some(client) ==> Step(c, e).parsers[client] == React(c.parsers[client], e).2.p
    ensures IsResponse(e) && Entries(c.sender) != [] ==> Actor(c, e) == Some(Entries(c.sender)[0].client)
  {
    hide React, SenderStep, OwnedBy, AllCounted, Conserved;
    match Actor(c, e)
    case None =>
    case Some(k) =>
      assert Step(c, e).parsers == c.parsers[k := React(c.parsers[k], e).2.p];
      if IsResponse(e) {
        assert Entries(c.sender)[0] == c.sender.current.value;
      }
  }

  lemma EntryMoves(c: Collector, e: Event, k: nat)
    requires Owned(c) && Possible(c, e) && k < |Entries(c.sender)| && (IsResponse(e) ==> k > 0)
    ensures var k' := if IsResponse(e) then k - 1 else k;
            k' < |Entries(Step(c, e).sender)| && Entries(Step(c, e).sender)[k'] == Entries(c.sender)[k]
  {
    hide React, Step, OwnedBy, AllCounted, Conserved;
    StepKeepsOwned(c, e);
  }

  lemma {:induction false} RunKeepsOwned(c: Collector, es: seq<Event>)
    requires Owned(c) && PossibleRun(c, es)
    ensures Owned(Run(c, es))
    decreases |es|
  {
    if es != [] {
      StepKeepsOwned(c, es[0]);
      RunKeepsOwned(Step(c, es[0]), es[1..]);
    }
  }

  lemma InitialOwned(c: Collector)
    requires Initial(c)
    ensures Owned(c)
  {
  }
}
