/** What clients can rely on: their turn, their result, and when they lose both. */
module Service {
  import opened Bytes
  import opened Wrappers
  import opened Messages
  import opened Scheduler
  import opened Requests
  import opened Progress
  import opened System
  import Dialogue
  import Reassembly

  // ---- Safety of every run ----

  /** From the start, whatever arrives, expires and is asked for, in whatever order: clients own at most
      one entry each, and it is their active request; without a current client nothing waits; while there
      is one, some timer is set for it; and every message a client sends is on the wire, waiting for a
      timer or queued, exactly once. */
  lemma EveryRunSafe(c: Collector, es: seq<Event>)
    requires Initial(c) && PossibleRun(c, es)
    ensures var s := Run(c, es).sender;
            && Owned(Run(c, es)) && Live(s)
            && OwnedBy(Entries(s), Run(c, es).parsers)
            && multiset(Requested(c, es)) ==
                 multiset(WireMessages(s.wire)) + multiset(ArmedMessages(s.armed))
                 + multiset(s.cancelled) + multiset(PendingMessages(s.pending))
  {
    hide OwnedBy, Live;
    InitialOwned(c);
    RunKeepsOwned(c, es);
    RunSubmits(c, es);
    assert Run(c, es).sender.submitted == Requested(c, es);
  }

  // ---- Fairness ----

  function Clients(entries: seq<Entry>): set<nat> {
    set i | 0 <= i < |entries| :: entries[i].client
  }

  lemma ClientsSnoc(rest: seq<Entry>, last: Entry)
    ensures Clients(rest + [last]) == Clients(rest) + {last.client}
  {
    var all := rest + [last];
    forall x | x in Clients(all) ensures x in Clients(rest) + {last.client} {
      var i :| 0 <= i < |all| && all[i].client == x;
      if i < |rest| { assert rest[i].client == x; }
    }
    forall x | x in Clients(rest) + {last.client} ensures x in Clients(all) {
      if x in Clients(rest) {
        var i :| 0 <= i < |rest| && rest[i].client == x;
        assert all[i].client == x;
      } else {
        assert all[|rest|].client == x;
      }
    }
  }

  lemma {:induction false} EntriesBounded(entries: seq<Entry>)
    requires forall i, j | 0 <= i < j < |entries| :: entries[i].client != entries[j].client
    ensures |Clients(entries)| == |entries|
    decreases |entries|
  {
    if entries != [] {
      var n := |entries| - 1;
      var rest := entries[..n];
      EntriesBounded(rest);
      ClientsSnoc(rest, entries[n]);
      assert entries == rest + [entries[n]];
      assert entries[n].client !in Clients(rest);
    } else {
      assert Clients(entries) == {};
    }
  }

  function Range(n: nat): set<nat> {
    if n == 0 then {} else Range(n - 1) + {n - 1}
  }

  lemma {:induction false} RangeSize(n: nat)
    ensures |Range(n)| == n
    ensures forall x: nat :: x in Range(n) <==> x < n
  {
    if n > 0 {
      RangeSize(n - 1);
    }
  }

  lemma {:induction false} SubsetSize(a: set<nat>, b: set<nat>)
    requires a <= b
    ensures |a| <= |b|
  {
    if a != {} {
      var x :| x in a;
      SubsetSize(a - {x}, b - {x});
    }
  }

  /** Behind a queued request are at most all other clients' requests: with the current one there are no
      more entries than clients. */
  lemma QueueBounded(c: Collector)
    requires Owned(c)
    ensures |Entries(c.sender)| <= |c.parsers|
  {
    var entries := Entries(c.sender);
    var all := Range(|c.parsers|);
    EntriesBounded(entries);
    RangeSize(|c.parsers|);
    forall x | x in Clients(entries) ensures x in all {
      var i :| 0 <= i < |entries| && entries[i].client == x;
    }
    SubsetSize(Clients(entries), all);
  }

  function Responses(es: seq<Event>): nat {
    if es == [] then 0 else (if IsResponse(es[0]) then 1 else 0) + Responses(es[1..])
  }

  /** Every response moves every queued request up by exactly one place, and nothing else moves it. So a
      request at place k is current after k responses, whatever other clients do. */
  lemma {:induction false} QueueAdvances(c: Collector, es: seq<Event>, k: nat)
    requires Owned(c) && PossibleRun(c, es) && k < |Entries(c.sender)| && Responses(es) <= k
    ensures k - Responses(es) < |Entries(Run(c, es).sender)|
    ensures Entries(Run(c, es).sender)[k - Responses(es)] == Entries(c.sender)[k]
    decreases |es|
  {
    hide Step, Entries, Owned;
    if es != [] {
      StepKeepsOwned(c, es[0]);
      EntryMoves(c, es[0], k);
      QueueAdvances(Step(c, es[0]), es[1..], if IsResponse(es[0]) then k - 1 else k);
    }
  }

  // ---- Completion ----

  /** The client hears OK, FAIL or ERRTIMEOUT. */
  predicate Decided(c: Collector, e: Event, client: nat)
    requires Possible(c, e)
  {
    Actor(c, e) == Some(client) && React(c.parsers[client], e).1
  }

  /** A message for the PC answers the request it finds in flight. */
  predicate Answers(c: Collector, e: Event)
    requires Possible(c, e)
  {
    e.PcMessage? && c.sender.current.Some? ==> Relevant(c.parsers[c.sender.current.value.client], e.msg)
  }

  ghost predicate AnsweredRun(c: Collector, es: seq<Event>)
    requires PossibleRun(c, es)
    decreases |es|
  {
    es == [] || (Answers(c, es[0]) && AnsweredRun(Step(c, es[0]), es[1..]))
  }

  ghost predicate UndecidedRun(c: Collector, es: seq<Event>, client: nat)
    requires PossibleRun(c, es)
    decreases |es|
  {
    es == [] || (!Decided(c, es[0], client) && UndecidedRun(Step(c, es[0]), es[1..], client))
  }

  /** Responses a client may have to wait for: a round of all clients for every message it may still
      send, and its place in the queue. */
  function Potential(c: Collector, client: nat, place: nat): nat
    requires client < |c.parsers|
  {
    |c.parsers| * Budget(c.parsers[client]) + place
  }

  lemma OwnedEntry(c: Collector, k: nat)
    requires Owned(c) && k < |Entries(c.sender)|
    ensures var entry := Entries(c.sender)[k];
            && entry.client < |c.parsers| && c.parsers[entry.client].active == Some(entry.msg)
            && Counted(c.parsers[entry.client])
            && (k > 0 ==> Entries(c.sender)[0].client != entry.client)
  {
  }

  /** A queued request is left alone by everything but its turn. */
  lemma WaitingUnchanged(c: Collector, e: Event, place: nat)
    requires Owned(c) && Possible(c, e) && place < |Entries(c.sender)| && (IsResponse(e) ==> place > 0)
    ensures var client, d := Entries(c.sender)[place].client, Step(c, e);
            |d.parsers| == |c.parsers| && client < |c.parsers| && d.parsers[client] == c.parsers[client]
  {
    hide React, Step, Owned, Entries;
    var client := Entries(c.sender)[place].client;
    OwnedEntry(c, place);
    StepMoves(c, e, client);
    if e.Submission? {
      BusyRefuses(c.parsers[client], e);
    }
  }

  /** One event on the way to a decision. */
  lemma StepPotential(c: Collector, e: Event, place: nat) returns (place': nat)
    requires Owned(c) && Possible(c, e) && Answers(c, e) && place < |Entries(c.sender)|
    requires !Decided(c, e, Entries(c.sender)[place].client)
    ensures var client, d := Entries(c.sender)[place].client, Step(c, e);
            && |d.parsers| == |c.parsers| && client < |c.parsers|
            && place' < |Entries(d.sender)| && Entries(d.sender)[place'].client == client
            && Potential(d, client, place') + (if IsResponse(e) then 1 else 0) <= Potential(c, client, place)
  {
    hide React, Step, Owned, Entries, Budget, Decided, Answers;
    var client, d := Entries(c.sender)[place].client, Step(c, e);
    StepKeepsOwned(c, e);
    if IsResponse(e) && place == 0 {
      CurrentPays(c, e);
      place' := |Entries(d.sender)| - 1;
      QueueBounded(d);
      RoundPays(|c.parsers|, Budget(c.parsers[client]), Budget(d.parsers[client]), place');
    } else {
      EntryMoves(c, e, place);
      WaitingUnchanged(c, e, place);
      place' := if IsResponse(e) then place - 1 else place;
    }
  }

  /** The current client answers an undecided response with one message, which ends up last. */
  lemma CurrentPays(c: Collector, e: Event)
    requires Owned(c) && Possible(c, e) && Answers(c, e) && IsResponse(e) && Entries(c.sender) != []
    requires !Decided(c, e, Entries(c.sender)[0].client)
    ensures var client, d := Entries(c.sender)[0].client, Step(c, e);
            && |d.parsers| == |c.parsers| && client < |c.parsers| && Entries(d.sender) != []
            && Entries(d.sender)[|Entries(d.sender)| - 1].client == client
            && Budget(d.parsers[client]) + 1 <= Budget(c.parsers[client])
  {
    hide React, Step, OwnedBy, AllCounted, Conserved, Budget, Answers, Decided;
    var client := Entries(c.sender)[0].client;
    OwnedEntry(c, 0);
    StepMoves(c, e, client);
    StepKeepsOwned(c, e);
    CurrentAnswers(c, e);
  }

  lemma CurrentAnswers(c: Collector, e: Event)
    requires Owned(c) && Possible(c, e) && Answers(c, e) && IsResponse(e) && Entries(c.sender) != []
    requires !Decided(c, e, Entries(c.sender)[0].client)
    ensures var client := Entries(c.sender)[0].client;
            client < |c.parsers| &&
            var (f, _, g) := React(c.parsers[client], e);
            f.sends + g.sends != [] && Budget(g.p) + 1 <= Budget(c.parsers[client])
  {
    hide Budget, Conserved;
    var p := c.parsers[Entries(c.sender)[0].client];
    if e.PcMessage? {
      MessagePays(p, e.msg);
    } else {
      TimeoutPays(p);
    }
  }

  lemma RoundPays(n: nat, before: nat, after: nat, place: nat)
    requires after + 1 <= before && place < n
    ensures n * after + place + 1 <= n * before
  {
    var d := before - after;
    Distribute(n, after, d);
    Distribute(n, 1, d - 1);
  }

  lemma Distribute(n: nat, a: nat, b: nat)
    ensures n * (a + b) == n * a + n * b
    ensures n * a >= 0 && n * b >= 0
  {
  }

  // ---- Completion, counted in all events of the scheduler ----

  /** Messages a scheduler still has to put on the wire. */
  function Unsent(s: Sender): nat {
    |ArmedMessages(s.armed)| + |s.cancelled| + |s.pending|
  }

  lemma DispatchUnsent(s: Sender, msg: EmsMessage, now: int)
    ensures Unsent(Dispatch(s, msg, now)) <= Unsent(s) + 1
  {
  }

  lemma ContinueUnsent(s: Sender, now: int)
    ensures Unsent(ContinueWithNextRequest(s, now)) <= Unsent(s)
  {
    hide Dispatch;
    if s.pending != [] {
      DispatchUnsent(s.(current := Some(s.pending[0]), pending := s.pending[1..]), s.pending[0].msg, now);
    }
  }

  lemma SubmitOneUnsent(s: Sender, client: nat, msgs: seq<EmsMessage>, now: int)
    requires |msgs| <= 1
    ensures Unsent(SubmitAll(s, client, msgs, now)) <= Unsent(s) + |msgs|
  {
    hide ContinueWithNextRequest;
    SubmitAllOne(s, client, msgs, now);
    if msgs != [] {
      ContinueUnsent(s.(pending := s.pending + [Entry(client, msgs[0])], submitted := s.submitted + [msgs[0]]), now);
    }
  }

  predicate IsSendTimer(e: Event) {
    e.SendTimer? || e.CancelledSend?
  }

  /** Every firing of a send timer puts one message on the wire; only what clients send adds work. */
  lemma SenderStepUnsent(s: Sender, e: Event, client: nat, first: seq<EmsMessage>, second: seq<EmsMessage>)
    requires |first| <= 1 && |second| <= 1
    requires (e.SendTimer? ==> s.armed.Some?) && (e.CancelledSend? ==> s.cancelled != [])
    ensures Unsent(SenderStep(s, e, client, first, second)) + (if IsSendTimer(e) then 1 else 0)
            <= Unsent(s) + |first| + |second|
  {
    hide SubmitAll, ContinueWithNextRequest;
    if IsResponse(e) {
      var t := if e.PcMessage? then NoteReply(s, e.msg.source, e.now) else s.(deadline := None);
      SubmitOneUnsent(t, client, first, e.now);
      SubmitOneUnsent(SubmitAll(t, client, first, e.now), client, second, e.now);
      ContinueUnsent(SubmitAll(SubmitAll(t, client, first, e.now), client, second, e.now), e.now);
    } else if e.Submission? {
      SubmitOneUnsent(s, client, first, e.now);
    }
  }

  /** How entries and unsent messages change together: each message a client sends is one of both, a
      response takes one entry away, a send timer one unsent message. */
  lemma StepBalance(c: Collector, e: Event)
    requires Owned(c) && Possible(c, e)
    ensures var d := Step(c, e);
            Unsent(d.sender) - |Entries(d.sender)| + (if IsSendTimer(e) then 1 else 0)
            <= Unsent(c.sender) - |Entries(c.sender)| + (if IsResponse(e) then 1 else 0)
  {
    hide React, OwnedBy, AllCounted, Conserved, SenderStep, Unsent;
    StepKeepsOwned(c, e);
    match Actor(c, e)
    case None =>
      SenderStepUnsent(c.sender, e, 0, [], []);
    case Some(client) =>
      var (f, _, g) := React(c.parsers[client], e);
      if IsResponse(e) {
        assert Entries(c.sender)[0] == c.sender.current.value;
      }
      ReactSends(c, e, client);
      SenderStepUnsent(c.sender, e, client, f.sends, g.sends);
  }

  lemma ReactSends(c: Collector, e: Event, client: nat)
    requires Owned(c) && Possible(c, e) && Actor(c, e) == Some(client)
    ensures var (f, _, g) := React(c.parsers[client], e);
            |f.sends| <= 1 && |g.sends| <= 1 && |f.sends| + |g.sends| <= 1
  {
    hide React, Conserved;
    if IsResponse(e) {
      assert Entries(c.sender)[0] == c.sender.current.value;
    }
    ReactSound(c.parsers[client], e);
  }

  /** What is left to happen before the client at `place` has its result: two for every response it may
      have to wait for, one for every client without an entry, one for every message still unsent. */
  function Work(c: Collector, client: nat, place: nat): int
    requires client < |c.parsers|
  {
    2 * Potential(c, client, place) + |c.parsers| - |Entries(c.sender)| + Unsent(c.sender)
  }

  /** Every event but a submission takes some of it away, and a submission, accepted or not, adds none. */
  lemma StepWork(c: Collector, e: Event, place: nat) returns (place': nat)
    requires Owned(c) && Possible(c, e) && Answers(c, e) && place < |Entries(c.sender)|
    requires !Decided(c, e, Entries(c.sender)[place].client)
    ensures var client, d := Entries(c.sender)[place].client, Step(c, e);
            && Owned(d) && |d.parsers| == |c.parsers| && client < |c.parsers|
            && place' < |Entries(d.sender)| && Entries(d.sender)[place'].client == client
            && Potential(d, client, place') + (if IsResponse(e) then 1 else 0) <= Potential(c, client, place)
            && Work(d, client, place') + (if e.Submission? then 0 else 1) <= Work(c, client, place)
  {
    hide React, Step, Owned, Entries, Potential, Unsent, Decided, Answers;
    StepKeepsOwned(c, e);
    place' := StepPotential(c, e, place);
    StepBalance(c, e);
  }

  function SchedulerEvents(es: seq<Event>): nat {
    if es == [] then 0 else (if es[0].Submission? then 0 else 1) + SchedulerEvents(es[1..])
  }

  /** Every accepted command is decided within a bounded number of events of the scheduler, timers
      included, however many commands are submitted meanwhile, as long as messages for the PC answer the
      request in flight: a run without a decision has no more responses than the potential allows, and
      no more events than there is work. */
  lemma {:induction false} CompletionBounded(c: Collector, es: seq<Event>, place: nat)
    requires Owned(c) && PossibleRun(c, es) && AnsweredRun(c, es) && place < |Entries(c.sender)|
    requires UndecidedRun(c, es, Entries(c.sender)[place].client)
    ensures Responses(es) <= Potential(c, Entries(c.sender)[place].client, place)
    ensures SchedulerEvents(es) <= Work(c, Entries(c.sender)[place].client, place)
    decreases |es|
  {
    hide Step, Decided, Answers, Entries, Owned, Unsent, Potential;
    if es == [] {
      QueueBounded(c);
    } else {
      var next := StepWork(c, es[0], place);
      CompletionBounded(Step(c, es[0]), es[1..], next);
    }
  }

  /** For a read command, from its acceptance on: ten events for every client and byte of its chain, one
      for every client, and what the scheduler had left to send. */
  lemma ReadCompletes(c: Collector, client: nat, cmd: Command, now: int, es: seq<Event>)
    requires Owned(c) && client < |c.parsers| && c.parsers[client].active.None?
    requires !cmd.WriteData? && CommandBytes(cmd) > 0
    requires var d := Step(c, Submission(client, cmd, now));
             PossibleRun(d, es) && AnsweredRun(d, es) && UndecidedRun(d, es, client)
    ensures SchedulerEvents(es) <= 10 * (|c.parsers| * CommandBytes(cmd)) + |c.parsers|
                                   + Unsent(Step(c, Submission(client, cmd, now)).sender)
  {
    hide React, Step, Owned, Unsent, CommandBytes, Budget, Parse, Entries, Possible, PossibleRun, AnsweredRun,
         UndecidedRun, SchedulerEvents;
    var e := Submission(client, cmd, now);
    SubmissionStays(c, client, cmd, now);
    var d := Step(c, e);
    QueueBounded(d);
    CommandPays(c.parsers[client], cmd);
    SubmissionEntry(c, client, cmd, now);
    var place := |Entries(d.sender)| - 1;
    CompletionBounded(d, es, place);
    RoundsBound(|c.parsers|, CommandBytes(cmd), Budget(d.parsers[client]), place);
  }

  lemma SubmissionStays(c: Collector, client: nat, cmd: Command, now: int)
    requires Owned(c) && client < |c.parsers|
    ensures Possible(c, Submission(client, cmd, now)) && Owned(Step(c, Submission(client, cmd, now)))
    ensures |Step(c, Submission(client, cmd, now)).parsers| == |c.parsers|
  {
    hide Step, Owned;
    StepKeepsOwned(c, Submission(client, cmd, now));
    StepMoves(c, Submission(client, cmd, now), client);
  }

  lemma RoundsBound(n: nat, bytes: nat, budget: nat, place: nat)
    requires 1 + budget == 5 * bytes && place < n
    ensures 2 * (n * budget + place) <= 10 * (n * bytes)
  {
    Distribute(n, 1, budget);
    assert n * (5 * bytes) == 5 * (n * bytes);
  }

  lemma SubmissionEntry(c: Collector, client: nat, cmd: Command, now: int)
    requires Owned(c) && client < |c.parsers| && |Parse(c.parsers[client], cmd).sends| == 1
    ensures var d := Step(c, Submission(client, cmd, now));
            && Entries(d.sender) != [] && Entries(d.sender)[|Entries(d.sender)| - 1].client == client
            && client < |d.parsers| && d.parsers[client] == Parse(c.parsers[client], cmd).p
  {
    hide Parse, OwnedBy, AllCounted, Conserved, Step;
    StepKeepsOwned(c, Submission(client, cmd, now));
    StepMoves(c, Submission(client, cmd, now), client);
  }

  /** The event is the firing of a timer that is set and due. */
  predicate Fires(s: Sender, e: Event) {
    match e
    case SendTimer(now) => s.armed.Some? && s.armed.value.due <= now
    case CancelledSend(_) => s.cancelled != []
    case Timeout(next, now) => s.deadline.Some? && s.deadline.value <= now && next == None
    case _ => false
  }

  /** While anyone waits, some timer is set and can fire. */
  lemma NeverStuck(c: Collector) returns (e: Event)
    requires Owned(c) && Entries(c.sender) != []
    ensures Possible(c, e) && Fires(c.sender, e)
  {
    hide Conserved, AllCounted;
    var s := c.sender;
    assert s.current.Some? && Entries(s)[0] == s.current.value;
    e := if s.armed.Some? then SendTimer(s.armed.value.due)
         else if s.cancelled != [] then CancelledSend(0)
         else Timeout(None, s.deadline.value);
  }

  /** Timers firing one after the other. */
  ghost predicate TimerRun(c: Collector, es: seq<Event>)
    decreases |es|
  {
    es == [] || (Possible(c, es[0]) && Fires(c.sender, es[0]) && TimerRun(Step(c, es[0]), es[1..]))
  }

  lemma {:induction false} TimerRunPossible(c: Collector, es: seq<Event>)
    requires TimerRun(c, es)
    ensures PossibleRun(c, es)
    decreases |es|
  {
    hide Step, Possible, Fires;
    if es != [] {
      TimerRunPossible(Step(c, es[0]), es[1..]);
    }
  }

  /** With a dead bus, timers alone bring every waiting client to a decision: after some of them, the next
      one decides, and there are no more of them than there is work. */
  lemma {:induction false} TimersDecide(c: Collector, place: nat) returns (es: seq<Event>, last: Event)
    requires Owned(c) && place < |Entries(c.sender)|
    ensures var client := Entries(c.sender)[place].client;
            && client < |c.parsers| && |es| <= Work(c, client, place)
            && TimerRun(c, es) && PossibleRun(c, es)
            && var d := Run(c, es);
            && Possible(d, last) && Fires(d.sender, last) && Decided(d, last, client)
    decreases Work(c, Entries(c.sender)[place].client, place)
  {
    hide Step, Decided, Entries, Owned, Unsent, Potential, Possible;
    QueueBounded(c);
    OwnedEntry(c, place);
    var client := Entries(c.sender)[place].client;
    var e := NeverStuck(c);
    if Decided(c, e, client) {
      es, last := [], e;
    } else {
      var next := StepWork(c, e, place);
      var rest;
      QueueBounded(Step(c, e));
      rest, last := TimersDecide(Step(c, e), next);
      es := [e] + rest;
      assert es[1..] == rest;
      TimerRunPossible(c, es);
    }
  }

  // ---- How much a command sends ----

  /** Messages a client sends on an event. */
  function SendsBy(c: Collector, e: Event, client: nat): nat
    requires Possible(c, e)
  {
    if Actor(c, e) != Some(client) then 0
    else
      var (f, _, g) := React(c.parsers[client], e);
      |f.sends| + |g.sends|
  }

  function SendsInRun(c: Collector, es: seq<Event>, client: nat): nat
    requires PossibleRun(c, es)
    decreases |es|
  {
    if es == [] then 0 else SendsBy(c, es[0], client) + SendsInRun(Step(c, es[0]), es[1..], client)
  }

  /** The request of a client is paid for: until it hears a result, all it sends stays within the budget
      of its request, whatever the bus does. */
  lemma {:induction false} SendsWithinBudget(c: Collector, es: seq<Event>, client: nat)
    requires Owned(c) && PossibleRun(c, es) && client < |c.parsers| && UndecidedRun(c, es, client)
    requires c.parsers[client].active.Some?
    ensures SendsInRun(c, es, client) <= Budget(c.parsers[client])
    decreases |es|
  {
    hide React;
    if es != [] {
      StepKeepsOwned(c, es[0]);
      StepMoves(c, es[0], client);
      if Actor(c, es[0]) == Some(client) {
        ReactPays(c.parsers[client], es[0]);
      }
      SendsWithinBudget(Step(c, es[0]), es[1..], client);
    }
  }

  lemma ReactPays(p: Parser, e: Event)
    requires p.active.Some? && Counted(p) && !React(p, e).1
    ensures var (f, _, g) := React(p, e);
            g.p.active.Some? && g.sends == [] && |f.sends| + Budget(g.p) <= Budget(p)
  {
    if e.PcMessage? {
      MessagePays(p, e.msg);
    } else if e.Timeout? {
      TimeoutPays(p);
    }
  }

  /** A read command sends, until its result, at most five messages for every byte it asks for. */
  lemma ReadSendsBounded(c: Collector, client: nat, cmd: Command, now: int, es: seq<Event>)
    requires Owned(c) && client < |c.parsers| && c.parsers[client].active.None?
    requires !cmd.WriteData? && CommandBytes(cmd) > 0
    requires var d := Step(c, Submission(client, cmd, now));
             PossibleRun(d, es) && UndecidedRun(d, es, client)
    ensures var e := Submission(client, cmd, now);
            SendsBy(c, e, client) + SendsInRun(Step(c, e), es, client) <= 5 * CommandBytes(cmd)
  {
    var e := Submission(client, cmd, now);
    StepKeepsOwned(c, e);
    CommandPays(c.parsers[client], cmd);
    SendsWithinBudget(Step(c, e), es, client);
  }

  // ---- What clients are told, over whole runs ----

  ghost predicate AllFaithful(mem: Reassembly.Memory, parsers: seq<Parser>) {
    forall i | 0 <= i < |parsers| :: Reassembly.Faithful(mem, parsers[i])
  }

  /** Messages for the PC are acknowledgements or come from honest devices, whenever they were sent. */
  predicate HonestEvent(mem: Reassembly.Memory, e: Event) {
    e.PcMessage? ==> e.msg.typ == 0xff || Reassembly.Honest(mem, e.msg)
  }

  lemma ReactFaithful(mem: Reassembly.Memory, p: Parser, e: Event)
    requires Reassembly.Faithful(mem, p) && HonestEvent(mem, e)
    ensures Reassembly.Faithful(mem, React(p, e).2.p)
  {
    hide OnIncomingMessage, OnTimeout, Parse, Reassembly.Faithful, Reassembly.Honest;
    match e
    case Submission(_, cmd, _) => Reassembly.TimeoutAndCommandFaithful(mem, p, cmd);
    case PcMessage(msg, next, _) =>
      Reassembly.ReassemblySafe(mem, p, msg);
      if next.Some? {
        Reassembly.TimeoutAndCommandFaithful(mem, OnIncomingMessage(p, msg).p, next.value);
      }
    case Timeout(next, _) =>
      Reassembly.TimeoutAndCommandFaithful(mem, p, GetVersion);
      if next.Some? {
        Reassembly.TimeoutAndCommandFaithful(mem, OnTimeout(p).0.p, next.value);
      }
    case _ =>
  }

  /** No loss, delay, repetition or reordering, and no other client, ever spoils what a client has
      collected from a device. */
  lemma {:induction false} RunKeepsFaithful(mem: Reassembly.Memory, c: Collector, es: seq<Event>)
    requires PossibleRun(c, es) && AllFaithful(mem, c.parsers)
    requires forall i | 0 <= i < |es| :: HonestEvent(mem, es[i])
    ensures AllFaithful(mem, Run(c, es).parsers)
    decreases |es|
  {
    hide React, SenderStep, Reassembly.Faithful, HonestEvent;
    if es != [] {
      if Actor(c, es[0]).Some? {
        ReactFaithful(mem, c.parsers[Actor(c, es[0]).value], es[0]);
      }
      RunKeepsFaithful(mem, Step(c, es[0]), es[1..]);
    }
  }

  lemma InitialFaithful(mem: Reassembly.Memory, c: Collector)
    requires Initial(c)
    ensures AllFaithful(mem, c.parsers)
  {
  }

  /** From the start, with honest devices, in any run: what any client holds is a slice of the memory it
      asked for, every raw read and contact query that ends with OK shows the whole of it, and versions,
      maintenance states, schedule names and holidays are shown exactly as the memory holds them. */
  lemma HonestRunsCorrect(mem: Reassembly.Memory, c: Collector, es: seq<Event>)
    requires Initial(c) && PossibleRun(c, es) && forall i | 0 <= i < |es| :: HonestEvent(mem, es[i])
    ensures AllFaithful(mem, Run(c, es).parsers)
    ensures forall i, msg: EmsMessage | 0 <= i < |c.parsers| && msg.typ != 0xff && Reassembly.Honest(mem, msg) ::
              i < |Run(c, es).parsers| && ReadsCorrectly(mem, Run(c, es).parsers[i], msg)
  {
    hide ReadsCorrectly, Reassembly.Honest;
    InitialFaithful(mem, c);
    RunKeepsFaithful(mem, c, es);
    RunKeepsClients(c, es);
    forall i, msg: EmsMessage | 0 <= i < |c.parsers| && msg.typ != 0xff && Reassembly.Honest(mem, msg)
      ensures ReadsCorrectly(mem, Run(c, es).parsers[i], msg)
    {
      FaithfulReads(mem, Run(c, es).parsers[i], msg);
    }
  }

  /** A reply is shown as the bytes of the memory say; if it ends a raw read or a contact query with OK, it
      shows the slice asked for, cut only at the end of the memory. */
  ghost predicate ReadsCorrectly(mem: Reassembly.Memory, p: Parser, msg: EmsMessage) {
    var m, e := mem(p.reqDest, p.reqType), OnIncomingMessage(p, msg);
    && (p.active.Some? && Matches(p, msg) && !p.outputRaw ==>
          Reassembly.ShownExactly(m, p.reqDest, p.reqType, p.reqOffset, |p.response| + |msg.data|, e.lines))
    && (e.verdict == Success && (p.outputRaw || p.reqType == 0xa4) ==>
          exists n: nat ::
            && Reassembly.WholeSlice(m, p.reqOffset, p.asked, n)
            && (if p.outputRaw then e.lines == [RawData(Reassembly.Slice(m, p.reqOffset, n))]
                else Reassembly.ShowsTexts(e.lines, Reassembly.Slice(m, p.reqOffset, n))))
  }

  lemma FaithfulReads(mem: Reassembly.Memory, p: Parser, msg: EmsMessage)
    requires Reassembly.Faithful(mem, p) && Reassembly.Honest(mem, msg) && msg.typ != 0xff
    ensures ReadsCorrectly(mem, p, msg)
  {
    hide OnIncomingMessage, Reassembly.WholeSlice, Reassembly.ShowsTexts, Reassembly.Slice, Reassembly.ShownExactly;
    if p.active.Some? && Matches(p, msg) && !p.outputRaw {
      Reassembly.AnswersExactly(mem, p, msg);
    }
    if OnIncomingMessage(p, msg).verdict == Success {
      if p.outputRaw {
        Reassembly.RawReadCorrect(mem, p, msg);
      } else if p.reqType == 0xa4 {
        Reassembly.ContactCorrect(mem, p, msg);
      }
    }
  }

  lemma {:induction false} RunKeepsClients(c: Collector, es: seq<Event>)
    requires PossibleRun(c, es)
    ensures |Run(c, es).parsers| == |c.parsers|
    decreases |es|
  {
    hide React, SenderStep;
    if es != [] {
      RunKeepsClients(Step(c, es[0]), es[1..]);
    }
  }

  // ---- What a command is told, in any run ----

  /** The lines of the list a client is reading, until it hears a result or its parser moves on to the
      next list; and whether a reply ended it. */
  function ListTold(c: Collector, es: seq<Event>, client: nat): (seq<Line>, bool)
    requires PossibleRun(c, es) && client < |c.parsers|
    decreases |es|
  {
    if es == [] then ([], false)
    else if Actor(c, es[0]) != Some(client) || !IsResponse(es[0]) then ListTold(Step(c, es[0]), es[1..], client)
    else
      var p := c.parsers[client];
      var (f, decided, _) := React(p, es[0]);
      if decided || f.p.reqType != p.reqType then (f.lines, IsReply(es[0]))
      else
        var (more, ended) := ListTold(Step(c, es[0]), es[1..], client);
        (f.lines + more, ended)
  }

  /** A message that is not an acknowledgement. */
  predicate IsReply(e: Event) {
    e.PcMessage? && e.msg.typ != 0xff
  }

  /** What one event does to a list that is being read. */
  ghost predicate ListGoesOn(mem: Reassembly.Memory, p: Parser, start: nat, e: Event) {
    var (f, decided, g) := React(p, e);
    var lines := Reassembly.LinesSoFar(p, start) + f.lines;
    if decided || f.p.reqType != p.reqType
    then exists n: nat :: Reassembly.PrintsSlice(mem, p, start, lines, IsReply(e), n)
    else ReadingList(mem, g.p, start) && SameAsk(p, g.p) && Reassembly.LinesSoFar(g.p, start) == lines
  }

  ghost predicate ReadingList(mem: Reassembly.Memory, p: Parser, start: nat) {
    p.active.Some? && Reassembly.IsList(p) && Reassembly.Faithful(mem, p) && Reassembly.ParsedAll(p, start)
  }

  predicate SameAsk(p: Parser, q: Parser) {
    q.reqDest == p.reqDest && q.reqType == p.reqType && q.reqOffset == p.reqOffset && q.asked == p.asked
  }

  lemma ListReact(mem: Reassembly.Memory, p: Parser, start: nat, e: Event)
    requires ReadingList(mem, p, start) && Counted(p) && IsResponse(e) && HonestEvent(mem, e)
    ensures ListGoesOn(mem, p, start, e)
  {
    hide Reassembly.Faithful, Reassembly.ParsedAll, Reassembly.PrintsSlice, Reassembly.LinesSoFar, OnIncomingMessage,
         Reassembly.Honest, Reassembly.IsList;
    var before := Reassembly.LinesSoFar(p, start);
    if IsReply(e) {
      Reassembly.ListEventCorrect(mem, p, start, Reassembly.Reply(e.msg));
      MessagePays(p, e.msg);
    } else {
      Reassembly.ListEventCorrect(mem, p, start, Reassembly.Expiry);
      if e.PcMessage? {
        AckTellsNothing(p, e.msg);
        StoppedShort(mem, p, start);
      }
    }
  }

  lemma AckTellsNothing(p: Parser, msg: EmsMessage)
    requires p.active.Some? && msg.typ == 0xff
    ensures OnIncomingMessage(p, msg).lines == [] && OnIncomingMessage(p, msg).verdict != Undecided
  {
  }

  /** A list that is broken off has printed what it holds. */
  lemma StoppedShort(mem: Reassembly.Memory, p: Parser, start: nat)
    requires Reassembly.Faithful(mem, p)
    ensures exists n: nat :: Reassembly.PrintsSlice(mem, p, start, Reassembly.LinesSoFar(p, start) + [], false, n)
  {
    var lines := Reassembly.LinesSoFar(p, start);
    assert Reassembly.Slice(mem(p.reqDest, p.reqType), p.reqOffset, |p.response|) == p.response;
    assert lines + [] == lines;
    assert Reassembly.PrintsSlice(mem, p, start, lines + [], false, |p.response|);
  }

  /** In any run with honest devices and any number of other clients, a list that is being read prints the
      records of one slice of the device's memory; when a reply ends it, nothing is missing. */
  lemma {:induction false} ListInRun(mem: Reassembly.Memory, c: Collector, es: seq<Event>, client: nat, start: nat)
    requires Owned(c) && PossibleRun(c, es) && client < |c.parsers| && ReadingList(mem, c.parsers[client], start)
    requires forall i | 0 <= i < |es| :: HonestEvent(mem, es[i])
    ensures ListShown(mem, c.parsers[client], start, ListTold(c, es, client))
    decreases |es|
  {
    hide React, Step, Owned, ReadingList, HonestEvent, SameAsk, Reassembly.PrintsSlice, Reassembly.LinesSoFar;
    var p := c.parsers[client];
    ReadingIs(mem, c, client, start);
    if es == [] {
      StoppedShort(mem, p, start);
      assert ListTold(c, es, client) == ([], false);
    } else {
      var d := Step(c, es[0]);
      StepKeepsOwned(c, es[0]);
      StepMoves(c, es[0], client);
      if Actor(c, es[0]) == Some(client) && IsResponse(es[0]) {
        ListReact(mem, p, start, es[0]);
        var (f, decided, g) := React(p, es[0]);
        if !(decided || f.p.reqType != p.reqType) {
          ListInRun(mem, d, es[1..], client, start);
          var (more, ended) := ListTold(d, es[1..], client);
          AskKept(p, g.p);
          Reassembly.ListCombine(mem, p, g.p, start, f.lines, more, ended);
        }
      } else {
        if Actor(c, es[0]) == Some(client) {
          ResponseActor(c, es[0]);
          BusyRefuses(p, es[0]);
        }
        ListInRun(mem, d, es[1..], client, start);
      }
    }
  }

  /** The lines, behind those printed before, are the records of one slice, all of it if a reply ended it. */
  ghost predicate ListShown(mem: Reassembly.Memory, p: Parser, start: nat, told: (seq<Line>, bool)) {
    exists n: nat :: Reassembly.PrintsSlice(mem, p, start, Reassembly.LinesSoFar(p, start) + told.0, told.1, n)
  }

  lemma AskKept(p: Parser, q: Parser)
    requires SameAsk(p, q)
    ensures q.reqDest == p.reqDest && q.reqType == p.reqType && q.reqOffset == p.reqOffset && q.asked == p.asked
  {
  }

  lemma ReadingIs(mem: Reassembly.Memory, c: Collector, client: nat, start: nat)
    requires Owned(c) && client < |c.parsers| && ReadingList(mem, c.parsers[client], start)
    ensures c.parsers[client].active.Some? && Counted(c.parsers[client]) && Reassembly.Faithful(mem, c.parsers[client])
  {
  }

  /** A list command in any run: from its submission on, its client is told the records of the piece of
      memory the command is for, counted from one, up to an empty record, the whole length or the end. */
  lemma ListCommandInRun(mem: Reassembly.Memory, c: Collector, client: nat, cmd: Command, now: int, es: seq<Event>)
    requires Owned(c) && client < |c.parsers| && c.parsers[client].active.None? && Reassembly.IsListCommand(cmd)
    requires PossibleRun(Step(c, Submission(client, cmd, now)), es)
    requires forall i | 0 <= i < |es| :: HonestEvent(mem, es[i])
    ensures var q := Parse(c.parsers[client], cmd).p;
            var (lines, ended) := ListTold(Step(c, Submission(client, cmd, now)), es, client);
            && AsksPiece(q, Dialogue.Asks(cmd)[0])
            && exists n: nat :: Reassembly.PrintsSlice(mem, q, 0, lines, ended, n)
  {
    hide React, Step, Owned, HonestEvent, Reassembly.PrintsSlice, Parse, Reassembly.LinesSoFar, ReadingList, AsksPiece;
    SubmissionStays(c, client, cmd, now);
    var d, q := Step(c, Submission(client, cmd, now)), Parse(c.parsers[client], cmd).p;
    ListBegins(mem, c.parsers[client], cmd);
    CommandPays(c.parsers[client], cmd);
    SubmissionEntry(c, client, cmd, now);
    ListInRun(mem, d, es, client, 0);
    var lines := ListTold(d, es, client).0;
    assert [] + lines == lines;
  }

  /** The parser is about this piece of memory. */
  predicate AsksPiece(p: Parser, a: Dialogue.Ask) {
    p.reqDest == a.dest && p.reqType == a.typ && p.reqOffset == a.offset && p.asked == a.length
  }

  lemma ListBegins(mem: Reassembly.Memory, p: Parser, cmd: Command)
    requires p.active.None? && Reassembly.IsListCommand(cmd)
    ensures var q := Parse(p, cmd).p;
            && ReadingList(mem, q, 0) && Reassembly.LinesSoFar(q, 0) == []
            && CommandBytes(cmd) > 0 && AsksPiece(q, Dialogue.Asks(cmd)[0])
  {
    hide Reassembly.Faithful, Reassembly.ParsedAll, Reassembly.IsList, Reassembly.LinesSoFar;
    Reassembly.ListBegins(mem, p, cmd);
  }

  /** Types of answers that are shown as one piece: contact texts, maintenance state, and what is behind the
      switching times. */
  predicate ShownAtOnce(a: Dialogue.Ask) {
    a.typ in {0xa4, 0x1c} || (a.typ in {0x3f, 0x49, 0x53, 0x5d} && a.offset in {84, 87, 93})
  }

  /** Reading one piece of memory that is shown as a whole. */
  ghost predicate ReadingPiece(mem: Reassembly.Memory, p: Parser, a: Dialogue.Ask, raw: bool) {
    && p.active.Some? && Reassembly.Faithful(mem, p) && AsksPiece(p, a)
    && p.outputRaw == raw && (raw || ShownAtOnce(a))
  }

  lemma PieceReact(mem: Reassembly.Memory, p: Parser, a: Dialogue.Ask, raw: bool, e: Event)
    requires ReadingPiece(mem, p, a, raw) && Counted(p) && IsResponse(e) && HonestEvent(mem, e) && !React(p, e).1
    ensures ReadingPiece(mem, React(p, e).2.p, a, raw)
  {
    hide Reassembly.Faithful, Reassembly.Honest, ContactLines;
    ReactFaithful(mem, p, e);
    ReactPays(p, e);
  }

  lemma {:induction false} PieceInRun(mem: Reassembly.Memory, c: Collector, es: seq<Event>, client: nat,
                                      a: Dialogue.Ask, raw: bool)
    requires Owned(c) && PossibleRun(c, es) && client < |c.parsers| && UndecidedRun(c, es, client)
    requires ReadingPiece(mem, c.parsers[client], a, raw)
    requires forall i | 0 <= i < |es| :: HonestEvent(mem, es[i])
    ensures client < |Run(c, es).parsers| && ReadingPiece(mem, Run(c, es).parsers[client], a, raw)
    decreases |es|
  {
    hide React, Step, Owned, ReadingPiece, HonestEvent;
    if es != [] {
      var p := c.parsers[client];
      PieceIs(mem, c, client, a, raw);
      StepKeepsOwned(c, es[0]);
      StepMoves(c, es[0], client);
      if Actor(c, es[0]) == Some(client) {
        ResponseActor(c, es[0]);
        if IsResponse(es[0]) {
          PieceReact(mem, p, a, raw, es[0]);
        } else {
          BusyRefuses(p, es[0]);
        }
      }
      PieceInRun(mem, Step(c, es[0]), es[1..], client, a, raw);
    }
  }

  lemma PieceIs(mem: Reassembly.Memory, c: Collector, client: nat, a: Dialogue.Ask, raw: bool)
    requires Owned(c) && client < |c.parsers| && ReadingPiece(mem, c.parsers[client], a, raw)
    ensures c.parsers[client].active.Some? && Counted(c.parsers[client])
  {
  }

  /** Commands with one answer, shown as a whole. */
  predicate IsOnePiece(cmd: Command) {
    (cmd.RawRead? && cmd.len > 0) || cmd.RcGetContactInfo? || cmd.UbaCheckMaintenance? || cmd.HkGetActiveSchedule?
    || cmd.HkGetVacation? || cmd.HkGetHoliday?
  }

  /** A command with one answer in any run: when a reply ends it with OK, its client is shown the piece of
      memory the command is for: raw data and contact texts cut only at the end of the memory, the others
      as far as received, holidays whole. */
  lemma ReadCommandInRun(mem: Reassembly.Memory, c: Collector, client: nat, cmd: Command, now: int,
                         es: seq<Event>, msg: EmsMessage)
    requires Owned(c) && client < |c.parsers| && c.parsers[client].active.None?
    requires IsOnePiece(cmd)
    requires var d := Step(c, Submission(client, cmd, now)); PossibleRun(d, es) && UndecidedRun(d, es, client)
    requires forall i | 0 <= i < |es| :: HonestEvent(mem, es[i])
    requires msg.typ != 0xff && Reassembly.Honest(mem, msg)
    ensures var r := Run(Step(c, Submission(client, cmd, now)), es);
            client < |r.parsers| &&
            var e, a := OnIncomingMessage(r.parsers[client], msg), Dialogue.Asks(cmd)[0];
            var m, n := mem(a.dest, a.typ), |r.parsers[client].response| + |msg.data|;
            e.verdict == Success ==> PieceShownIs(m, a, cmd.RawRead?, n, e.lines)
  {
    hide React, Step, Owned, HonestEvent, Parse, ReadingPiece, Reassembly.Honest, PieceShownIs;
    SubmissionStays(c, client, cmd, now);
    var d, a := Step(c, Submission(client, cmd, now)), Dialogue.Asks(cmd)[0];
    PieceBegins(mem, c.parsers[client], cmd);
    CommandPays(c.parsers[client], cmd);
    SubmissionEntry(c, client, cmd, now);
    PieceInRun(mem, d, es, client, a, cmd.RawRead?);
    PieceShown(mem, Run(d, es).parsers[client], a, cmd.RawRead?, msg);
  }

  /** What `n` bytes of the piece are shown as. */
  ghost predicate PieceShownIs(m: seq<byte>, a: Dialogue.Ask, raw: bool, n: nat, lines: seq<Line>) {
    if raw || a.typ == 0xa4 then
      exists k: nat ::
        && Reassembly.WholeSlice(m, a.offset, a.length, k)
        && (if raw then lines == [RawData(Reassembly.Slice(m, a.offset, k))]
            else Reassembly.ShowsTexts(lines, Reassembly.Slice(m, a.offset, k)))
    else
      && Reassembly.ShownExactly(m, a.dest, a.typ, a.offset, n, lines)
      && (a.typ != 0x1c && a.offset in {87, 93} ==> n >= 6)
  }

  lemma PieceBegins(mem: Reassembly.Memory, p: Parser, cmd: Command)
    requires p.active.None? && IsOnePiece(cmd)
    ensures CommandBytes(cmd) > 0 && ReadingPiece(mem, Parse(p, cmd).p, Dialogue.Asks(cmd)[0], cmd.RawRead?)
  {
  }

  lemma PieceShown(mem: Reassembly.Memory, p: Parser, a: Dialogue.Ask, raw: bool, msg: EmsMessage)
    requires ReadingPiece(mem, p, a, raw) && msg.typ != 0xff && Reassembly.Honest(mem, msg)
    ensures var m, e := mem(a.dest, a.typ), OnIncomingMessage(p, msg);
            e.verdict == Success ==> PieceShownIs(m, a, raw, |p.response| + |msg.data|, e.lines)
  {
    hide OnIncomingMessage, Reassembly.WholeSlice, Reassembly.ShowsTexts, Reassembly.Slice, Reassembly.ShownExactly;
    FaithfulReads(mem, p, msg);
    if OnIncomingMessage(p, msg).verdict == Success {
      ReplyDecides(p, msg);
      var m, lines := mem(a.dest, a.typ), OnIncomingMessage(p, msg).lines;
      assert ReadsCorrectly(mem, p, msg);
      if raw || a.typ == 0xa4 {
        var k: nat :| Reassembly.WholeSlice(m, a.offset, a.length, k)
                      && (if raw then lines == [RawData(Reassembly.Slice(m, a.offset, k))]
                          else Reassembly.ShowsTexts(lines, Reassembly.Slice(m, a.offset, k)));
      } else {
        assert Reassembly.ShownExactly(m, a.dest, a.typ, a.offset, |p.response| + |msg.data|, lines);
      }
    }
  }

  /** OK to a message that is no acknowledgement needs a reply that matches, and one that is usable. */
  lemma ReplyDecides(p: Parser, msg: EmsMessage)
    requires p.active.Some? && msg.typ != 0xff && OnIncomingMessage(p, msg).verdict == Success
    ensures Matches(p, msg) && !Unusable(p, msg.data)
  {
    FailsExactly(p, msg);
  }

  // ---- The version command ----

  /** The parser is asking the device number `k` of boiler, base controller and room controller. */
  ghost predicate ReadingVersion(mem: Reassembly.Memory, p: Parser, k: nat) {
    && k < 3 && p.active.Some? && Reassembly.Faithful(mem, p) && !p.outputRaw
    && p.reqType == 0x02 && p.reqOffset == 0 && p.reqDest == VersionDevice(k)
  }

  function VersionDevice(k: nat): byte
    requires k < 3
  {
    if k == 0 then 0x08 else if k == 1 then 0x09 else 0x10
  }

  /** The version line of a device that has sent `n` bytes. */
  ghost predicate VersionLine(mem: Reassembly.Memory, dest: byte, line: Line) {
    exists n: nat :: VersionLineOf(mem(dest, 0x02), dest, n, line)
  }

  predicate VersionLineOf(m: seq<byte>, dest: byte, n: nat, line: Line) {
    line == Version(dest, Reassembly.At(m, 1, n >= 2), Reassembly.At(m, 2, n >= 3))
  }

  /** One line for each device from number `from` on. */
  ghost predicate VersionLines(mem: Reassembly.Memory, from: nat, lines: seq<Line>) {
    from + |lines| <= 3 && forall i | 0 <= i < |lines| :: VersionLine(mem, VersionDevice(from + i), lines[i])
  }

  lemma VersionReact(mem: Reassembly.Memory, p: Parser, k: nat, e: Event) returns (k': nat)
    requires ReadingVersion(mem, p, k) && Counted(p) && IsResponse(e) && HonestEvent(mem, e) && !React(p, e).1
    ensures var (f, _, g) := React(p, e);
            && k <= k' && ReadingVersion(mem, g.p, k') && |f.lines + g.lines| == k' - k
            && VersionLines(mem, k, f.lines + g.lines)
  {
    hide Reassembly.Faithful, Reassembly.Honest, OnIncomingMessage, OnTimeout, StartRequest;
    ReactFaithful(mem, p, e);
    ReactPays(p, e);
    k' := k;
    if e.PcMessage? {
      if e.msg.typ != 0xff && Matches(p, e.msg) {
        VersionReply(mem, p, k, e.msg);
        k' := k + 1;
      } else {
        MessagePays(p, e.msg);
        AckDecides(p, e.msg);
      }
    } else {
      TimeoutSilent(p);
    }
  }

  lemma AckDecides(p: Parser, msg: EmsMessage)
    requires p.active.Some?
    ensures p.active.Some? && msg.typ == 0xff ==> OnIncomingMessage(p, msg).verdict != Undecided
    ensures msg.typ != 0xff && !Matches(p, msg) ==> OnIncomingMessage(p, msg) == Done(p, [], Undecided)
  {
  }

  lemma TimeoutSilent(p: Parser)
    ensures var q := OnTimeout(p).0;
            && q.lines == [] && q.p == p.(active := q.p.active, retriesLeft := q.p.retriesLeft)
  {
  }

  /** A version reply is shown as one line; the room controller's ends the command, the others move on. */
  lemma VersionReply(mem: Reassembly.Memory, p: Parser, k: nat, msg: EmsMessage)
    requires ReadingVersion(mem, p, k) && msg.typ != 0xff && Matches(p, msg) && Reassembly.Honest(mem, msg)
    ensures var e := OnIncomingMessage(p, msg);
            && |e.lines| == 1 && VersionLine(mem, p.reqDest, e.lines[0])
            && (k == 2 ==> e.verdict == Success)
            && (k < 2 ==> e.verdict == Undecided && e.p.active.Some? && !e.p.outputRaw && e.p.reqType == 0x02
                          && e.p.reqOffset == 0 && e.p.reqDest == VersionDevice(k + 1))
  {
    hide Reassembly.Faithful, Reassembly.Honest, RecordLoop;
    Reassembly.AnswersExactly(mem, p, msg);
    var n := |p.response| + |msg.data|;
    assert VersionLineOf(mem(p.reqDest, 0x02), p.reqDest, n, OnIncomingMessage(p, msg).lines[0]);
  }

  lemma {:induction false} VersionsSoFar(mem: Reassembly.Memory, c: Collector, es: seq<Event>, client: nat, k: nat)
    returns (k': nat)
    requires Owned(c) && PossibleRun(c, es) && client < |c.parsers| && UndecidedRun(c, es, client)
    requires ReadingVersion(mem, c.parsers[client], k)
    requires forall i | 0 <= i < |es| :: HonestEvent(mem, es[i])
    ensures client < |Run(c, es).parsers| && k <= k' && ReadingVersion(mem, Run(c, es).parsers[client], k')
    ensures |ToldInRun(c, es, client)| == k' - k && VersionLines(mem, k, ToldInRun(c, es, client))
    decreases |es|
  {
    hide Step, Owned, ReadingVersion, HonestEvent, VersionLines, Decided, Told;
    k' := k;
    VersionIs(mem, c, client, k);
    if es == [] {
      NoVersionLines(mem, k);
    } else {
      var next := VersionStep(mem, c, es[0], client, k);
      k' := VersionsSoFar(mem, Step(c, es[0]), es[1..], client, next);
      MoreVersionLines(mem, k, Told(c, es[0], client), ToldInRun(Step(c, es[0]), es[1..], client));
    }
  }

  lemma NoVersionLines(mem: Reassembly.Memory, k: nat)
    requires k < 3
    ensures VersionLines(mem, k, [])
  {
  }

  lemma VersionStep(mem: Reassembly.Memory, c: Collector, e: Event, client: nat, k: nat) returns (k': nat)
    requires Owned(c) && Possible(c, e) && client < |c.parsers| && !Decided(c, e, client) && HonestEvent(mem, e)
    requires ReadingVersion(mem, c.parsers[client], k)
    ensures var d := Step(c, e);
            && Owned(d) && client < |d.parsers| && k <= k' && ReadingVersion(mem, d.parsers[client], k')
            && |Told(c, e, client)| == k' - k && VersionLines(mem, k, Told(c, e, client))
  {
    hide React, Step, Owned, ReadingVersion, HonestEvent, VersionLines;
    k' := k;
    VersionIs(mem, c, client, k);
    NoVersionLines(mem, k);
    StepKeepsOwned(c, e);
    StepMoves(c, e, client);
    ResponseActor(c, e);
    if Actor(c, e) == Some(client) {
      if IsResponse(e) {
        k' := VersionReact(mem, c.parsers[client], k, e);
      } else {
        BusyRefuses(c.parsers[client], e);
      }
    }
  }

  lemma MoreVersionLines(mem: Reassembly.Memory, k: nat, told: seq<Line>, later: seq<Line>)
    requires VersionLines(mem, k, told) && VersionLines(mem, k + |told|, later)
    ensures VersionLines(mem, k, told + later)
  {
    hide VersionLine, VersionDevice;
    forall i | 0 <= i < |told + later| ensures VersionLine(mem, VersionDevice(k + i), (told + later)[i]) {
      if i >= |told| {
        assert VersionLine(mem, VersionDevice(k + |told| + (i - |told|)), later[i - |told|]);
      }
    }
  }

  lemma VersionIs(mem: Reassembly.Memory, c: Collector, client: nat, k: nat)
    requires client < |c.parsers| && ReadingVersion(mem, c.parsers[client], k)
    ensures k < 3 && c.parsers[client].active.Some?
    ensures Owned(c) ==> Counted(c.parsers[client])
  {
  }

  /** The version command in any run with honest devices: when a reply ends it with OK, its client has been
      told exactly three lines: the versions of the boiler, the base controller and the room controller. */
  lemma VersionsInRun(mem: Reassembly.Memory, c: Collector, client: nat, now: int, es: seq<Event>, msg: EmsMessage)
    requires Owned(c) && client < |c.parsers| && c.parsers[client].active.None?
    requires var d := Step(c, Submission(client, GetVersion, now)); PossibleRun(d, es) && UndecidedRun(d, es, client)
    requires forall i | 0 <= i < |es| :: HonestEvent(mem, es[i])
    requires msg.typ != 0xff && Reassembly.Honest(mem, msg)
    ensures var d := Step(c, Submission(client, GetVersion, now));
            client < |Run(d, es).parsers| &&
            var e := OnIncomingMessage(Run(d, es).parsers[client], msg);
            var lines := ToldInRun(d, es, client) + e.lines;
            e.verdict == Success ==>
              |lines| == 3 && VersionLine(mem, 0x08, lines[0]) && VersionLine(mem, 0x09, lines[1])
              && VersionLine(mem, 0x10, lines[2])
  {
    hide React, Step, Owned, HonestEvent, Parse, OnIncomingMessage, Reassembly.Honest, VersionLine;
    SubmissionStays(c, client, GetVersion, now);
    var d := Step(c, Submission(client, GetVersion, now));
    VersionBegins(mem, c.parsers[client]);
    SubmissionEntry(c, client, GetVersion, now);
    var k := VersionsSoFar(mem, d, es, client, 0);
    var p, told := Run(d, es).parsers[client], ToldInRun(d, es, client);
    if OnIncomingMessage(p, msg).verdict == Success {
      ReplyDecides(p, msg);
      VersionReply(mem, p, k, msg);
      var lines := told + OnIncomingMessage(p, msg).lines;
      assert forall i | 0 <= i < |told| :: VersionLine(mem, VersionDevice(0 + i), told[i]) && lines[i] == told[i];
      assert lines[k] == OnIncomingMessage(p, msg).lines[0];
      assert VersionLine(mem, VersionDevice(0), lines[0]) && VersionLine(mem, VersionDevice(1), lines[1]);
    }
  }

  lemma VersionBegins(mem: Reassembly.Memory, p: Parser)
    requires p.active.None?
    ensures ReadingVersion(mem, Parse(p, GetVersion).p, 0) && |Parse(p, GetVersion).sends| == 1
  {
  }


  // ---- Clients left behind ----

  /** A client that is busy but has nothing in flight and nothing queued. */
  ghost predicate Stranded(c: Collector, client: nat) {
    client < |c.parsers| && c.parsers[client].active.Some? && !HasEntry(c.sender, client)
  }

  /** Nothing that can happen helps it: its parser never changes again, so every command is refused. */
  lemma {:induction false} StrandedForever(c: Collector, es: seq<Event>, client: nat)
    requires Owned(c) && PossibleRun(c, es) && Stranded(c, client)
    ensures Stranded(Run(c, es), client)
    ensures Run(c, es).parsers[client] == c.parsers[client]
    decreases |es|
  {
    if es != [] {
      StrandedStays(c, es[0], client);
      StrandedForever(Step(c, es[0]), es[1..], client);
    }
  }

  lemma StrandedStays(c: Collector, e: Event, client: nat)
    requires Owned(c) && Possible(c, e) && Stranded(c, client)
    ensures Owned(Step(c, e)) && Stranded(Step(c, e), client)
    ensures Step(c, e).parsers[client] == c.parsers[client]
  {
    hide React, Step, NewEntries, Owned, Entries;
    var before, after := Entries(c.sender), Entries(Step(c, e).sender);
    StepKeepsOwned(c, e);
    StepMoves(c, e, client);
    NewEntriesFrom(c, e);
    if e.Submission? && e.client == client {
      BusyRefuses(c.parsers[client], e);
    } else if IsResponse(e) && before != [] {
      assert before[0].client != client;
    }
    ResponseActor(c, e);
    forall i | 0 <= i < |after|
      ensures after[i].client != client
    {
      if after[i] in before {
        var k :| 0 <= k < |before| && before[k] == after[i];
      }
    }
  }

  lemma ResponseActor(c: Collector, e: Event)
    ensures IsResponse(e) && Entries(c.sender) == [] ==> Actor(c, e).None?
    ensures e.Submission? ==> Actor(c, e) == Some(e.client)
    ensures !e.Submission? && !IsResponse(e) ==> Actor(c, e).None?
  {
  }

  /** Entries after an event were there before, or belong to the client it reached, which sent something. */
  lemma NewEntriesFrom(c: Collector, e: Event)
    requires Owned(c) && Possible(c, e)
    ensures forall i | 0 <= i < |NewEntries(c, e)| ::
              NewEntries(c, e)[i] in Entries(c.sender) || Actor(c, e) == Some(NewEntries(c, e)[i].client)
    ensures e.Submission? && c.parsers[e.client].active.Some? ==> NewEntries(c, e) == Entries(c.sender)
  {
    var entries := Entries(c.sender);
    match Actor(c, e)
    case None =>
    case Some(client) =>
      var (f, _, g) := React(c.parsers[client], e);
      EntriesAfterFrom(entries, e, client, f.sends + g.sends);
      if e.Submission? && c.parsers[client].active.Some? {
        assert f.sends + g.sends == [] && entries + [] == entries;
      }
  }

  lemma EntriesAfterFrom(entries: seq<Entry>, e: Event, client: nat, sends: seq<EmsMessage>)
    ensures var after := EntriesAfter(entries, e, client, sends);
            forall i | 0 <= i < |after| :: after[i] in entries || after[i].client == client
  {
  }

  /** A client with an entry is left behind exactly when a message for the PC reaches it that either does
      not answer its request, or answers it with something unusable, which makes the client hear FAIL
      without dropping the request. */
  lemma StrandedExactly(c: Collector, e: Event, client: nat)
    requires Owned(c) && Possible(c, e) && HasEntry(c.sender, client)
    ensures Stranded(Step(c, e), client) <==>
              && e.PcMessage? && c.sender.current.Some? && c.sender.current.value.client == client
              && e.msg.typ != 0xff
              && (!Matches(c.parsers[client], e.msg) || Unusable(c.parsers[client], e.msg.data))
  {
    hide React, Step, NewEntries, OwnedBy, AllCounted, Conserved, Unusable, Matches;
    var entries := Entries(c.sender);
    var place :| 0 <= place < |entries| && entries[place].client == client;
    if IsResponse(e) && place == 0 {
      assert entries[0] == c.sender.current.value;
      CurrentAfter(c, e);
    } else {
      EntryMoves(c, e, place);
      if place > 0 {
        OwnedEntry(c, place);
        assert c.sender.current.Some? ==> entries[0] == c.sender.current.value;
      }
    }
  }

  /** The client whose turn it was: it keeps a request without an entry exactly in those cases. */
  lemma CurrentAfter(c: Collector, e: Event)
    requires Owned(c) && Possible(c, e) && IsResponse(e) && c.sender.current.Some?
    ensures var client := c.sender.current.value.client;
            Stranded(Step(c, e), client) <==>
              && e.PcMessage? && e.msg.typ != 0xff
              && (!Matches(c.parsers[client], e.msg) || Unusable(c.parsers[client], e.msg.data))
  {
    var client := c.sender.current.value.client;
    var (f, _, g) := React(c.parsers[client], e);
    StepMoves(c, e, client);
    LastEntry(c, e);
    ReactLeaves(c.parsers[client], e);
  }

  /** After its turn a client has an entry exactly if it sent something. */
  lemma LastEntry(c: Collector, e: Event)
    requires Owned(c) && Possible(c, e) && IsResponse(e) && c.sender.current.Some?
    ensures var client := c.sender.current.value.client;
            var (f, _, g) := React(c.parsers[client], e);
            HasEntry(Step(c, e).sender, client) <==> f.sends + g.sends != []
  {
    hide React, Step, OwnedBy, AllCounted, Conserved;
    var entries, after := Entries(c.sender), Entries(Step(c, e).sender);
    var client := c.sender.current.value.client;
    assert entries[0] == c.sender.current.value;
    var (f, _, g) := React(c.parsers[client], e);
    StepKeepsOwned(c, e);
    OwnedTail(entries, c.parsers);
    if f.sends + g.sends != [] {
      assert after[|after| - 1].client == client;
    } else {
      assert after == entries[1..];
    }
  }

  /** A response leaves a request without a new message exactly if it is a message that says nothing
      about the request, or fails it without dropping it. */
  lemma ReactLeaves(p: Parser, e: Event)
    requires Counted(p) && p.active.Some? && IsResponse(e)
    ensures var (f, _, g) := React(p, e);
            (g.p.active.Some? && f.sends + g.sends == []) <==>
              && e.PcMessage? && e.msg.typ != 0xff
              && (!Matches(p, e.msg) || Unusable(p, e.msg.data))
  {
    if e.PcMessage? {
      MessagePays(p, e.msg);
      if e.msg.typ != 0xff {
        FailsExactly(p, e.msg);
        FailureKeepsActive(p, e.msg);
      }
      if OnIncomingMessage(p, e.msg).p.active.None? && e.next.Some? {
        CommandPays(OnIncomingMessage(p, e.msg).p, e.next.value);
      }
    } else {
      TimeoutPays(p);
      if OnTimeout(p).0.p.active.None? && e.next.Some? {
        CommandPays(OnTimeout(p).0.p, e.next.value);
      }
    }
  }

  lemma FailureKeepsActive(p: Parser, msg: EmsMessage)
    requires p.active.Some? && msg.typ != 0xff
    ensures OnIncomingMessage(p, msg).verdict == Failure ==> OnIncomingMessage(p, msg).p.active.Some?
  {
    if Matches(p, msg) {
      FailureKeepsParser(Absorb(p, msg.data));
    }
  }

  lemma VacationAsked(p: Parser)
    requires p.active.None?
    ensures var f := Parse(p, HkGetVacation(HK1));
            && f.p.active.Some? && |f.sends| == 1 && !f.p.outputRaw && f.p.response == []
            && f.p.reqDest == ADDRESS_RC3X && f.p.reqType == 0x3f && f.p.reqOffset == 87
  {
  }

  lemma FirstSubmission(c: Collector, cmd: Command, now: int)
    requires Initial(c) && |c.parsers| > 0 && |Parse(c.parsers[0], cmd).sends| == 1
    ensures var d := Step(c, Submission(0, cmd, now));
            && Owned(d) && |d.parsers| == |c.parsers| && d.parsers[0] == Parse(c.parsers[0], cmd).p
            && d.sender.current.Some? && d.sender.current.value.client == 0
  {
    hide Parse;
    var e := Submission(0, cmd, now);
    InitialOwned(c);
    StepKeepsOwned(c, e);
    StepMoves(c, e, 0);
    assert |Entries(Step(c, e).sender)| == 1 && Entries(Step(c, e).sender)[0].client == 0;
  }

  /** The smallest such run: a vacation query, answered by a reply that says there is no data. */
  lemma ShortAnswerStrands(c: Collector)
    requires Initial(c) && |c.parsers| == 1
    ensures var ask := Submission(0, HkGetVacation(HK1), 0);
            var answer := PcMessage(EmsMessage(ADDRESS_RC3X, ADDRESS_PC, 0x3f, 87, []), None, 1);
            PossibleRun(c, [ask, answer]) && Stranded(Run(c, [ask, answer]), 0)
  {
    hide Parse, OnIncomingMessage, Step, Owned;
    var ask := Submission(0, HkGetVacation(HK1), 0);
    var answer := PcMessage(EmsMessage(ADDRESS_RC3X, ADDRESS_PC, 0x3f, 87, []), None, 1);
    var d := Step(c, ask);
    VacationAsked(c.parsers[0]);
    FirstSubmission(c, HkGetVacation(HK1), 0);
    FailsExactly(d.parsers[0], answer.msg);
    CurrentAfter(d, answer);
    assert [ask, answer][1..] == [answer] && [answer][1..] == [];
    assert PossibleRun(Step(d, answer), []) && Run(Step(d, answer), []) == Step(d, answer);
  }

  // ---- Orderly runs ----

  /** No message for the PC while a delayed send is armed; timers fire when set, and not early. */
  predicate Disciplined(s: Sender, e: Event) {
    match e
    case PcMessage(_, _, _) => s.armed.None?
    case Timeout(_, _) => s.deadline.Some?
    case SendTimer(now) => s.armed.Some? && s.armed.value.due <= now
    case _ => true
  }

  ghost predicate DisciplinedRun(c: Collector, es: seq<Event>)
    requires PossibleRun(c, es)
    decreases |es|
  {
    es == [] || (Disciplined(c.sender, es[0]) && DisciplinedRun(Step(c, es[0]), es[1..]))
  }

  /** Times that never go back, from `clock` on. */
  predicate Timely(clock: int, es: seq<Event>)
    decreases |es|
  {
    es == [] || (clock <= es[0].now && Timely(es[0].now, es[1..]))
  }

  lemma RespondOrderly(s: Sender, client: nat, first: seq<EmsMessage>, second: seq<EmsMessage>, now: int)
    requires Tidy(s, now) && s.armed.None? && s.deadline.None?
    requires s.current.None? ==> first == [] && second == []
    requires |first| <= 1 && |second| <= 1 && (first == [] || second == [])
    ensures Orderly(Respond(s, client, first, second, now), now)
  {
    hide Orderly, Tidy;
    SubmitAllOne(s, client, first, now);
    SubmitAllOne(SubmitAll(s, client, first, now), client, second, now);
    var sends := first + second;
    if sends == [] {
      ContinueOrderly(s, now);
    } else {
      assert sends[0] == if first != [] then first[0] else second[0];
      var queued := QueuedOrderly(s, client, sends[0], now);
      ContinueOrderly(queued, now);
    }
  }

  lemma NoticeKeepsTidy(s: Sender, source: byte, now: int)
    requires Orderly(s, now) && s.armed.None?
    ensures Tidy(NoteReply(s, source, now), now)
  {
    hide Spaced;
    NoteReplySpaced(s, source, now);
  }

  lemma ExpiryKeepsTidy(s: Sender, now: int)
    requires Orderly(s, now)
    ensures Tidy(s.(deadline := None), now) && (s.deadline.Some? ==> s.armed.None?)
  {
    hide Spaced;
    SameSpaced(s, s.(deadline := None), now);
  }

  lemma SenderStepOrderly(s: Sender, e: Event, client: nat, first: seq<EmsMessage>, second: seq<EmsMessage>)
    requires Orderly(s, e.now) && Disciplined(s, e)
    requires |first| <= 1 && |second| <= 1 && (first == [] || second == [])
    requires s.current.None? && IsResponse(e) ==> first == [] && second == []
    requires e.CancelledSend? ==> s.cancelled != []
    ensures Orderly(SenderStep(s, e, client, first, second), e.now)
  {
    hide Orderly, Tidy, Submit, ContinueWithNextRequest;
    match e
    case Submission(_, _, now) =>
      SubmitAllOne(s, client, first, now);
      if first != [] {
        SubmitOrderly(s, client, first[0], now);
      }
    case PcMessage(msg, _, now) =>
      NoticeKeepsTidy(s, msg.source, now);
      RespondOrderly(NoteReply(s, msg.source, now), client, first, second, now);
    case Timeout(_, now) =>
      ExpiryKeepsTidy(s, now);
      RespondOrderly(s.(deadline := None), client, first, second, now);
    case SendTimer(now) =>
      FireSendOrderly(s, now);
    case CancelledSend(now) =>
      NothingCancelled(s, now);
  }

  lemma NothingCancelled(s: Sender, clock: int)
    requires Orderly(s, clock)
    ensures s.cancelled == []
  {
  }

  lemma StepKeepsOrderly(c: Collector, e: Event, clock: int)
    requires Owned(c) && Orderly(c.sender, clock) && clock <= e.now && Possible(c, e) && Disciplined(c.sender, e)
    ensures Orderly(Step(c, e).sender, e.now)
  {
    hide React, Orderly, SenderStep, Conserved;
    LaterTidy(c.sender, clock, e.now);
    match Actor(c, e)
    case None =>
      SenderStepOrderly(c.sender, e, 0, [], []);
    case Some(client) =>
      if IsResponse(e) {
        assert Entries(c.sender)[0] == c.sender.current.value;
      }
      ReactSound(c.parsers[client], e);
      var (f, _, g) := React(c.parsers[client], e);
      SenderStepOrderly(c.sender, e, client, f.sends, g.sends);
  }

  lemma {:induction false} RunKeepsOrderly(c: Collector, es: seq<Event>, clock: int) returns (end: int)
    requires Owned(c) && Orderly(c.sender, clock) && Timely(clock, es) && PossibleRun(c, es) && DisciplinedRun(c, es)
    ensures Orderly(Run(c, es).sender, end)
    decreases |es|
  {
    hide Owned, Orderly, Step;
    end := clock;
    if es != [] {
      StepKeepsOrderly(c, es[0], clock);
      StepKeepsOwned(c, es[0]);
      end := RunKeepsOrderly(Step(c, es[0]), es[1..], es[0].now);
    }
  }

  /** In an orderly scheduler no event brings a transmission closer to an earlier contact than 100 ms. */
  lemma SenderStepSince(s: Sender, e: Event, client: nat, first: seq<EmsMessage>, second: seq<EmsMessage>,
                        device: byte, t: int, n: nat)
    requires Orderly(s, e.now) && Disciplined(s, e) && Since(s, device, t, n) && t <= e.now
    ensures Since(SenderStep(s, e, client, first, second), device, t, n)
  {
    hide Orderly, Tidy, Since, SubmitAll, ContinueWithNextRequest;
    match e
    case Submission(_, _, now) =>
      SubmitAllSince(s, client, first, now, device, t, n);
    case PcMessage(msg, _, now) =>
      NoteReplySince(s, msg.source, now, device, t, n);
      RespondSince(NoteReply(s, msg.source, now), client, first, second, now, device, t, n);
    case Timeout(_, now) =>
      SameContacts(s, s.(deadline := None), device, t, n);
      RespondSince(s.(deadline := None), client, first, second, now, device, t, n);
    case SendTimer(now) =>
      OrderlyIsTidy(s, now);
      FireSendSince(s, now, device, t, n);
    case CancelledSend(now) =>
      NothingCancelled(s, now);
  }

  lemma OrderlyIsTidy(s: Sender, clock: int)
    requires Orderly(s, clock)
    ensures Tidy(s, clock)
  {
  }

  lemma RespondSince(s: Sender, client: nat, first: seq<EmsMessage>, second: seq<EmsMessage>, now: int,
                     device: byte, t: int, n: nat)
    requires Since(s, device, t, n)
    ensures Since(Respond(s, client, first, second, now), device, t, n)
  {
    hide Since, SubmitAll, ContinueWithNextRequest;
    SubmitAllSince(s, client, first, now, device, t, n);
    SubmitAllSince(SubmitAll(s, client, first, now), client, second, now, device, t, n);
    ContinueSince(SubmitAll(SubmitAll(s, client, first, now), client, second, now), now, device, t, n);
  }

  lemma StepSince(c: Collector, e: Event, device: byte, t: int, n: nat)
    requires Orderly(c.sender, e.now) && Possible(c, e) && Disciplined(c.sender, e)
    ensures Since(c.sender, device, t, n) && t <= e.now ==> Since(Step(c, e).sender, device, t, n)
    ensures e.PcMessage? ==> Since(Step(c, e).sender, e.msg.source, e.now, |c.sender.wire|)
  {
    hide React, Orderly, Since, SenderStep;
    var (client, first, second) :=
      match Actor(c, e)
      case None => (0, [], [])
      case Some(client) => var (f, _, g) := React(c.parsers[client], e); (client, f.sends, g.sends);
    assert Step(c, e).sender == SenderStep(c.sender, e, client, first, second);
    if Since(c.sender, device, t, n) && t <= e.now {
      SenderStepSince(c.sender, e, client, first, second, device, t, n);
    }
    if e.PcMessage? {
      NoteReplySince(c.sender, e.msg.source, e.now, device, t, n);
      RespondSince(NoteReply(c.sender, e.msg.source, e.now), client, first, second, e.now,
                   e.msg.source, e.now, |c.sender.wire|);
      MessageStep(c.sender, e, client, first, second);
    }
  }

  lemma MessageStep(s: Sender, e: Event, client: nat, first: seq<EmsMessage>, second: seq<EmsMessage>)
    requires e.PcMessage?
    ensures SenderStep(s, e, client, first, second)
            == Respond(NoteReply(s, e.msg.source, e.now), client, first, second, e.now)
  {
  }

  lemma {:induction false} RunSince(c: Collector, es: seq<Event>, clock: int, device: byte, t: int, n: nat)
    requires Owned(c) && Orderly(c.sender, clock) && Timely(clock, es) && PossibleRun(c, es) && DisciplinedRun(c, es)
    requires Since(c.sender, device, t, n) && t <= clock
    ensures Since(Run(c, es).sender, device, t, n)
    decreases |es|
  {
    hide Owned, Orderly, Step, Since, Disciplined;
    if es != [] {
      StepKeepsOrderly(c, es[0], clock);
      StepKeepsOwned(c, es[0]);
      LaterTidy(c.sender, clock, es[0].now);
      StepSince(c, es[0], device, t, n);
      RunSince(Step(c, es[0]), es[1..], es[0].now, device, t, n);
    }
  }

  /** What was sent to a device from the reply number `k` of the run on is at least 100 ms after it. */
  lemma {:induction false} AfterReply(c: Collector, es: seq<Event>, clock: int, k: nat)
    requires Owned(c) && Orderly(c.sender, clock) && Timely(clock, es) && PossibleRun(c, es) && DisciplinedRun(c, es)
    requires k < |es| && es[k].PcMessage?
    ensures Since(Run(c, es).sender, es[k].msg.source, es[k].now, SentBefore(c, es, k))
    decreases |es|
  {
    hide Owned, Orderly, Step, Since, Disciplined;
    StepKeepsOrderly(c, es[0], clock);
    StepKeepsOwned(c, es[0]);
    if k == 0 {
      LaterTidy(c.sender, clock, es[0].now);
      StepSince(c, es[0], es[0].msg.source, es[0].now, 0);
      RunSince(Step(c, es[0]), es[1..], es[0].now, es[0].msg.source, es[0].now, |c.sender.wire|);
    } else {
      AfterReply(Step(c, es[0]), es[1..], es[0].now, k - 1);
    }
  }

  /** Transmissions to one device are 100 ms apart; times are in microseconds. */
  ghost predicate ApartOnWire(wire: seq<Sent>) {
    forall i, j | 0 <= i < j < |wire| && wire[i].msg.GetDestination() == wire[j].msg.GetDestination() ::
      wire[j].at >= wire[i].at + 100_000
  }

  /** What is sent to a device after a message from it was handled, even by that handling, is 100 ms later. */
  ghost predicate ApartFromReplies(c: Collector, es: seq<Event>, wire: seq<Sent>)
    requires PossibleRun(c, es)
  {
    forall k, j | 0 <= k < |es| && es[k].PcMessage? && SentBefore(c, es, k) <= j < |wire|
                  && wire[j].msg.GetDestination() == es[k].msg.source ::
      wire[j].at >= es[k].now + 100_000
  }

  lemma SpacedIsApart(s: Sender, clock: int)
    requires Spaced(s, clock)
    ensures ApartOnWire(s.wire)
  {
    forall i, j | 0 <= i < j < |s.wire| && s.wire[i].msg.GetDestination() == s.wire[j].msg.GetDestination()
      ensures s.wire[j].at >= s.wire[i].at + MIN_DISTANCE
    {
      assert Since(s, s.wire[i].msg.GetDestination(), s.wire[i].at, i + 1);
    }
  }

  /** In such runs, from the start on and with a clock that never goes back, messages go out in the order
      clients sent them, each once, and every one keeps 100 ms from the last message sent to its device
      and from the last message that came from there. */
  lemma DisciplinedRunsAreOrderly(c: Collector, es: seq<Event>)
    requires Initial(c) && PossibleRun(c, es) && DisciplinedRun(c, es)
    requires Timely(if es == [] then 0 else es[0].now, es)
    ensures var wire := Run(c, es).sender.wire;
            && WireMessages(wire) <= Requested(c, es) && ApartOnWire(wire) && ApartFromReplies(c, es, wire)
  {
    hide Run, Spaced, Since, Orderly, ApartOnWire, ApartFromReplies, DisciplinedRun, Timely, Owned, Initial,
         PossibleRun, Requested, WireMessages;
    var clock := if es == [] then 0 else es[0].now;
    InitialOwned(c);
    InitialIsIdle(c);
    InitialOrderly(c.sender, clock);
    var end := RunKeepsOrderly(c, es, clock);
    var s := Run(c, es).sender;
    RunSubmits(c, es);
    assert [] + Requested(c, es) == Requested(c, es);
    OrderlyPrefix(s, end);
    SpacedIsApart(s, end);
    RepliesApart(c, es, clock);
  }

  lemma RepliesApart(c: Collector, es: seq<Event>, clock: int)
    requires Owned(c) && Orderly(c.sender, clock) && Timely(clock, es) && PossibleRun(c, es) && DisciplinedRun(c, es)
    ensures ApartFromReplies(c, es, Run(c, es).sender.wire)
  {
    hide Run, Since, Owned, Orderly, SentBefore;
    var s := Run(c, es).sender;
    forall k, j | 0 <= k < |es| && es[k].PcMessage? && SentBefore(c, es, k) <= j < |s.wire|
                  && s.wire[j].msg.GetDestination() == es[k].msg.source
      ensures s.wire[j].at >= es[k].now + MIN_DISTANCE
    {
      AfterReply(c, es, clock, k);
      SinceAt(s, es[k].msg.source, es[k].now, SentBefore(c, es, k), j);
    }
  }

  lemma InitialIsIdle(c: Collector)
    requires Initial(c)
    ensures c.sender == IDLE && c.sender.submitted == []
  {
  }

  lemma InitialOrderly(s: Sender, clock: int)
    requires s == IDLE
    ensures Orderly(s, clock)
  {
  }

  lemma OrderlyPrefix(s: Sender, clock: int)
    requires Orderly(s, clock)
    ensures WireMessages(s.wire) <= s.submitted && Spaced(s, clock)
  {
    hide Spaced;
    assert s.submitted == WireMessages(s.wire) + (ArmedMessages(s.armed) + PendingMessages(s.pending));
  }

  lemma SinceAt(s: Sender, device: byte, t: int, n: nat, j: nat)
    requires Since(s, device, t, n) && n <= j < |s.wire| && s.wire[j].msg.GetDestination() == device
    ensures s.wire[j].at >= t + MIN_DISTANCE
  {
  }
}
