/** The command handler of collector/CommandHandler.cpp with all its connections, and the scheduler they
    share: the objects together, event by event, are the system of module System. */
module Connections {
  import opened Wrappers
  import opened Messages
  import opened Commands
  import S = Scheduler
  import R = Requests
  import Y = System

  class CommandHandler {
    const sender: EmsCommandSender
    const connections: ConnectionSet

    /** The connections are numbered and use this sender; and, as an invariant of the objects, every client
        has at most one message queued or in flight, which is its active request. */
    ghost predicate Valid()
      reads sender, connections, connections.parsers
    {
      Numbered() && Y.Owned(Abstract())
    }

    ghost predicate Numbered()
      reads sender, connections
    {
      && sender.connections == connections && sender.Valid()
      && forall i | 0 <= i < |connections.parsers| ::
           connections.parsers[i].id == i && connections.parsers[i].sender == sender
    }

    ghost function Abstract(): Y.Collector
      reads sender, connections, connections.parsers
    {
      Y.Collector(sender.State(), seq(|connections.parsers|,
        i requires 0 <= i < |connections.parsers| reads connections, connections.parsers =>
          connections.parsers[i].State()))
    }

    constructor ()
      ensures Valid() && Y.Initial(Abstract()) && connections.parsers == []
      ensures fresh(sender) && fresh(connections)
    {
      var none := new ConnectionSet();
      connections := none;
      sender := new EmsCommandSender(none);
      new;
      Y.InitialOwned(Abstract());
    }

    /** Another connection is added; the others do not notice. */
    method StartConnection()
      requires Valid()
      modifies connections
      ensures Valid() && |connections.parsers| == old(|connections.parsers|) + 1
      ensures connections.parsers[..old(|connections.parsers|)] == old(connections.parsers)
      ensures fresh(connections.parsers[old(|connections.parsers|)])
      ensures var p := connections.parsers[old(|connections.parsers|)].State();
              && p.active.None? && R.FreshRequest(p)
              && Abstract() == old(Abstract()).(parsers := old(Abstract()).parsers + [p])
    {
      hide Y.Owned, EmsCommandSender.State;
      ghost var before := Abstract();
      var client := new ApiCommandParser(|connections.parsers|, sender);
      connections.parsers := connections.parsers + [client];
      assert Abstract().parsers == before.parsers + [client.State()];
      OwnedWithNew(before, client.State());
    }

    /** A command arrives on a connection (handleRequest). */
    method HandleRequest(client: nat, cmd: R.Command, now: int)
      requires Valid() && client < |connections.parsers|
      modifies sender, connections.parsers[client]
      ensures Valid() && Abstract() == Y.Step(old(Abstract()), Y.Submission(client, cmd, now))
      ensures forall i | 0 <= i < |connections.parsers| ::
                connections.parsers[i].output
                == old(connections.parsers[i].output) + Y.Told(old(Abstract()), Y.Submission(client, cmd, now), i)
    {
      hide Y.Owned, EmsCommandSender.State, ApiCommandParser.State, R.Parse, S.SubmitAll;
      ghost var before := Abstract();
      connections.parsers[client].Parse(cmd, now);
      OnlyOneChanged(before.parsers, client);
      Y.StepKeepsOwned(before, Y.Submission(client, cmd, now));
    }

    /** A message for the PC; `next` is what the client it reaches asks for when it hears a result. */
    method HandlePcMessage(message: EmsMessage, next: Option<R.Command>, now: int)
      requires Valid()
      modifies sender, connections.parsers
      ensures Y.Possible(old(Abstract()), Y.PcMessage(message, next, now))
      ensures Valid() && Abstract() == Y.Step(old(Abstract()), Y.PcMessage(message, next, now))
      ensures forall i | 0 <= i < |connections.parsers| ::
                connections.parsers[i].output
                == old(connections.parsers[i].output) + Y.Told(old(Abstract()), Y.PcMessage(message, next, now), i)
    {
      hide Y.Owned, ApiCommandParser.State, Y.React, Y.SenderStep;
      ghost var before, client := Abstract(), sender.currentClient;
      sender.HandlePcMessage(message, next, now);
      if client != null {
        OnlyOneChanged(before.parsers, client.id);
        assert before.parsers[client.id] == old(client.State());
      } else {
        assert Abstract().parsers == before.parsers;
      }
      Y.StepKeepsOwned(before, Y.PcMessage(message, next, now));
    }

    method HandleResponseTimeout(next: Option<R.Command>, now: int)
      requires Valid()
      modifies sender, connections.parsers
      ensures Y.Possible(old(Abstract()), Y.Timeout(next, now))
      ensures Valid() && Abstract() == Y.Step(old(Abstract()), Y.Timeout(next, now))
      ensures forall i | 0 <= i < |connections.parsers| ::
                connections.parsers[i].output
                == old(connections.parsers[i].output) + Y.Told(old(Abstract()), Y.Timeout(next, now), i)
    {
      hide Y.Owned, ApiCommandParser.State, Y.React, Y.SenderStep;
      ghost var before, client := Abstract(), sender.currentClient;
      sender.HandleResponseTimeout(next, now);
      if client != null {
        OnlyOneChanged(before.parsers, client.id);
        assert before.parsers[client.id] == old(client.State());
      } else {
        assert Abstract().parsers == before.parsers;
      }
      Y.StepKeepsOwned(before, Y.Timeout(next, now));
    }

    method HandleSendTimer(now: int)
      requires Valid() && sender.sendTimer.Some?
      modifies sender
      ensures Valid() && Abstract() == Y.Step(old(Abstract()), Y.SendTimer(now))
      ensures forall i | 0 <= i < |connections.parsers| ::
                connections.parsers[i].output
                == old(connections.parsers[i].output) + Y.Told(old(Abstract()), Y.SendTimer(now), i)
    {
      hide Y.Owned;
      ghost var before := Abstract();
      sender.HandleSendTimer(now);
      assert Abstract().parsers == before.parsers;
      Y.StepKeepsOwned(before, Y.SendTimer(now));
    }

    method HandleCancelledSend(now: int)
      requires Valid() && sender.cancelledSends != []
      modifies sender
      ensures Valid() && Abstract() == Y.Step(old(Abstract()), Y.CancelledSend(now))
      ensures forall i | 0 <= i < |connections.parsers| ::
                connections.parsers[i].output
                == old(connections.parsers[i].output) + Y.Told(old(Abstract()), Y.CancelledSend(now), i)
    {
      hide Y.Owned;
      ghost var before := Abstract();
      sender.HandleCancelledSend(now);
      assert Abstract().parsers == before.parsers;
      Y.StepKeepsOwned(before, Y.CancelledSend(now));
    }

    /** The event loop: whatever is proved of runs is proved of these objects. */
    method Run(es: seq<Y.Event>)
      requires Valid() && Y.PossibleRun(Abstract(), es)
      modifies sender, connections.parsers
      ensures Valid() && Abstract() == Y.Run(old(Abstract()), es)
      ensures forall i | 0 <= i < |connections.parsers| ::
                connections.parsers[i].output
                == old(connections.parsers[i].output) + Y.ToldInRun(old(Abstract()), es, i)
    {
      hide Y.Owned, Y.Step, Abstract;
      ghost var start := Abstract();
      var i := 0;
      assert es[0..] == es;
      while i < |es|
        invariant i <= |es| && Valid() && Y.PossibleRun(Abstract(), es[i..])
        invariant Y.Run(Abstract(), es[i..]) == Y.Run(start, es)
        invariant forall k | 0 <= k < |connections.parsers| ::
                    connections.parsers[k].output + Y.ToldInRun(Abstract(), es[i..], k)
                    == old(connections.parsers[k].output) + Y.ToldInRun(start, es, k)
      {
        assert es[i..][0] == es[i] && es[i..][1..] == es[i + 1..];
        Handle(es[i]);
        i := i + 1;
      }
    }

    method Handle(e: Y.Event)
      requires Valid() && Y.Possible(Abstract(), e)
      modifies sender, connections.parsers
      ensures Valid() && Abstract() == Y.Step(old(Abstract()), e)
      ensures forall i | 0 <= i < |connections.parsers| ::
                connections.parsers[i].output
                == old(connections.parsers[i].output) + Y.Told(old(Abstract()), e, i)
    {
      hide Y.Owned, Y.Step;
      match e {
        case Submission(client, cmd, now) => HandleRequest(client, cmd, now);
        case PcMessage(msg, next, now) => HandlePcMessage(msg, next, now);
        case Timeout(next, now) => HandleResponseTimeout(next, now);
        case SendTimer(now) => HandleSendTimer(now);
        case CancelledSend(now) => HandleCancelledSend(now);
      }
    }

    /** Where all parsers but one are as before, the abstract parsers differ in that one. */
    lemma OnlyOneChanged(before: seq<R.Parser>, client: nat)
      requires client < |connections.parsers| == |before|
      requires forall i | 0 <= i < |before| && i != client :: connections.parsers[i].State() == before[i]
      ensures Abstract().parsers == before[client := connections.parsers[client].State()]
    {
    }
  }

  /** A new client owns nothing, and takes nothing away. */
  lemma OwnedWithNew(c: Y.Collector, p: R.Parser)
    requires Y.Owned(c) && p.active.None?
    ensures Y.Owned(c.(parsers := c.parsers + [p]))
  {
    hide S.Conserved, S.Live, Y.Entries;
  }
}
