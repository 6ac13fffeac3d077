/** From the bus through ring, serial line and deframer: what arrives is what was heard. */
module EndToEnd {
  import opened Bytes
  import opened Frames
  import opened Framer
  import Crc
  import Deframer
  import Recovery

  // ---- The reference: which frames the bus carried ----

  predicate HasBreak(heard: seq<Rx>) {
    exists i | 0 <= i < |heard| :: heard[i].frameError
  }

  /** The data heard since the last break. */
  function SinceBreak(heard: seq<Rx>): seq<byte> {
    var n := |heard| - 1;
    if heard == [] || heard[n].frameError then [] else SinceBreak(heard[..n]) + [heard[n].data]
  }

  function Truncate(s: seq<byte>): seq<byte> {
    if |s| <= 64 then s else s[..64]
  }

  /** What lies between two breaks is a frame if it has data and a correct checksum, which is dropped.
      Only the first 64 bytes are looked at. */
  function Candidate(raw: seq<byte>): seq<seq<byte>> {
    var n := |Truncate(raw)| - 1;
    if n >= 1 && Crc.Accepts(Truncate(raw)[..n], Truncate(raw)[n]) then [Truncate(raw)[..n]] else []
  }

  function BusFrames(heard: seq<Rx>): seq<seq<byte>> {
    var n := |heard| - 1;
    if heard == [] then []
    else if heard[n].frameError && HasBreak(heard[..n]) then
      BusFrames(heard[..n]) + Candidate(SinceBreak(heard[..n]))
    else BusFrames(heard[..n])
  }

  /** The frames marked true. */
  function Select(frames: seq<seq<byte>>, marks: seq<bool>): seq<seq<byte>>
    requires |frames| == |marks|
  {
    var n := |frames| - 1;
    if frames == [] then []
    else Select(frames[..n], marks[..n]) + (if marks[n] then [frames[n]] else [])
  }

  // ---- The ring as a queue ----

  function Slot(readPos: nat, i: nat): (k: nat)
    requires readPos < TRANSMIT_BUF_SIZE && i < TRANSMIT_BUF_SIZE
    ensures k < TRANSMIT_BUF_SIZE
  {
    if readPos + i < TRANSMIT_BUF_SIZE then readPos + i else readPos + i - TRANSMIT_BUF_SIZE
  }

  /** From `readPos` on, the ring holds the last `n` bytes of the stream. */
  ghost predicate Holds(ring: seq<byte>, readPos: nat, n: nat, stream: seq<byte>) {
    && |ring| == TRANSMIT_BUF_SIZE && readPos < TRANSMIT_BUF_SIZE && n < TRANSMIT_BUF_SIZE && n <= |stream|
    && forall i {:trigger Slot(readPos, i)} | 0 <= i < n ::
         ring[Slot(readPos, i)] == stream[|stream| - n + i]
  }

  lemma PutExtends(ring: seq<byte>, readPos: nat, n: nat, stream: seq<byte>, b: byte)
    requires Holds(ring, readPos, n, stream) && n + 1 < TRANSMIT_BUF_SIZE
    ensures Put(ring, Slot(readPos, n), b).1 == Slot(readPos, n + 1)
    ensures Holds(Put(ring, Slot(readPos, n), b).0, readPos, n + 1, stream + [b])
  {
  }

  lemma {:induction false} PutAllExtends(ring: seq<byte>, readPos: nat, n: nat, stream: seq<byte>, bs: seq<byte>)
    requires Holds(ring, readPos, n, stream) && n + |bs| < TRANSMIT_BUF_SIZE
    ensures PutAll(ring, Slot(readPos, n), bs).1 == Slot(readPos, n + |bs|)
    ensures Holds(PutAll(ring, Slot(readPos, n), bs).0, readPos, n + |bs|, stream + bs)
    decreases |bs|
  {
    var k := |bs| - 1;
    if bs == [] {
      assert stream + bs == stream;
    } else {
      PutAllExtends(ring, readPos, n, stream, bs[..k]);
      PutExtends(PutAll(ring, Slot(readPos, n), bs[..k]).0, readPos, n + k, stream + bs[..k], bs[k]);
      assert stream + bs[..k] + [bs[k]] == stream + bs;
    }
  }

  lemma SlotUsed(writePos: nat, readPos: nat)
    requires writePos < TRANSMIT_BUF_SIZE && readPos < TRANSMIT_BUF_SIZE
    ensures Used(writePos, readPos) < TRANSMIT_BUF_SIZE && Slot(readPos, Used(writePos, readPos)) == writePos
  {
  }

  lemma UsedSlot(readPos: nat, n: nat)
    requires readPos < TRANSMIT_BUF_SIZE && n < TRANSMIT_BUF_SIZE
    ensures Used(Slot(readPos, n), readPos) == n
  {
  }

  /** Ring safety: an accepted frame goes in whole, the byte being read stays, and a ring that was
      just filled is never mistaken for an empty one. */
  lemma FrameFits(ring: seq<byte>, writePos: nat, readPos: nat, stream: seq<byte>, p: seq<byte>)
    requires writePos < TRANSMIT_BUF_SIZE && readPos < TRANSMIT_BUF_SIZE
    requires Holds(ring, readPos, Used(writePos, readPos), stream)
    requires |p| < RECV_BUF_SIZE && EnoughSpace(writePos, readPos, |p|)
    ensures var (ring', writePos') := PutAll(ring, writePos, Encode(p));
            && writePos' != readPos
            && Used(writePos', readPos) == Used(writePos, readPos) + |p| + 4
            && Holds(ring', readPos, Used(writePos', readPos), stream + Encode(p))
            && (writePos != readPos ==> ring'[readPos] == ring[readPos])
  {
    var n, bs := Used(writePos, readPos), Encode(p);
    SlotUsed(writePos, readPos);
    assert |bs| == |p| + 4 && n + |bs| < TRANSMIT_BUF_SIZE;
    PutAllExtends(ring, readPos, n, stream, bs);
    UsedSlot(readPos, n + |bs|);
    if n > 0 {
      FirstSlot(ring, readPos, n, stream);
      FirstSlot(PutAll(ring, writePos, bs).0, readPos, n + |bs|, stream + bs);
    }
  }

  lemma FirstSlot(ring: seq<byte>, readPos: nat, n: nat, stream: seq<byte>)
    requires Holds(ring, readPos, n, stream) && n > 0
    ensures ring[readPos] == stream[|stream| - n]
  {
    assert Slot(readPos, 0) == readPos;
  }

  // ---- The invariant of every interleaving ----

  /** The line carries the stream of queued frames up to a point; the ring carries it from the read
      position on, which is that point except between writing a byte and advancing. */
  ghost predicate LineInv(f: State, stream: seq<byte>) {
    && InRange(f)
    && Holds(f.ring, f.readPos, Used(f.writePos, f.readPos), stream)
    && |f.line| + Used(f.writePos, f.readPos) == |stream| + (if f.pc == Advance then 1 else 0)
    && |f.line| <= |stream| && f.line == stream[..|f.line|]
    && (f.pc != Check ==> f.writePos != f.readPos)
    && (f.pc.Write? ==> f.pc.ch == stream[|f.line|])
  }

  ghost predicate BusInv(f: State) {
    && f.recvValid == HasBreak(f.heard)
    && f.recv == (if f.recvValid then Truncate(SinceBreak(f.heard)) else [])
    && |f.verdicts| == |BusFrames(f.heard)|
    && f.queued == Select(BusFrames(f.heard), f.verdicts)
  }

  ghost predicate Inv(f: State) {
    InRange(f) && LineInv(f, EncodeAll(f.queued)) && BusInv(f) && AllSendable(f.queued)
  }

  lemma InitialInv(f: State)
    requires Initial(f)
    ensures Inv(f)
  {
  }

  lemma MainStepKeepsLine(f: State, stream: seq<byte>)
    requires LineInv(f, stream)
    ensures LineInv(MainStep(f), stream)
  {
    var g := MainStep(f);
    var n := Used(f.writePos, f.readPos);
    if f.pc == Load {
      FirstSlot(f.ring, f.readPos, n, stream);
    } else if f.pc.Write? {
      assert g.line == stream[..|g.line|];
    } else if f.pc == Advance {
      assert Used(g.writePos, g.readPos) == n - 1;
      forall i | 0 <= i < n - 1
        ensures g.ring[Slot(g.readPos, i)] == stream[|stream| - (n - 1) + i]
      {
        assert Slot(g.readPos, i) == Slot(f.readPos, i + 1);
      }
    }
  }

  lemma QueueKeepsLine(f: State, g: State, stream: seq<byte>, p: seq<byte>)
    requires LineInv(f, stream) && |p| < RECV_BUF_SIZE && EnoughSpace(f.writePos, f.readPos, |p|)
    requires PutAll(f.ring, f.writePos, Encode(p)) == (g.ring, g.writePos)
    requires g.readPos == f.readPos && g.pc == f.pc && g.line == f.line
    ensures LineInv(g, stream + Encode(p))
  {
    FrameFits(f.ring, f.writePos, f.readPos, stream, p);
  }

  lemma HasBreakSnoc(heard: seq<Rx>, rx: Rx)
    ensures HasBreak(heard + [rx]) <==> HasBreak(heard) || rx.frameError
  {
    var all := heard + [rx];
    if HasBreak(heard) {
      var i :| 0 <= i < |heard| && heard[i].frameError;
      assert all[i].frameError;
    }
    if rx.frameError {
      assert all[|heard|].frameError;
    }
  }

  lemma HeardSnoc(heard: seq<Rx>, rx: Rx)
    ensures var all := heard + [rx];
            && HasBreak(all) == (HasBreak(heard) || rx.frameError)
            && SinceBreak(all) == (if rx.frameError then [] else SinceBreak(heard) + [rx.data])
            && BusFrames(all) == BusFrames(heard)
                 + (if rx.frameError && HasBreak(heard) then Candidate(SinceBreak(heard)) else [])
  {
    hide Candidate, HasBreak;
    var all := heard + [rx];
    assert all[..|all| - 1] == heard;
    HasBreakSnoc(heard, rx);
  }

  lemma ReceiveKeepsInv(f: State, rx: Rx)
    requires Inv(f)
    ensures Inv(ReceiveByte(f, rx))
  {
    hide Holds, Select, Crc.Crc, EncodeAll, PutAll, HasBreak, BusFrames, SinceBreak, Used;
    HeardSnoc(f.heard, rx);
    assert BusFrames(f.heard) + [] == BusFrames(f.heard);
    if rx.frameError && f.recvValid {
      var n := |f.recv| - 1;
      if n >= 1 && Crc.Accepts(f.recv[..n], f.recv[n]) {
        FrameEndKeepsInv(f, f.recv[..n]);
      }
    }
  }

  lemma FrameEndKeepsInv(f: State, p: seq<byte>)
    requires Inv(f) && 2 <= |f.recv| <= RECV_BUF_SIZE && p == f.recv[..|f.recv| - 1]
    requires Crc.Accepts(p, f.recv[|p|])
    ensures var g := EndOfFrame(f);
            && LineInv(g, EncodeAll(g.queued)) && AllSendable(g.queued)
            && |g.verdicts| == |f.verdicts| + 1
            && g.queued == Select(BusFrames(f.heard) + [p], g.verdicts)
  {
    hide Select, Crc.Crc, EncodeAll, PutAll, BusFrames;
    var g := EndOfFrame(f);
    var enough := EnoughSpace(f.writePos, f.readPos, |p|);
    SelectSnoc(BusFrames(f.heard), f.verdicts, p, enough);
    if enough {
      EncodeAllSnoc(f.queued, p);
      QueueKeepsLine(f, g, EncodeAll(f.queued), p);
    }
  }

  lemma SelectSnoc(frames: seq<seq<byte>>, marks: seq<bool>, p: seq<byte>, mark: bool)
    requires |frames| == |marks|
    ensures Select(frames + [p], marks + [mark]) == Select(frames, marks) + (if mark then [p] else [])
  {
    assert (frames + [p])[..|frames|] == frames && (marks + [mark])[..|marks|] == marks;
  }

  lemma MoveKeepsInv(f: State, m: Move)
    requires Inv(f)
    ensures Inv(Next(f, m))
  {
    match m {
      case Receive(rx) => ReceiveKeepsInv(f, rx);
      case MainLoop => MainStepKeepsLine(f, EncodeAll(f.queued));
    }
  }

  lemma {:induction false} RunKeepsInv(f: State, ms: seq<Move>)
    requires Inv(f)
    ensures Inv(Run(f, ms))
    decreases |ms|
  {
    if ms != [] {
      MoveKeepsInv(f, ms[0]);
      RunKeepsInv(Next(f, ms[0]), ms[1..]);
    }
  }

  // ---- Which frames there is room for ----

  /** What the bus delivers during the moves. */
  function Received(ms: seq<Move>): seq<Rx> {
    if ms == [] then [] else (if ms[0].Receive? then [ms[0].rx] else []) + Received(ms[1..])
  }

  lemma MoveHears(f: State, m: Move)
    requires InRange(f)
    ensures Next(f, m).heard == f.heard + (if m.Receive? then [m.rx] else [])
  {
    hide EndOfFrame;
    if m.Receive? {
      FrameEndHearsNothing(f);
    }
  }

  lemma FrameEndHearsNothing(f: State)
    requires InRange(f)
    ensures EndOfFrame(f).heard == f.heard
  {
    hide Crc.Accepts, PutAll, EnoughSpace;
  }

  /** The firmware takes in every byte of the bus, in order, whatever it does in between. */
  lemma {:induction false} RunHears(f: State, ms: seq<Move>)
    requires InRange(f)
    ensures Run(f, ms).heard == f.heard + Received(ms)
    decreases |ms|
  {
    hide Next, InRange;
    if ms == [] {
      assert f.heard + [] == f.heard;
    } else {
      var now := if ms[0].Receive? then [ms[0].rx] else [];
      MoveHears(f, ms[0]);
      RunHears(Next(f, ms[0]), ms[1..]);
      assert f.heard + now + Received(ms[1..]) == f.heard + (now + Received(ms[1..]));
    }
  }

  /** The frame that this byte ends, if it ends a valid one. */
  function Ended(heard: seq<Rx>, rx: Rx): seq<seq<byte>> {
    if rx.frameError && HasBreak(heard) then Candidate(SinceBreak(heard)) else []
  }

  /** There is room for a frame if what was queued and has not left the ring, the frame, and five bytes
      fit into the ring of 250 together. A byte leaves the ring when the main loop advances behind it. */
  predicate HasRoom(f: State, p: seq<byte>) {
    |EncodeAll(f.queued)| - |f.line| + (if f.pc == Advance then 1 else 0) + |p| + 5 <= 250
  }

  /** For every valid frame that ends during the moves, in order, whether there is room for it then;
      `heard` is what the bus delivered before. */
  ghost function Rooms(f: State, heard: seq<Rx>, ms: seq<Move>): seq<bool>
    requires InRange(f)
    decreases |ms|
  {
    if ms == [] then []
    else if ms[0].Receive? then
      (if Ended(heard, ms[0].rx) != [] then [HasRoom(f, Ended(heard, ms[0].rx)[0])] else [])
      + Rooms(Next(f, ms[0]), heard + [ms[0].rx], ms[1..])
    else Rooms(Next(f, ms[0]), heard, ms[1..])
  }

  /** The firmware's verdict on a frame is that there is room for it, and only frame ends make verdicts. */
  lemma VerdictIsRoom(f: State, rx: Rx)
    requires Inv(f)
    ensures ReceiveByte(f, rx).verdicts ==
            f.verdicts + (if Ended(f.heard, rx) != [] then [HasRoom(f, Ended(f.heard, rx)[0])] else [])
  {
    hide Holds, Select, Crc.Crc, EncodeAll, PutAll, HasBreak, BusFrames, SinceBreak;
    assert f.verdicts + [] == f.verdicts;
  }

  lemma {:induction false} VerdictsAreRooms(f: State, ms: seq<Move>)
    requires Inv(f)
    ensures Run(f, ms).verdicts == f.verdicts + Rooms(f, f.heard, ms)
    decreases |ms|
  {
    hide LineInv, BusInv, Ended, HasRoom, ReceiveByte;
    if ms == [] {
      assert f.verdicts + [] == f.verdicts;
    } else {
      MoveKeepsInv(f, ms[0]);
      MoveHears(f, ms[0]);
      assert f.heard + [] == f.heard;
      if ms[0].Receive? {
        VerdictIsRoom(f, ms[0].rx);
      }
      VerdictsAreRooms(Next(f, ms[0]), ms[1..]);
    }
  }

  // ---- The end-to-end statement ----

  /** Nothing left to send: the ring is empty and the main loop is about to look at it again. */
  predicate Drained(f: State) {
    f.writePos == f.readPos && f.pc == Check
  }

  lemma {:induction false} SelectAll(frames: seq<seq<byte>>, marks: seq<bool>)
    requires |frames| == |marks| && false !in marks
    ensures Select(frames, marks) == frames
  {
    if frames != [] {
      var n := |frames| - 1;
      SelectAll(frames[..n], marks[..n]);
      assert frames == frames[..n] + [frames[n]];
    }
  }

  /** For every interleaving of interrupts and main loop, every cut of the serial bytes into reads and
      every moment: the frames queued are the valid frames among the bytes of the bus that there was room
      for when they ended; the deframer has delivered a prefix of them, in order; all of them once ring
      and line are drained; and of all valid bus frames if there always was room. */
  lemma BusToDeframer(start: State, ms: seq<Move>, d: Deframer.Automaton, chunks: seq<seq<byte>>)
    requires Initial(start) && Deframer.Idle(d)
    requires Deframer.Concat(chunks) <= Run(start, ms).line
    ensures var f := Run(start, ms);
            var delivered := Deframer.RunChunks(d, chunks).1;
            var frames, rooms := BusFrames(Received(ms)), Rooms(start, [], ms);
            && |rooms| == |frames| && f.queued == Select(frames, rooms)
            && delivered <= Select(frames, rooms)
            && (Drained(f) && Deframer.Concat(chunks) == f.line ==> delivered == Select(frames, rooms))
            && (false !in rooms ==> delivered <= frames)
  {
    hide Rooms, BusFrames, Select, Inv, Drained;
    var f := Run(start, ms);
    InitialInv(start);
    RunKeepsInv(start, ms);
    VerdictsAreRooms(start, ms);
    RunHears(start, ms);
    assert f.verdicts == Rooms(start, [], ms) && f.heard == Received(ms);
    QueueDelivered(f, d, chunks);
    if false !in f.verdicts {
      SelectAll(BusFrames(f.heard), f.verdicts);
    }
  }

  /** What the deframer makes of the line at any moment: a prefix of the queued frames. */
  lemma QueueDelivered(f: State, d: Deframer.Automaton, chunks: seq<seq<byte>>)
    requires Inv(f) && Deframer.Idle(d) && Deframer.Concat(chunks) <= f.line
    ensures var delivered := Deframer.RunChunks(d, chunks).1;
            && |f.verdicts| == |BusFrames(f.heard)| && f.queued == Select(BusFrames(f.heard), f.verdicts)
            && delivered <= Select(BusFrames(f.heard), f.verdicts)
            && (Drained(f) && Deframer.Concat(chunks) == f.line ==>
                  delivered == Select(BusFrames(f.heard), f.verdicts))
  {
    hide BusFrames, Select, Holds, Deframer.Run, Deframer.RunChunks, EncodeAll;
    var stream, got := EncodeAll(f.queued), Deframer.Concat(chunks);
    Deframer.ChunkingIrrelevant(d, chunks);
    Recovery.RunRoundTrip(d, f.queued);
    assert got + stream[|got|..] == stream;
    Deframer.RunConcat(d, got, stream[|got|..]);
    if Drained(f) && got == f.line {
      assert got == stream;
    }
  }

  /** Moves of the main loop only. */
  function Idling(n: nat): seq<Move> {
    seq(n, _ => MainLoop)
  }

  /** Left alone, the main loop drains the ring: four steps a byte, less what it has already done. */
  function StepsToDrain(f: State): nat
    requires InRange(f)
  {
    var done := match f.pc case Check => 0 case Load => 1 case Write(_) => 2 case Advance => 3;
    var n := 4 * Used(f.writePos, f.readPos);
    if n < done then 0 else n - done
  }

  lemma {:induction false} DrainsUnlessInterrupted(f: State)
    requires Inv(f)
    ensures Drained(Run(f, Idling(StepsToDrain(f))))
    ensures Run(f, Idling(StepsToDrain(f))).heard == f.heard
    decreases StepsToDrain(f)
  {
    hide EncodeAll, BusFrames, Select, Holds;
    var n := StepsToDrain(f);
    if n > 0 {
      var g := MainStep(f);
      MainStepKeepsLine(f, EncodeAll(f.queued));
      assert StepsToDrain(g) == n - 1;
      assert Idling(n)[1..] == Idling(n - 1);
      DrainsUnlessInterrupted(g);
    }
  }
}
