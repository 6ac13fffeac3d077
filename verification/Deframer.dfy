/** The byte-wise deframer of collector/IoHandler.cpp and what it recovers from a byte stream. */
module Deframer {
  import opened Bytes
  import opened Frames

  datatype Phase = Syncing | Length | Data | Checksum

  /** The parser fields of IoHandler that survive from one read to the next. */
  datatype Automaton = Automaton(phase: Phase, pos: nat, length: nat, checkSum: byte, data: seq<byte>)

  /** One byte: the next automaton, and the message handed on, if any. */
  function Step(d: Automaton, b: byte): (Automaton, seq<seq<byte>>) {
    match d.phase
    case Syncing =>
      if d.pos == 0 && b == MARK0 then (d.(pos := 1), [])
      else if d.pos == 1 && b == MARK1 then (d.(phase := Length, pos := 0), [])
      else (d.(pos := 0), [])
    case Length => (d.(phase := Data, pos := 0, length := b, checkSum := 0), [])
    case Data =>
      var e := d.(data := d.data + [b], checkSum := XorBytes(d.checkSum, b), pos := d.pos + 1);
      (if e.pos == e.length then e.(phase := Checksum) else e, [])
    case Checksum =>
      (d.(data := [], phase := Syncing, pos := 0), if d.checkSum == b then [d.data] else [])
  }

  function Run(d: Automaton, s: seq<byte>): (Automaton, seq<seq<byte>>)
    decreases |s|
  {
    if s == [] then (d, [])
    else
      var (d1, out) := Step(d, s[0]);
      var (d2, more) := Run(d1, s[1..]);
      (d2, out + more)
  }

  /** Between frames: nothing collected, no half of a sync mark seen. */
  predicate Idle(d: Automaton) {
    d.phase == Syncing && d.pos == 0 && d.data == []
  }

  /** What holds between any two bytes. A zero length byte leaves the automaton in `Data` for good. */
  predicate Consistent(d: Automaton) {
    match d.phase
    case Syncing => d.data == [] && d.pos <= 1
    case Length => d.data == [] && d.pos == 0
    case Data => d.pos == |d.data| && d.checkSum == XorAll(d.data) && (d.length == 0 || d.pos < d.length)
    case Checksum => d.pos == |d.data| == d.length && 0 < d.length && d.checkSum == XorAll(d.data)
  }

  /** collector/IoHandler.cpp:60-97, with the message callback as a log of delivered messages. */
  class IoHandler {
    var state: Phase
    var pos: nat
    var length: nat
    var checkSum: byte
    var data: seq<byte>
    var delivered: seq<seq<byte>>

    ghost function State(): Automaton
      reads this
    {
      Automaton(state, pos, length, checkSum, data)
    }

    constructor ()
      ensures Idle(State()) && delivered == []
    {
      state, pos, data, delivered := Syncing, 0, [], [];
    }

    method ReadComplete(recvBuffer: array<byte>, bytesTransferred: nat)
      requires bytesTransferred <= recvBuffer.Length
      requires Consistent(State())
      modifies this
      ensures Consistent(State())
      ensures State() == Run(old(State()), recvBuffer[..bytesTransferred]).0
      ensures delivered == old(delivered) + Run(old(State()), recvBuffer[..bytesTransferred]).1
    {
      hide Step, Run, XorAll;
      ghost var start, log, input := State(), delivered, recvBuffer[..bytesTransferred];
      var i := 0;
      assert input[0..] == input;
      while i < bytesTransferred
        invariant i <= bytesTransferred && input == recvBuffer[..bytesTransferred]
        invariant Consistent(State())
        invariant Run(start, input).0 == Run(State(), input[i..]).0
        invariant log + Run(start, input).1 == delivered + Run(State(), input[i..]).1
      {
        RunCons(State(), input, i);
        StepKeepsConsistent(State(), input[i]);
        var dataByte := recvBuffer[i];
        i := i + 1;
        HandleByte(dataByte);
      }
      RunNil(State(), input[i..]);
    }

    /** The switch inside the loop of `ReadComplete`. */
    method HandleByte(dataByte: byte)
      modifies this
      ensures State() == Step(old(State()), dataByte).0
      ensures delivered == old(delivered) + Step(old(State()), dataByte).1
    {
      hide XorBytes;
      match state {
        case Syncing =>
          if pos == 0 && dataByte == 0xaa {
            pos := 1;
          } else if pos == 1 && dataByte == 0x55 {
            state := Length;
            pos := 0;
          } else {
            pos := 0;
          }
        case Length =>
          state := Data;
          pos := 0;
          length := dataByte;
          checkSum := 0;
        case Data =>
          data := data + [dataByte];
          checkSum := XorBytes(checkSum, dataByte);
          pos := pos + 1;
          if pos == length {
            state := Checksum;
          }
        case Checksum =>
          if checkSum == dataByte {
            delivered := delivered + [data];
          }
          data := [];
          state := Syncing;
          pos := 0;
      }
    }
  }

  lemma RunNil(d: Automaton, s: seq<byte>)
    requires s == []
    ensures Run(d, s) == (d, [])
  {
  }

  lemma RunCons(d: Automaton, s: seq<byte>, i: nat)
    requires i < |s|
    ensures Run(d, s[i..]).0 == Run(Step(d, s[i]).0, s[i + 1..]).0
    ensures Run(d, s[i..]).1 == Step(d, s[i]).1 + Run(Step(d, s[i]).0, s[i + 1..]).1
  {
    assert s[i..][0] == s[i] && s[i..][1..] == s[i + 1..];
  }

  lemma StepKeepsConsistent(d: Automaton, b: byte)
    requires Consistent(d)
    ensures Consistent(Step(d, b).0)
  {
    hide XorBytes, XorAll;
    XorAllNil();
    if d.phase == Data {
      XorAllSnoc(d.data, b);
    }
  }

  lemma {:induction false} RunKeepsConsistent(d: Automaton, s: seq<byte>)
    requires Consistent(d)
    ensures Consistent(Run(d, s).0)
    decreases |s|
  {
    if s != [] {
      StepKeepsConsistent(d, s[0]);
      RunKeepsConsistent(Step(d, s[0]).0, s[1..]);
    }
  }

  // ---- Independence of the way the stream is cut into reads ----

  lemma {:induction false} RunConcat(d: Automaton, a: seq<byte>, b: seq<byte>)
    ensures Run(d, a + b).0 == Run(Run(d, a).0, b).0
    ensures Run(d, a + b).1 == Run(d, a).1 + Run(Run(d, a).0, b).1
    decreases |a|
  {
    if a == [] {
      assert a + b == b;
    } else {
      assert (a + b)[0] == a[0] && (a + b)[1..] == a[1..] + b;
      RunConcat(Step(d, a[0]).0, a[1..], b);
    }
  }

  function Concat(chunks: seq<seq<byte>>): seq<byte> {
    if chunks == [] then [] else chunks[0] + Concat(chunks[1..])
  }

  /** One `ReadComplete` after the other. */
  function RunChunks(d: Automaton, chunks: seq<seq<byte>>): (Automaton, seq<seq<byte>>)
    decreases |chunks|
  {
    if chunks == [] then (d, [])
    else
      var (d1, out) := Run(d, chunks[0]);
      var (d2, more) := RunChunks(d1, chunks[1..]);
      (d2, out + more)
  }

  lemma {:induction false} ChunkingIrrelevant(d: Automaton, chunks: seq<seq<byte>>)
    ensures RunChunks(d, chunks) == Run(d, Concat(chunks))
    decreases |chunks|
  {
    if chunks != [] {
      RunConcat(d, chunks[0], Concat(chunks[1..]));
      ChunkingIrrelevant(Run(d, chunks[0]).0, chunks[1..]);
    }
  }

  // ---- The reference: what a whole stream contains, frame by frame ----

  /** Reads a stream that starts between frames by whole frames instead of by bytes: skip to a pair
      of sync marks, take the announced length, keep the payload if its xor agrees. A mark that is
      not followed by the second mark is skipped together with the byte after it. */
  function Scan(s: seq<byte>): seq<seq<byte>>
    decreases |s|
  {
    if |s| < 2 then []
    else if s[0] != MARK0 then Scan(s[1..])
    else if s[1] != MARK1 then Scan(s[2..])
    else if !Whole(s) then []
    else (if XorAll(Payload(s)) == s[|Payload(s)| + 3] then [Payload(s)] else []) + Scan(s[|Payload(s)| + 4..])
  }

  /** The length byte is there, is not zero, and everything it announces is there. */
  predicate Whole(s: seq<byte>) {
    |s| >= 3 && s[2] != 0 && |s| - 4 >= s[2]
  }

  function Payload(s: seq<byte>): (p: seq<byte>)
    requires Whole(s)
    ensures |p| == s[2]
  {
    var n: nat := s[2];
    s[3..n + 3]
  }

  /** In `Data`, nothing comes out before the announced length and one more byte have arrived. */
  lemma {:induction false} DataIncomplete(d: Automaton, s: seq<byte>)
    requires Consistent(d) && d.phase == Data
    requires d.length == 0 || |s| <= d.length - d.pos
    ensures Run(d, s).1 == []
    decreases |s|
  {
    if s != [] {
      var e := Step(d, s[0]).0;
      StepKeepsConsistent(d, s[0]);
      if e.phase == Data {
        DataIncomplete(e, s[1..]);
      } else {
        assert s[1..] == [];
      }
    }
  }

  /** With them, the payload is delivered if its xor agrees, and the automaton is idle again. */
  lemma {:induction false} DataComplete(d: Automaton, rest: seq<byte>, check: byte)
    requires Consistent(d) && d.phase == Data
    requires |rest| == d.length - d.pos && rest != []
    ensures Idle(Run(d, rest + [check]).0)
    ensures Run(d, rest + [check]).1 ==
            if XorAll(d.data + rest) == check then [d.data + rest] else []
    decreases |rest|
  {
    hide XorBytes;
    var e := Step(d, rest[0]).0;
    StepKeepsConsistent(d, rest[0]);
    var s := rest + [check];
    assert s[0] == rest[0] && s[1..] == rest[1..] + [check];
    assert e.data + rest[1..] == d.data + rest;
    if |rest| > 1 {
      DataComplete(e, rest[1..], check);
    } else {
      assert s[1..] == [check] && e.data == d.data + rest;
      assert Run(e, [check]) == (Step(e, check).0, Step(e, check).1 + []);
    }
  }

  /** The byte automaton delivers exactly the frames the block-wise reference finds. */
  lemma {:induction false} RunIsScan(d: Automaton, s: seq<byte>)
    requires Idle(d)
    ensures Run(d, s).1 == Scan(s)
    decreases |s|
  {
    if |s| == 1 {
      assert Run(Step(d, s[0]).0, s[1..]).1 == [];
    } else if |s| >= 2 {
      var d1 := Step(d, s[0]).0;
      if s[0] != MARK0 {
        RunIsScan(d1, s[1..]);
      } else {
        var d2 := Step(d1, s[1]).0;
        assert s[1..][0] == s[1] && s[1..][1..] == s[2..];
        assert Run(d, s).1 == Run(d2, s[2..]).1;
        if s[1] != MARK1 {
          RunIsScan(d2, s[2..]);
        } else if |s| > 2 {
          RunHeader(d2, s[2..]);
          assert [MARK0, MARK1] + s[2..] == s;
        }
      }
    }
  }

  /** From the length byte on. */
  lemma {:induction false} RunHeader(d: Automaton, t: seq<byte>)
    requires Consistent(d) && d.phase == Length && t != []
    ensures Run(d, t).1 == Scan([MARK0, MARK1] + t)
    decreases |t|, 0
  {
    hide Run, XorBytes, XorAll;
    var s := [MARK0, MARK1] + t;
    var e := Step(d, t[0]).0;
    var n: nat := t[0];
    assert t[0..] == t;
    RunCons(d, t, 0);
    XorAllNil();
    assert s[2] == n;
    if n == 0 || |t| < n + 2 {
      DataIncomplete(e, t[1..]);
    } else {
      var payload, check, rest := t[1..n + 1], t[n + 1], t[n + 2..];
      assert t[1..] == (payload + [check]) + rest;
      assert Whole(s) && Payload(s) == payload && s[n + 3] == check && s[n + 4..] == rest;
      DataComplete(e, payload, check);
      assert e.data + payload == payload;
      RunConcat(e, payload + [check], rest);
      RunIsScan(Run(e, payload + [check]).0, rest);
    }
  }
}
