/** The bus adapter firmware, framer/main.c: a receive interrupt that queues whole frames into a ring,
    and a main loop that drains the ring byte by byte and can be interrupted between any two steps. */
module Framer {
  import opened Bytes
  import opened Frames
  import Crc

  const RECV_BUF_SIZE: nat := 64
  const TRANSMIT_BUF_SIZE: nat := 250

  /** One byte from the bus UART; a framing error marks the break that ends a bus frame. */
  datatype Rx = Rx(frameError: bool, data: byte)

  /** Where the main loop stands: about to test for data, to read the ring, to hand the byte to the
      UART, or to advance the read position. */
  datatype Pc = Check | Load | Write(ch: byte) | Advance

  /** Firmware variables, followed by history: bytes put on the serial line, bytes heard on the bus,
      for each valid bus frame whether there was room for it, and the frames queued. */
  datatype State = State(
    recv: seq<byte>, recvValid: bool, ring: seq<byte>, writePos: nat, readPos: nat, pc: Pc,
    line: seq<byte>, heard: seq<Rx>, verdicts: seq<bool>, queued: seq<seq<byte>>)

  datatype Move = Receive(rx: Rx) | MainLoop

  // ---- The ring ----

  function Put(ring: seq<byte>, pos: nat, b: byte): (r: (seq<byte>, nat))
    requires |ring| == TRANSMIT_BUF_SIZE && pos < TRANSMIT_BUF_SIZE
    ensures |r.0| == TRANSMIT_BUF_SIZE && r.1 < TRANSMIT_BUF_SIZE
  {
    (ring[pos := b], if pos + 1 >= TRANSMIT_BUF_SIZE then 0 else pos + 1)
  }

  function PutAll(ring: seq<byte>, pos: nat, bs: seq<byte>): (r: (seq<byte>, nat))
    requires |ring| == TRANSMIT_BUF_SIZE && pos < TRANSMIT_BUF_SIZE
    ensures |r.0| == TRANSMIT_BUF_SIZE && r.1 < TRANSMIT_BUF_SIZE
  {
    if bs == [] then (ring, pos)
    else
      var (ring1, pos1) := PutAll(ring, pos, bs[..|bs| - 1]);
      Put(ring1, pos1, bs[|bs| - 1])
  }

  lemma PutAllSnoc(ring: seq<byte>, pos: nat, bs: seq<byte>, b: byte)
    requires |ring| == TRANSMIT_BUF_SIZE && pos < TRANSMIT_BUF_SIZE
    ensures PutAll(ring, pos, bs + [b]) == Put(PutAll(ring, pos, bs).0, PutAll(ring, pos, bs).1, b)
  {
    assert (bs + [b])[..|bs|] == bs;
  }

  /** Bytes written and not read yet. */
  function Used(writePos: nat, readPos: nat): nat
    requires writePos < TRANSMIT_BUF_SIZE && readPos < TRANSMIT_BUF_SIZE
  {
    if writePos >= readPos then writePos - readPos else TRANSMIT_BUF_SIZE + writePos - readPos
  }

  /** Those bytes and the need fit into the ring. The need, with five bytes for the frame around the
      payload and to keep the ring from filling up, is computed in eight bits. */
  predicate EnoughSpace(writePos: nat, readPos: nat, needed: nat)
    requires writePos < TRANSMIT_BUF_SIZE && readPos < TRANSMIT_BUF_SIZE
  {
    Used(writePos, readPos) + (needed + 5) % 256 <= TRANSMIT_BUF_SIZE
  }

  // ---- Steps ----

  predicate InRange(f: State) {
    |f.ring| == TRANSMIT_BUF_SIZE && f.writePos < TRANSMIT_BUF_SIZE && f.readPos < TRANSMIT_BUF_SIZE
  }

  function EndOfFrame(f: State): State
    requires InRange(f)
  {
    var n := |f.recv| - 1;
    if n < 1 || !Crc.Accepts(f.recv[..n], f.recv[n]) then f
    else if !EnoughSpace(f.writePos, f.readPos, n) then f.(verdicts := f.verdicts + [false])
    else
      var (ring, pos) := PutAll(f.ring, f.writePos, Encode(f.recv[..n]));
      f.(ring := ring, writePos := pos, verdicts := f.verdicts + [true], queued := f.queued + [f.recv[..n]])
  }

  function ReceiveByte(f: State, rx: Rx): State
    requires InRange(f)
  {
    var g := if !f.recvValid then f
             else if rx.frameError then EndOfFrame(f)
             else if |f.recv| < RECV_BUF_SIZE then f.(recv := f.recv + [rx.data])
             else f;
    var h := g.(heard := g.heard + [rx]);
    if rx.frameError then h.(recv := [], recvValid := true) else h
  }

  function MainStep(f: State): State
    requires |f.ring| == TRANSMIT_BUF_SIZE && f.readPos < TRANSMIT_BUF_SIZE
  {
    match f.pc
    case Check => if f.writePos != f.readPos then f.(pc := Load) else f
    case Load => f.(pc := Write(f.ring[f.readPos]))
    case Write(ch) => f.(pc := Advance, line := f.line + [ch])
    case Advance => f.(pc := Check, readPos := if f.readPos + 1 >= TRANSMIT_BUF_SIZE then 0 else f.readPos + 1)
  }

  function Next(f: State, m: Move): (g: State)
    requires InRange(f)
    ensures InRange(g)
  {
    match m
    case Receive(rx) => ReceiveByte(f, rx)
    case MainLoop => MainStep(f)
  }

  function Run(f: State, ms: seq<Move>): (g: State)
    requires InRange(f)
    ensures InRange(g)
    decreases |ms|
  {
    if ms == [] then f else Run(Next(f, ms[0]), ms[1..])
  }

  /** After reset, with whatever the ring memory holds. */
  predicate Initial(f: State) {
    |f.ring| == TRANSMIT_BUF_SIZE && f.writePos == f.readPos == 0 && f.pc == Check
    && f.recv == [] && !f.recvValid
    && f.line == [] && f.heard == [] && f.verdicts == [] && f.queued == []
  }

  // ---- The firmware itself ----

  class Firmware {
    const recvBuffer: array<byte>
    var recvPos: nat
    var recvValid: bool
    const txBuffer: array<byte>
    var txWritePos: nat
    var txReadPos: nat
    var pc: Pc
    var line: seq<byte>
    ghost var heard: seq<Rx>
    ghost var verdicts: seq<bool>
    ghost var queued: seq<seq<byte>>

    ghost predicate Valid()
      reads this, recvBuffer, txBuffer
    {
      recvBuffer != txBuffer && recvBuffer.Length == RECV_BUF_SIZE && txBuffer.Length == TRANSMIT_BUF_SIZE
      && recvPos <= RECV_BUF_SIZE && txWritePos < TRANSMIT_BUF_SIZE && txReadPos < TRANSMIT_BUF_SIZE
    }

    ghost function Abstract(): State
      requires Valid()
      reads this, recvBuffer, txBuffer
    {
      State(recvBuffer[..recvPos], recvValid, txBuffer[..], txWritePos, txReadPos, pc,
            line, heard, verdicts, queued)
    }

    constructor ()
      ensures Valid() && Initial(Abstract()) && fresh(recvBuffer) && fresh(txBuffer)
    {
      recvBuffer := new byte[RECV_BUF_SIZE](_ => 0);
      txBuffer := new byte[TRANSMIT_BUF_SIZE](_ => 0);
      recvPos, recvValid, txWritePos, txReadPos, pc := 0, false, 0, 0, Check;
      line, heard, verdicts, queued := [], [], [], [];
    }

    method CopyToTxBuffer(data: byte)
      requires Valid()
      modifies txBuffer, `txWritePos
      ensures Valid()
      ensures (txBuffer[..], txWritePos) == Put(old(txBuffer[..]), old(txWritePos), data)
    {
      txBuffer[txWritePos] := data;
      txWritePos := txWritePos + 1;
      if txWritePos >= TRANSMIT_BUF_SIZE {
        txWritePos := 0;
      }
    }

    method StartTxFrame()
      requires Valid()
      modifies txBuffer, `txWritePos
      ensures Valid()
      ensures (txBuffer[..], txWritePos) == PutAll(old(txBuffer[..]), old(txWritePos), [MARK0, MARK1])
    {
      ghost var ring, pos := txBuffer[..], txWritePos;
      CopyToTxBuffer(0xaa);
      PutAllSnoc(ring, pos, [], MARK0);
      CopyToTxBuffer(0x55);
      PutAllSnoc(ring, pos, [MARK0], MARK1);
      assert [] + [MARK0] == [MARK0] && [MARK0] + [MARK1] == [MARK0, MARK1];
    }

    /** `ring`, `pos` and `done` name the ring as it was when the frame was started, and what has been
        put into it since. */
    method AddTxData(len: nat, ghost ring: seq<byte>, ghost pos: nat, ghost done: seq<byte>)
      requires Valid() && len < recvBuffer.Length
      requires |ring| == TRANSMIT_BUF_SIZE && pos < TRANSMIT_BUF_SIZE
      requires (txBuffer[..], txWritePos) == PutAll(ring, pos, done)
      modifies txBuffer, `txWritePos
      ensures Valid()
      ensures (txBuffer[..], txWritePos) ==
              PutAll(ring, pos, done + [len] + recvBuffer[..len] + [XorAll(recvBuffer[..len])])
    {
      var csum: byte := 0;
      PutAllSnoc(ring, pos, done, len);
      CopyToTxBuffer(len);
      assert done + [len] + recvBuffer[..0] == done + [len];
      for i := 0 to len
        invariant Valid() && csum == XorAll(recvBuffer[..i])
        invariant (txBuffer[..], txWritePos) == PutAll(ring, pos, done + [len] + recvBuffer[..i])
      {
        assert recvBuffer[..i + 1] == recvBuffer[..i] + [recvBuffer[i]];
        assert done + [len] + recvBuffer[..i + 1] == done + [len] + recvBuffer[..i] + [recvBuffer[i]];
        XorAllSnoc(recvBuffer[..i], recvBuffer[i]);
        PutAllSnoc(ring, pos, done + [len] + recvBuffer[..i], recvBuffer[i]);
        CopyToTxBuffer(recvBuffer[i]);
        csum := XorBytes(csum, recvBuffer[i]);
      }
      PutAllSnoc(ring, pos, done + [len] + recvBuffer[..len], csum);
      CopyToTxBuffer(csum);
    }

    method EnoughTxSpace(needed: nat) returns (enough: bool)
      requires Valid()
      ensures enough <==> Used(txWritePos, txReadPos) + (needed + 5) % 256 <= TRANSMIT_BUF_SIZE
      ensures needed < RECV_BUF_SIZE ==>
                (enough <==> Used(txWritePos, txReadPos) + needed + 5 <= TRANSMIT_BUF_SIZE)
    {
      var total := (needed + 5) % 256;
      var space;
      if txWritePos >= txReadPos {
        space := TRANSMIT_BUF_SIZE - (txWritePos - txReadPos);
      } else {
        space := txReadPos - txWritePos;
      }
      enough := space >= total;
    }

    /** The receive interrupt: handles every byte the UART has ready. */
    method ReceiveInterrupt(ready: seq<Rx>)
      requires Valid()
      modifies this, recvBuffer, txBuffer
      ensures Valid()
      ensures Abstract() == Run(old(Abstract()), seq(|ready|, i requires 0 <= i < |ready| => Receive(ready[i])))
    {
      ghost var moves := seq(|ready|, i requires 0 <= i < |ready| => Receive(ready[i]));
      ghost var start := Abstract();
      var next := 0;
      assert moves[0..] == moves;
      while next < |ready|
        invariant Valid() && next <= |ready|
        invariant Run(start, moves) == Run(Abstract(), moves[next..])
      {
        assert moves[next..][0] == Receive(ready[next]) && moves[next..][1..] == moves[next + 1..];
        ReceiveOne(ready[next].frameError, ready[next].data);
        next := next + 1;
      }
    }

    method ReceiveOne(frameError: bool, data: byte)
      requires Valid()
      modifies this, recvBuffer, txBuffer
      ensures Valid()
      ensures Abstract() == ReceiveByte(old(Abstract()), Rx(frameError, data))
    {
      if recvValid {
        if frameError {
          FinishFrame();
        } else if recvPos < RECV_BUF_SIZE {
          recvBuffer[recvPos] := data;
          recvPos := recvPos + 1;
        }
      }
      if frameError {
        recvPos := 0;
        recvValid := true;
      }
      heard := heard + [Rx(frameError, data)];
    }

    /** The end-of-frame branch of the interrupt. */
    method FinishFrame()
      requires Valid()
      modifies this, txBuffer
      ensures Valid() && Abstract() == EndOfFrame(old(Abstract())).(recv := Abstract().recv)
    {
      hide Crc.Crc, Encode, PutAll;
      if recvPos > 1 {
        ghost var before := Abstract();
        recvPos := recvPos - 1;
        assert recvBuffer[..recvPos] == before.recv[..recvPos];
        var crc := Crc.CalcChecksum(recvBuffer, recvPos);
        if crc == recvBuffer[recvPos] {
          var enough := EnoughTxSpace(recvPos);
          verdicts := verdicts + [enough];
          if enough {
            QueueFrame();
            queued := queued + [recvBuffer[..recvPos]];
          }
        }
      }
    }

    method QueueFrame()
      requires Valid() && recvPos < RECV_BUF_SIZE
      modifies txBuffer, `txWritePos
      ensures Valid()
      ensures (txBuffer[..], txWritePos) ==
              PutAll(old(txBuffer[..]), old(txWritePos), Encode(recvBuffer[..recvPos]))
    {
      ghost var ring, pos := txBuffer[..], txWritePos;
      StartTxFrame();
      AddTxData(recvPos, ring, pos, [MARK0, MARK1]);
      assert [MARK0, MARK1] + [recvPos] + recvBuffer[..recvPos] + [XorAll(recvBuffer[..recvPos])]
          == Encode(recvBuffer[..recvPos]);
    }

    /** The part of the main loop up to the next point where an interrupt can change what it sees. */
    method MainLoopStep()
      requires Valid()
      modifies this
      ensures Valid() && Abstract() == MainStep(old(Abstract()))
    {
      match pc {
        case Check =>
          var hasData := txWritePos != txReadPos;
          if hasData {
            pc := Load;
          }
        case Load =>
          pc := Write(txBuffer[txReadPos]);
        case Write(ch) =>
          line := line + [ch];
          pc := Advance;
        case Advance =>
          txReadPos := txReadPos + 1;
          if txReadPos >= TRANSMIT_BUF_SIZE {
            txReadPos := 0;
          }
          pc := Check;
      }
    }
  }
}
