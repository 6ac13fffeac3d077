/** The serial frame format and the sending encoder (collector/SendingSerialHandler.cpp). */
module Frames {
  import opened Bytes

  const MARK0: byte := 0xaa
  const MARK1: byte := 0x55

  /** A frame on the serial line: sync marks, length byte, payload, checksum byte.
      The length byte is the payload size truncated to eight bits. */
  function FrameWith(payload: seq<byte>, check: byte): seq<byte> {
    [MARK0, MARK1, |payload| % 256] + payload + [check]
  }

  function Encode(payload: seq<byte>): seq<byte> {
    FrameWith(payload, XorAll(payload))
  }

  function EncodeAll(payloads: seq<seq<byte>>): seq<byte> {
    if payloads == [] then [] else Encode(payloads[0]) + EncodeAll(payloads[1..])
  }

  /** A payload both encoders can transmit: the length byte is not zero and does not wrap. */
  predicate Sendable(payload: seq<byte>) {
    1 <= |payload| <= 255
  }

  predicate AllSendable(payloads: seq<seq<byte>>) {
    forall i | 0 <= i < |payloads| :: Sendable(payloads[i])
  }

  lemma {:induction false} EncodeAllConcat(a: seq<seq<byte>>, b: seq<seq<byte>>)
    ensures EncodeAll(a + b) == EncodeAll(a) + EncodeAll(b)
  {
    if a == [] {
      assert a + b == b;
    } else {
      assert (a + b)[0] == a[0] && (a + b)[1..] == a[1..] + b;
      EncodeAllConcat(a[1..], b);
    }
  }

  lemma EncodeAllSnoc(a: seq<seq<byte>>, p: seq<byte>)
    ensures EncodeAll(a + [p]) == EncodeAll(a) + Encode(p)
  {
    EncodeAllConcat(a, [p]);
    assert EncodeAll([p]) == Encode(p) + EncodeAll([]);
  }

  /** Builds the bytes written to the serial port for the message bytes `message`. */
  method SendMessageImpl(message: seq<byte>) returns (sendData: seq<byte>)
    ensures sendData == Encode(message)
    ensures sendData == [0xaa, 0x55, |message| % 256] + message + [XorAll(message)]
  {
    sendData := message;
    var checksum: byte := 0;
    for i := 0 to |sendData|
      invariant checksum == XorAll(sendData[..i])
    {
      assert sendData[..i + 1] == sendData[..i] + [sendData[i]];
      XorAllSnoc(sendData[..i], sendData[i]);
      checksum := XorBytes(checksum, sendData[i]);
    }
    assert sendData[..|sendData|] == sendData;
    sendData := [MARK0, MARK1, |sendData| % 256] + sendData;
    sendData := sendData + [checksum];
  }
}
