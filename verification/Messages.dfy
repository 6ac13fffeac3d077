/** EMS messages as they travel on the wire (collector/EmsMessage.h, collector/EmsMessage.cpp). */
module Messages {
  import opened Bytes
  import opened Frames
  import Deframer
  import Recovery

  const ADDRESS_UBA: byte := 0x08
  const ADDRESS_BC10: byte := 0x09
  const ADDRESS_PC: byte := 0x0b
  const ADDRESS_RC3X: byte := 0x10

  datatype EmsMessage = EmsMessage(source: byte, dest: byte, typ: byte, offset: byte, data: seq<byte>) {
    /** The destination without the bit that asks for a reply. */
    function GetDestination(): byte {
      dest % 128
    }

    function GetSendData(omitSenderAddress: bool): seq<byte> {
      (if omitSenderAddress then [] else [source]) + [dest, typ, offset] + data
    }
  }

  /** A message of this PC; the destination's high bit asks for a reply. */
  function Outgoing(dest: byte, typ: byte, offset: byte, data: seq<byte>, expectResponse: bool): EmsMessage {
    EmsMessage(ADDRESS_PC, if expectResponse && dest < 128 then dest + 128 else dest, typ, offset, data)
  }

  /** The constructor from received bytes: four header bytes, or an all-zero header and the bytes as data. */
  function FromBytes(bytes: seq<byte>): EmsMessage {
    if |bytes| >= 4 then EmsMessage(bytes[0], bytes[1], bytes[2], bytes[3], bytes[4..])
    else EmsMessage(0, 0, 0, 0, bytes)
  }

  /** The layout on the wire: sender, destination, type, offset, data. Fewer than four bytes are no message:
      all zero, with the bytes as data. */
  lemma Layout(m: EmsMessage, bytes: seq<byte>)
    ensures m.GetSendData(false) == [m.source, m.dest, m.typ, m.offset] + m.data
    ensures m.GetSendData(true) == [m.dest, m.typ, m.offset] + m.data
    ensures |bytes| < 4 ==> FromBytes(bytes) == EmsMessage(0, 0, 0, 0, bytes)
    ensures |bytes| >= 4 ==>
              var r := FromBytes(bytes);
              && r.source == bytes[0] && r.dest == bytes[1] && r.typ == bytes[2] && r.offset == bytes[3]
              && r.data == bytes[4..]
  {
  }

  lemma ParseSerialized(m: EmsMessage)
    ensures FromBytes(m.GetSendData(false)) == m
  {
    assert m.GetSendData(false)[4..] == m.data;
  }

  /** Messages sent over the serial line one after the other come back as they were, whatever the cut
      into reads, as long as each fits the length byte. */
  lemma {:induction false} WireRoundTrip(d: Deframer.Automaton, ms: seq<EmsMessage>, chunks: seq<seq<byte>>)
    requires Deframer.Idle(d)
    requires forall i | 0 <= i < |ms| :: |ms[i].data| <= 251
    requires Deframer.Concat(chunks) == EncodeAll(seq(|ms|, i requires 0 <= i < |ms| => ms[i].GetSendData(false)))
    ensures var delivered := Deframer.RunChunks(d, chunks).1;
            |delivered| == |ms| && forall i | 0 <= i < |ms| :: FromBytes(delivered[i]) == ms[i]
  {
    Deframer.ChunkingIrrelevant(d, chunks);
    Recovery.RunRoundTrip(d, seq(|ms|, i requires 0 <= i < |ms| => ms[i].GetSendData(false)));
    forall i | 0 <= i < |ms| ensures FromBytes(ms[i].GetSendData(false)) == ms[i] {
      ParseSerialized(ms[i]);
    }
  }
}
