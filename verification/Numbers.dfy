/** The numeric value constructor of collector/EmsMessage.cpp: big-endian bytes to a number. */
module Numbers {
  import opened Bytes

  function Pow256(n: nat): nat {
    if n == 0 then 1 else 256 * Pow256(n - 1)
  }

  function BigEndian(data: seq<byte>): nat {
    if data == [] then 0 else 256 * BigEndian(data[..|data| - 1]) + data[|data| - 1]
  }

  /** The `len` low bytes of a number, most significant first. */
  function ToBytes(v: nat, len: nat): (data: seq<byte>)
    ensures |data| == len
  {
    if len == 0 then [] else ToBytes(v / 256, len - 1) + [v % 256]
  }

  lemma {:induction false} BigEndianToBytes(v: nat, len: nat)
    requires v < Pow256(len)
    ensures BigEndian(ToBytes(v, len)) == v
  {
    if len > 0 {
      BigEndianToBytes(v / 256, len - 1);
      assert ToBytes(v, len)[..len - 1] == ToBytes(v / 256, len - 1);
    }
  }

  lemma {:induction false} ToBytesBigEndian(data: seq<byte>)
    ensures BigEndian(data) < Pow256(|data|)
    ensures ToBytes(BigEndian(data), |data|) == data
  {
    if data != [] {
      var n := |data| - 1;
      ToBytesBigEndian(data[..n]);
      var high := BigEndian(data[..n]);
      assert (256 * high + data[n]) / 256 == high && (256 * high + data[n]) % 256 == data[n];
    }
  }

  /** A decoded number and whether it stands for a reading. */
  datatype Number = Number(value: int, valid: bool)

  const INVALID_TEMP_LOWER: seq<byte> := [0x7d, 0x00]
  const INVALID_TEMP_UPPER: seq<byte> := [0x83, 0x00]

  /** collector/EmsMessage.cpp:34-79 for the field sizes that occur; `invalid` lists byte patterns that
      mean no reading. */
  method DecodeNumber(data: seq<byte>, isSigned: bool, invalid: seq<seq<byte>>) returns (n: Number)
    requires 1 <= |data| <= 3
    ensures n == Decoded(data, isSigned, invalid)
  {
    hide Decoded;
    var value: int := 0;
    var highestbit: int := 128;
    for i := 0 to |data|
      invariant value == BigEndian(data[..i]) && highestbit == 128 * Pow256(if i == 0 then 0 else i - 1)
    {
      assert data[..i + 1][..i] == data[..i];
      value := value * 256 + data[i];
      if i > 0 {
        highestbit := highestbit * 256;
      }
    }
    assert data[..|data|] == data;
    ToBytesBigEndian(data);
    var valid := true;
    if isSigned {
      if value >= highestbit {
        value := value - highestbit;
        if value == 0 {
          valid := false;
        }
        value := value - highestbit;
      }
    } else {
      var maxValue := 2 * highestbit - 1;
      valid := value != maxValue;
    }
    var matched := false;
    for i := 0 to |invalid|
      invariant matched == (data in invalid[..i])
    {
      if data == invalid[i] {
        matched := true;
      }
    }
    assert invalid[..|invalid|] == invalid;
    n := Number(value, valid && !matched);
    DecodedIs(data, isSigned, invalid, n);
  }

  /** What the bytes mean: two's complement if signed; the pattern with no positive counterpart, or the
      largest unsigned number, means no reading. */
  function Decoded(data: seq<byte>, isSigned: bool, invalid: seq<seq<byte>>): Number {
    var raw, modulus := BigEndian(data), Pow256(|data|);
    if isSigned then
      var value := if 2 * raw >= modulus then raw - modulus else raw;
      Number(value, 2 * value + modulus != 0 && data !in invalid)
    else Number(raw, raw != modulus - 1 && data !in invalid)
  }

  lemma DecodedIs(data: seq<byte>, isSigned: bool, invalid: seq<seq<byte>>, n: Number)
    requires data != []
    requires var raw, high := BigEndian(data), 128 * Pow256(|data| - 1);
             && n.value == (if isSigned && raw >= high then raw - high - high else raw)
             && n.valid == ((if isSigned then raw != high else raw != 2 * high - 1) && data !in invalid)
    ensures n == Decoded(data, isSigned, invalid)
  {
    ToBytesBigEndian(data);
    assert Pow256(|data|) == 256 * Pow256(|data| - 1);
  }

  /** Bytes of a signed number. */
  function SignedBytes(v: int, len: nat): seq<byte>
    requires 0 <= 2 * v + Pow256(len)
  {
    ToBytes(if v < 0 then Pow256(len) + v else v, len)
  }

  lemma Pow256Even(len: nat)
    requires len > 0
    ensures Pow256(len) % 2 == 0 && Pow256(len) >= 256
  {
    if len > 1 {
      Pow256Even(len - 1);
    }
  }

  /** Signed fields carry every number of their range but the smallest, and give it back. */
  lemma SignedRoundTrip(v: int, len: nat)
    requires len > 0 && 0 <= 2 * v + Pow256(len) < 2 * Pow256(len)
    ensures Decoded(SignedBytes(v, len), true, []) == Number(v, 2 * v + Pow256(len) != 0)
  {
    Pow256Even(len);
    BigEndianToBytes(if v < 0 then Pow256(len) + v else v, len);
  }

  /** Unsigned fields carry every number of their range but the largest. */
  lemma UnsignedRoundTrip(v: nat, len: nat)
    requires len > 0 && v < Pow256(len)
    ensures Decoded(ToBytes(v, len), false, []) == Number(v, v != Pow256(len) - 1)
  {
    BigEndianToBytes(v, len);
  }

  /** A temperature field has a reading unless it holds -3276.8, 3200.0 or -3200.0 degrees. */
  lemma TemperatureValidExactly(data: seq<byte>)
    requires |data| == 2
    ensures var n := Decoded(data, true, [INVALID_TEMP_LOWER, INVALID_TEMP_UPPER]);
            n.valid <==> n.value !in {-32768, 32000, -32000}
  {
    ToBytesBigEndian(data);
    assert data == [data[0], data[1]];
    assert data[..1] == [data[0]] && data[..1][..0] == [];
    assert BigEndian([data[0]]) == data[0] by {
      assert [data[0]][..0] == [];
    }
    var high: int := data[0];
    assert BigEndian(data) == 256 * high + data[1];
  }
}
