/** The bus checksum of framer/main.c and which transmission errors it catches. */
module Crc {
  import opened Bytes

  /** x^8 + x^4 + x^3 + 1, its coefficients as binary digits. */
  const GENERATOR: nat := 0x119

  /** Multiplication by x modulo the generator, over polynomials with binary coefficients. */
  function TimesX(c: byte): byte {
    XorTop(2 * c, GENERATOR, 8);
    if 2 * c < 256 then 2 * c else Xor(2 * c, GENERATOR)
  }

  /** The bus checksum: the buffer read as such a polynomial, first byte leading, modulo the generator. */
  function Crc(s: seq<byte>): byte {
    if s == [] then 0
    else XorBytes(TimesX(Crc(s[..|s| - 1])), s[|s| - 1])
  }

  /** framer/main.c:41-58; masks and shifts of the 8-bit register in arithmetic. */
  method CalcChecksum(buffer: array<byte>, size: nat) returns (crc: byte)
    requires size <= buffer.Length
    ensures crc == Crc(buffer[..size])
  {
    hide TimesX, Xor;
    crc := 0;
    for i := 0 to size
      invariant crc == Crc(buffer[..i])
    {
      ghost var before := crc;
      ShiftOut(crc);
      var d := 0;
      if crc >= 0x80 {
        crc := XorBytes(crc, 0x0c);
        d := 1;
      }
      crc := crc * 2 % 256;
      crc := crc - crc % 2;
      crc := crc + d;
      assert crc == TimesX(before);
      crc := XorBytes(crc, buffer[i]);
      assert buffer[..i + 1][..i] == buffer[..i];
    }
  }

  lemma XorEvenHalf(a: nat, h: nat)
    ensures Xor(a, 2 * h) == a % 2 + 2 * Xor(a / 2, h)
  {
    hide Xor;
    XorHalf(a, 2 * h);
    assert (a + 2 * h) % 2 == a % 2 && 2 * h / 2 == h;
  }

  lemma {:induction false} XorLeading(a: nat, n: nat)
    requires Pow2(n) <= a < 2 * Pow2(n)
    ensures Xor(a, Pow2(n)) == a - Pow2(n)
  {
    hide Xor;
    if n > 0 {
      XorEvenHalf(a, Pow2(n - 1));
      XorLeading(a / 2, n - 1);
    } else {
      XorSelf(1);
    }
  }

  lemma XorConstant()
    ensures Xor(0x0c, 0x80) == 0x8c
  {
    hide Xor;
    XorLeading(0x8c, 7);
    XorCancels(0x80, 0x8c);
  }

  /** The register steps of the firmware multiply by x. */
  lemma ShiftOut(c: byte)
    ensures c < 0x80 ==> TimesX(c) == c * 2
    ensures c >= 0x80 ==> XorBytes(c, 0x0c) >= 0x80 && TimesX(c) == XorBytes(c, 0x0c) * 2 - 255
  {
    hide Xor;
    if c >= 0x80 {
      XorTop(c, 0x0c, 7);
      XorLeading(Xor(c, 0x0c), 7);
      XorHalf(2 * c, GENERATOR);
      XorConstant();
      XorAssoc(c, 0x0c, 0x80);
    }
  }

  /** A bus frame as the receiver sees it: data and one checksum byte. */
  predicate Accepts(data: seq<byte>, check: byte) {
    Crc(data) == check
  }

  // ---- Error detection ----

  /** The bytes `a` after the bits set in `e` were flipped. */
  function Flip(a: seq<byte>, e: seq<byte>): seq<byte>
    requires |a| == |e|
  {
    seq(|a|, i requires 0 <= i < |a| => XorBytes(a[i], e[i]))
  }

  lemma XorDouble(a: nat, b: nat)
    ensures Xor(2 * a, 2 * b) == 2 * Xor(a, b)
  {
    hide Xor;
    XorHalf(2 * a, 2 * b);
  }

  lemma TimesXLinear(a: byte, b: byte)
    ensures TimesX(XorBytes(a, b)) == Xor(TimesX(a), TimesX(b))
  {
    hide Xor;
    XorTop(a, b, 7);
    XorDouble(a, b);
    var ca := if a >= 128 then GENERATOR else 0;
    var cb := if b >= 128 then GENERATOR else 0;
    XorRegroup(2 * a, ca, 2 * b, cb);
    XorSelf(2 * a); XorSelf(2 * b); XorSelf(Xor(2 * a, 2 * b)); XorSelf(GENERATOR); XorSelf(0);
  }

  lemma {:induction false} CrcLinear(a: seq<byte>, e: seq<byte>)
    requires |a| == |e|
    ensures Crc(Flip(a, e)) == Xor(Crc(a), Crc(e))
    decreases |a|
  {
    hide Xor;
    if a == [] {
      XorSelf(0);
    } else {
      var n := |a| - 1;
      assert Flip(a, e)[..n] == Flip(a[..n], e[..n]);
      CrcLinear(a[..n], e[..n]);
      TimesXLinear(Crc(a[..n]), Crc(e[..n]));
      XorRegroup(TimesX(Crc(a[..n])), TimesX(Crc(e[..n])), a[n], e[n]);
    }
  }

  /** Undetected errors are exactly the error patterns that are themselves accepted frames. */
  lemma UndetectedExactly(a: seq<byte>, check: byte, e: seq<byte>, checkError: byte)
    requires |a| == |e| && Accepts(a, check)
    ensures Accepts(Flip(a, e), XorBytes(check, checkError)) <==> Accepts(e, checkError)
  {
    hide Xor;
    CrcLinear(a, e);
    XorInjective(Crc(e), checkError, Crc(a));
  }

  function Zeros(n: nat): seq<byte> {
    seq(n, _ => 0)
  }

  lemma {:induction false} CrcZeros(n: nat)
    ensures Crc(Zeros(n)) == 0
  {
    if n > 0 {
      assert Zeros(n)[..n - 1] == Zeros(n - 1);
      CrcZeros(n - 1);
    }
  }

  lemma TimesXNonZero(c: byte)
    ensures c != 0 ==> TimesX(c) != 0
  {
    XorHalf(2 * c, GENERATOR);
  }

  /** A single wrong data byte followed by correct ones never cancels. */
  lemma {:induction false} CrcOneByte(n: nat, b: byte, m: nat)
    requires b != 0
    ensures Crc(Zeros(n) + [b] + Zeros(m)) != 0
    decreases m
  {
    hide Xor;
    var s := Zeros(n) + [b] + Zeros(m);
    if m == 0 {
      assert s[..n] == Zeros(n);
      CrcZeros(n);
      XorSelf(b);
    } else {
      assert s[..n + m] == Zeros(n) + [b] + Zeros(m - 1);
      CrcOneByte(n, b, m - 1);
      TimesXNonZero(Crc(s[..n + m]));
      XorSelf(TimesX(Crc(s[..n + m])));
    }
  }

  /** Any change confined to one byte, of the data or of the checksum, is rejected. */
  lemma SingleByteRejected(a: seq<byte>, check: byte, i: nat, b: byte)
    requires Accepts(a, check)
    ensures i < |a| && b != a[i] ==> !Accepts(a[i := b], check)
    ensures b != check ==> !Accepts(a, b)
  {
    hide Xor, Crc;
    if i < |a| && b != a[i] {
      var flip := XorBytes(a[i], b);
      var e := Zeros(i) + [flip] + Zeros(|a| - i - 1);
      XorCancels(a[i], b);
      XorSelf(a[i]);
      forall k | 0 <= k < |a| ensures Flip(a, e)[k] == a[i := b][k] {
        XorSelf(a[k]);
      }
      assert Flip(a, e) == a[i := b];
      CrcOneByte(i, flip, |a| - i - 1);
      XorSelf(check);
      UndetectedExactly(a, check, e, 0);
    }
  }

  // ---- Parity ----

  function BitCount(a: nat): nat {
    if a == 0 then 0 else a % 2 + BitCount(a / 2)
  }

  function BitCountAll(s: seq<byte>): nat {
    if s == [] then 0 else BitCountAll(s[..|s| - 1]) + BitCount(s[|s| - 1])
  }

  lemma BitCountHalf(a: nat)
    ensures BitCount(a) == a % 2 + BitCount(a / 2)
  {
  }

  lemma BitCountZero()
    ensures BitCount(0) == 0
  {
  }

  lemma {:induction false} BitCountXor(a: nat, b: nat)
    ensures BitCount(Xor(a, b)) % 2 == (BitCount(a) + BitCount(b)) % 2
    decreases a + b
  {
    hide Xor, BitCount;
    var x := Xor(a, b);
    BitCountHalf(a); BitCountHalf(b); BitCountHalf(x);
    if a + b == 0 {
      XorSelf(0);
      BitCountZero();
    } else {
      XorHalf(a, b);
      BitCountXor(a / 2, b / 2);
      ParityCarries(x, a + b, BitCount(x / 2), BitCount(a / 2) + BitCount(b / 2));
      ParitySum(a % 2 + b % 2, BitCount(a / 2) + BitCount(b / 2), a + b, BitCount(a / 2) + BitCount(b / 2));
    }
  }

  lemma ParityCarries(x: nat, p: nat, m: nat, n: nat)
    requires x % 2 == p % 2 && m % 2 == n % 2
    ensures (x % 2 + m) % 2 == (p + n) % 2
  {
  }

  lemma BitCountGenerator()
    ensures BitCount(GENERATOR) == 4
  {
    assert BitCount(0x11) == 2 && BitCount(0x23) == 3;
  }

  lemma BitCountTimesX(c: byte)
    ensures BitCount(TimesX(c)) % 2 == BitCount(c) % 2
  {
    hide Xor, BitCount;
    BitCountHalf(2 * c);
    BitCountXor(2 * c, GENERATOR);
    BitCountGenerator();
  }

  /** The parity of the checksum is the parity of all data bits. */
  lemma {:induction false} CrcParity(s: seq<byte>)
    ensures BitCount(Crc(s)) % 2 == BitCountAll(s) % 2
  {
    hide Xor, TimesX, BitCount;
    if s != [] {
      var n := |s| - 1;
      var c := TimesX(Crc(s[..n]));
      CrcParity(s[..n]);
      BitCountTimesX(Crc(s[..n]));
      BitCountXor(c, s[n]);
      ParitySum(BitCount(c), BitCount(s[n]), BitCountAll(s[..n]), BitCount(s[n]));
    } else {
      BitCountZero();
    }
  }

  /** Any odd number of flipped bits, anywhere in data and checksum, is rejected. */
  lemma OddFlipsRejected(a: seq<byte>, check: byte, e: seq<byte>, checkError: byte)
    requires |a| == |e| && Accepts(a, check)
    requires (BitCountAll(e) + BitCount(checkError)) % 2 == 1
    ensures !Accepts(Flip(a, e), XorBytes(check, checkError))
  {
    hide XorBytes, Crc, Flip;
    UndetectedExactly(a, check, e, checkError);
    CrcParity(e);
  }
}
