/** Bytes as small integers, bitwise exclusive or, and the running xor that closes a serial frame. */
module Bytes {
  type byte = x: int | 0 <= x < 256

  /** Bitwise exclusive or, one binary digit at a time. */
  function Xor(a: nat, b: nat): nat
    decreases a + b
  {
    if a == 0 && b == 0 then 0 else (a + b) % 2 + 2 * Xor(a / 2, b / 2)
  }

  function Pow2(n: nat): (r: nat)
    ensures r > 0
  {
    if n == 0 then 1 else 2 * Pow2(n - 1)
  }

  /** The leading digit of an exclusive or. */
  lemma {:induction false} XorTop(a: nat, b: nat, n: nat)
    requires a < 2 * Pow2(n) && b < 2 * Pow2(n)
    ensures Xor(a, b) < 2 * Pow2(n)
    ensures Xor(a, b) >= Pow2(n) <==> (a >= Pow2(n)) != (b >= Pow2(n))
  {
    if n > 0 {
      XorTop(a / 2, b / 2, n - 1);
    } else {
      assert Xor(a / 2, b / 2) == 0;
    }
  }

  function XorBytes(a: byte, b: byte): byte {
    XorTop(a, b, 7);
    Xor(a, b)
  }

  lemma {:induction false} XorSelf(a: nat)
    ensures Xor(a, a) == 0
    ensures Xor(a, 0) == a && Xor(0, a) == a
  {
    if a > 0 {
      XorSelf(a / 2);
    }
  }

  lemma {:induction false} XorRegroup(a: nat, b: nat, c: nat, d: nat)
    ensures Xor(Xor(a, b), Xor(c, d)) == Xor(Xor(a, c), Xor(b, d))
    decreases a + b + c + d
  {
    hide Xor;
    if a + b + c + d > 0 {
      var x, y, u, v := Xor(a, b), Xor(c, d), Xor(a, c), Xor(b, d);
      assert Xor(x / 2, y / 2) == Xor(u / 2, v / 2) by {
        XorRegroup(a / 2, b / 2, c / 2, d / 2);
        XorHalf(a, b); XorHalf(c, d); XorHalf(a, c); XorHalf(b, d);
      }
      assert Xor(x, y) == (a + b + (c + d)) % 2 + 2 * Xor(x / 2, y / 2) by {
        XorHalf(a, b); XorHalf(c, d); XorOfPairs(x, y, a + b, c + d);
      }
      assert Xor(u, v) == (a + c + (b + d)) % 2 + 2 * Xor(u / 2, v / 2) by {
        XorHalf(a, c); XorHalf(b, d); XorOfPairs(u, v, a + c, b + d);
      }
    }
  }

  lemma XorOfPairs(x: nat, y: nat, p: nat, q: nat)
    requires x % 2 == p % 2 && y % 2 == q % 2
    ensures Xor(x, y) == (p + q) % 2 + 2 * Xor(x / 2, y / 2)
  {
    hide Xor;
    XorHalf(x, y);
    ParitySum(x, y, p, q);
  }

  lemma ParitySum(x: nat, y: nat, p: nat, q: nat)
    requires x % 2 == p % 2 && y % 2 == q % 2
    ensures (x + y) % 2 == (p + q) % 2
  {
  }

  lemma XorHalf(a: nat, b: nat)
    ensures Xor(a, b) == (a + b) % 2 + 2 * Xor(a / 2, b / 2)
    ensures Xor(a, b) / 2 == Xor(a / 2, b / 2) && Xor(a, b) % 2 == (a + b) % 2
  {
  }

  lemma XorAssoc(a: nat, b: nat, c: nat)
    ensures Xor(Xor(a, b), c) == Xor(a, Xor(b, c))
    ensures Xor(Xor(a, b), c) == Xor(Xor(a, c), b)
  {
    hide Xor;
    XorRegroup(a, b, 0, c);
    XorRegroup(a, b, c, 0);
    XorSelf(a); XorSelf(b); XorSelf(c);
  }

  lemma XorCancels(a: nat, b: nat)
    ensures Xor(a, Xor(a, b)) == b
    ensures Xor(Xor(b, a), a) == b
  {
    hide Xor;
    XorAssoc(a, a, b);
    XorAssoc(b, a, a);
    XorSelf(a); XorSelf(b);
  }

  /** Exclusive or with a fixed number, on either side, loses nothing. */
  lemma XorInjective(a: nat, b: nat, c: nat)
    ensures Xor(a, c) == Xor(b, c) ==> a == b
    ensures Xor(c, a) == Xor(c, b) ==> a == b
  {
    hide Xor;
    XorCancels(c, a);
    XorCancels(c, b);
  }

  function XorAll(s: seq<byte>): byte {
    if s == [] then 0 else XorBytes(XorAll(s[..|s| - 1]), s[|s| - 1])
  }

  lemma XorAllNil()
    ensures XorAll([]) == 0
  {
  }

  lemma {:induction false} XorAllSnoc(s: seq<byte>, b: byte)
    ensures XorAll(s + [b]) == XorBytes(XorAll(s), b)
  {
    assert (s + [b])[..|s|] == s;
  }

  /** Changing one byte of a buffer changes its running xor. */
  lemma {:induction false} XorAllDetects(s: seq<byte>, i: nat, b: byte)
    requires i < |s| && b != s[i]
    ensures XorAll(s[i := b]) != XorAll(s)
  {
    hide Xor;
    var n := |s| - 1;
    var t := s[i := b];
    if i == n {
      assert t[..n] == s[..n];
      XorInjective(b, s[n], XorAll(s[..n]));
    } else {
      assert t[..n] == s[..n][i := b];
      XorAllDetects(s[..n], i, b);
      XorInjective(XorAll(t[..n]), XorAll(s[..n]), s[n]);
    }
  }
}
