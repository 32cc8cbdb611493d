// Bytes and the fixed-width big-endian integers used by the
// framed digest and by the streaming transport.

module Bytes {

  type byte = x: int | 0 <= x < 256

  /** The number of values that fit in `width` bytes. */
  function Capacity(width: nat): (c: nat)
    ensures c >= 1
  {
    if width == 0 then 1 else 256 * Capacity(width - 1)
  }

  /** Fixed-width big-endian encoding; the most significant byte comes first. */
  function BigEndian(n: nat, width: nat): (b: seq<byte>)
    requires n < Capacity(width)
    ensures |b| == width
  {
    if width == 0 then [] else BigEndian(n / 256, width - 1) + [n % 256]
  }

  function BigEndianValue(b: seq<byte>): nat {
    if b == [] then 0 else 256 * BigEndianValue(b[..|b| - 1]) + b[|b| - 1]
  }

  lemma {:induction false} BigEndianRoundTrip(n: nat, width: nat)
    requires n < Capacity(width)
    ensures BigEndianValue(BigEndian(n, width)) == n
  {
    if width == 0 {
    } else {
      BigEndianRoundTrip(n / 256, width - 1);
      assert BigEndian(n, width)[..width - 1] == BigEndian(n / 256, width - 1);
    }
  }

  lemma {:induction false} BigEndianIsOnto(b: seq<byte>)
    ensures BigEndianValue(b) < Capacity(|b|)
    ensures BigEndian(BigEndianValue(b), |b|) == b
  {
    if b == [] {
    } else {
      var init := b[..|b| - 1];
      BigEndianIsOnto(init);
      assert init + [b[|b| - 1]] == b;
    }
  }

  lemma CapacityIsPower()
    ensures Capacity(0) == 1 && Capacity(1) == 0x100 && Capacity(2) == 0x1_0000
    ensures Capacity(4) == 0x1_0000_0000 && Capacity(8) == 0x1_0000_0000_0000_0000
  {
    assert Capacity(4) == 256 * (256 * Capacity(2));
    assert Capacity(8) == 256 * (256 * (256 * (256 * Capacity(4))));
  }

  /** Dropping the last digit and then `k` more is dropping `k + 1`. */
  lemma DivideTwice(n: nat, c: nat)
    requires c > 0
    ensures n / 256 / c == n / (256 * c)
  {
    var q := n / (256 * c);
    var r := n % (256 * c);
    assert n == 256 * (c * q) + r;
    assert n / 256 == c * q + r / 256;
    assert 0 <= r / 256 < c;
    QuotientIsUnique(n / 256, c, q, r / 256);
  }

  lemma MultiplesApart(c: nat, p: nat, q: nat)
    requires p < q
    ensures c * p + c <= c * q
  {
    var d: nat := q - p - 1;
    assert c * q == c * (p + (1 + d)) == c * p + c * (1 + d);
    assert c * (1 + d) == c + c * d;
    assert c * d >= 0;
  }

  lemma QuotientIsUnique(n: nat, c: nat, q: nat, r: nat)
    requires n == c * q + r && r < c
    ensures n / c == q
  {
    var p := n / c;
    var rest := n % c;
    assert n == c * p + rest && rest < c;
    if p < q {
      MultiplesApart(c, p, q);
    } else if p > q {
      MultiplesApart(c, q, p);
    }
  }

  /** The bytes are the digits of the number to the base 256, the most significant one first. */
  lemma {:induction false} BigEndianDigits(n: nat, width: nat, i: nat)
    requires n < Capacity(width) && i < width
    ensures BigEndian(n, width)[i] == n / Capacity(width - 1 - i) % 256
  {
    if i == width - 1 {
    } else {
      BigEndianDigits(n / 256, width - 1, i);
      DivideTwice(n, Capacity(width - 2 - i));
    }
  }

  /** Little-endian value of four bytes, the form of the integers in an Ogg page header. */
  function LittleEndian4(b: seq<byte>): (n: nat)
    requires |b| == 4
    ensures n < 0x1_0000_0000
  {
    var b0: int, b1: int, b2: int, b3: int := b[0], b[1], b[2], b[3];
    b0 + 0x100 * b1 + 0x1_0000 * b2 + 0x100_0000 * b3
  }

  /** The bytes are the digits of the value to the base 256, the least significant one first. */
  lemma LittleEndianDigits(b: seq<byte>)
    requires |b| == 4
    ensures b[0] == LittleEndian4(b) % 0x100
    ensures b[1] == LittleEndian4(b) / 0x100 % 0x100
    ensures b[2] == LittleEndian4(b) / 0x1_0000 % 0x100
    ensures b[3] == LittleEndian4(b) / 0x100_0000
  {
    var n, b1: int, b2: int, b3: int := LittleEndian4(b), b[1], b[2], b[3];
    assert n == (b1 + (b2 + b3 * 0x100) * 0x100) * 0x100 + b[0];
    DigitOff(b1 + (b2 + b3 * 0x100) * 0x100, b[0]);
    DigitOff(b2 + b3 * 0x100, b[1]);
    DigitOff(b3, b[2]);
    HigherDigits(n);
  }

  lemma DigitOff(q: nat, d: byte)
    ensures (q * 0x100 + d) % 0x100 == d && (q * 0x100 + d) / 0x100 == q
  {
  }

  lemma HigherDigits(n: nat)
    ensures n / 0x1_0000 == n / 0x100 / 0x100 && n / 0x100_0000 == n / 0x1_0000 / 0x100
  {
  }

  /** Every value below 2^32 is that of its digits. */
  lemma LittleEndianRoundTrip(n: nat)
    requires n < 0x1_0000_0000
    ensures LittleEndian4([n % 0x100, n / 0x100 % 0x100, n / 0x1_0000 % 0x100, n / 0x100_0000]) == n
  {
    HigherDigits(n);
    var q1, q2 := n / 0x100, n / 0x1_0000;
    assert n == q1 * 0x100 + n % 0x100 && q1 == q2 * 0x100 + q1 % 0x100;
    assert q2 == n / 0x100_0000 * 0x100 + q2 % 0x100;
  }
}
