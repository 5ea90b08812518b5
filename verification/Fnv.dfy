/** The 32-bit FNV-1a hash of hash/fnv. */
module Fnv {
  import opened Base

  const TWO_32: int := 0x1_0000_0000
  const OFFSET_BASIS: int := 0x811c_9dc5
  const PRIME: int := 0x0100_0193

  predicate Odd(x: int) {
    x % 2 == 1
  }

  /** One binary digit of an exclusive or: `weight` when the two differ in it. */
  function Digit(a: int, b: int, weight: int): (d: int)
    ensures d == 0 || d == weight
  {
    if Odd(a) != Odd(b) then weight else 0
  }

  /** Four of them. */
  function Nibble(a: int, b: int): (n: int)
    ensures 0 <= n < 16
  {
    Digit(a, b, 1) + Digit(a / 2, b / 2, 2) + Digit(a / 4, b / 4, 4) + Digit(a / 8, b / 8, 8)
  }

  /** The exclusive or of two bytes. */
  function Xor(a: int, b: int): int {
    Nibble(a, b) + 16 * Nibble(a / 16, b / 16)
  }

  /** A byte reaches only the low eight bits of what it is combined with. */
  function XorLow(h: int, b: byte): int {
    h / 256 * 256 + Xor(h % 256, b)
  }

  function Mix(h: int, b: byte): int {
    XorLow(h, b) * PRIME % TWO_32
  }

  /** The loop over the data, from hash h on. */
  function From(h: int, data: Bytes): (r: int)
    requires 0 <= h < TWO_32
    ensures 0 <= r < TWO_32
    decreases data
  {
    if data == [] then h else From(Mix(h, data[0]), data[1..])
  }

  function Sum32(data: Bytes): (r: int)
    ensures 0 <= r < TWO_32
  {
    From(OFFSET_BASIS, data)
  }

  // ----- Nothing of the data is lost on the way -----

  lemma Halves(x: int, y: int)
    requires Odd(x) == Odd(y) && x / 2 == y / 2
    ensures x == y
  {
  }

  lemma HalfOf(x: int)
    ensures x / 4 == x / 2 / 2 && x / 8 == x / 4 / 2 && x / 16 == x / 8 / 2
  {
  }

  predicate SameDigits(x: int, y: int) {
    Odd(x) == Odd(y) && Odd(x / 2) == Odd(y / 2) && Odd(x / 4) == Odd(y / 4) && Odd(x / 8) == Odd(y / 8)
  }

  lemma DigitsTell(x: int, y: int)
    requires SameDigits(x, y) && x / 16 == y / 16
    ensures x == y
  {
    HalfOf(x);
    HalfOf(y);
    Halves(x / 8, y / 8);
    Halves(x / 4, y / 4);
    Halves(x / 2, y / 2);
    Halves(x, y);
  }

  lemma SameSum(e3: int, e2: int, e1: int, e0: int, f3: int, f2: int, f1: int, f0: int)
    requires e0 in {0, 1} && e1 in {0, 2} && e2 in {0, 4} && e3 in {0, 8}
    requires f0 in {0, 1} && f1 in {0, 2} && f2 in {0, 4} && f3 in {0, 8}
    requires e0 + e1 + e2 + e3 == f0 + f1 + f2 + f3
    ensures e0 == f0 && e1 == f1 && e2 == f2 && e3 == f3
  {
    assert e3 == f3;
    assert e2 == f2;
  }

  lemma NibbleUndone(a: int, b: int, c: int, d: int)
    requires Nibble(a, b) == Nibble(c, d)
    ensures SameDigits(a, c) <==> SameDigits(b, d)
  {
    SameSum(Digit(a / 8, b / 8, 8), Digit(a / 4, b / 4, 4), Digit(a / 2, b / 2, 2), Digit(a, b, 1),
            Digit(c / 8, d / 8, 8), Digit(c / 4, d / 4, 4), Digit(c / 2, d / 2, 2), Digit(c, d, 1));
  }

  lemma NothingAbove(x: byte)
    ensures x / 16 / 16 == 0
  {
  }

  lemma BytesTell(x: byte, y: byte)
    requires SameDigits(x, y) && SameDigits(x / 16, y / 16)
    ensures x == y
  {
    NothingAbove(x);
    NothingAbove(y);
    DigitsTell(x / 16, y / 16);
    DigitsTell(x, y);
  }

  lemma Nibbles(h: int, l: int, k: int, m: int)
    requires 0 <= l < 16 && 0 <= m < 16 && l + 16 * h == m + 16 * k
    ensures h == k && l == m
  {
  }

  lemma XorDigits(a: byte, b: byte, c: byte, d: byte)
    requires Xor(a, b) == Xor(c, d)
    ensures SameDigits(a, c) <==> SameDigits(b, d)
    ensures SameDigits(a / 16, c / 16) <==> SameDigits(b / 16, d / 16)
  {
    Nibbles(Nibble(a / 16, b / 16), Nibble(a, b), Nibble(c / 16, d / 16), Nibble(c, d));
    NibbleUndone(a, b, c, d);
    NibbleUndone(a / 16, b / 16, c / 16, d / 16);
  }

  lemma XorUndone(a: byte, b: byte, c: byte, d: byte)
    requires Xor(a, b) == Xor(c, d)
    ensures a == c <==> b == d
  {
    XorDigits(a, b, c, d);
    if a == c {
      BytesTell(b, d);
    }
    if b == d {
      BytesTell(a, c);
    }
  }

  lemma LowByte(h: int, x: int)
    requires 0 <= h < TWO_32 && 0 <= x < 256
    ensures (h / 256 * 256 + x) / 256 == h / 256 && (h / 256 * 256 + x) % 256 == x
    ensures 0 <= h / 256 * 256 + x < TWO_32
  {
  }

  lemma TimesPrimeUndone(x: int, y: int)
    requires 0 <= x < TWO_32 && 0 <= y < TWO_32
    requires x * PRIME % TWO_32 == y * PRIME % TWO_32
    ensures x == y
  {
    var k := x * PRIME / TWO_32 - y * PRIME / TWO_32;
    assert (x - y) * PRIME == k * TWO_32;
    assert x - y == (k * 0x359c_449b - (x - y) * (PRIME * 0x359c_449b / TWO_32)) * TWO_32;
  }

  lemma LowUndone(h: int, g: int, x: byte, y: byte)
    requires 0 <= h < TWO_32 && 0 <= g < TWO_32 && XorLow(h, x) == XorLow(g, y)
    ensures h == g <==> x == y
  {
    LowByte(h, Xor(h % 256, x));
    LowByte(g, Xor(g % 256, y));
    XorUndone(h % 256, x, g % 256, y);
    assert h == h / 256 * 256 + h % 256 && g == g / 256 * 256 + g % 256;
  }

  lemma XorLowFits(h: int, x: byte)
    requires 0 <= h < TWO_32
    ensures 0 <= XorLow(h, x) < TWO_32
  {
    LowByte(h, Xor(h % 256, x));
  }

  /** A step confuses neither two hashes nor two bytes. */
  lemma MixUndone(h: int, g: int, x: byte, y: byte)
    requires 0 <= h < TWO_32 && 0 <= g < TWO_32 && Mix(h, x) == Mix(g, y)
    ensures h == g <==> x == y
  {
    XorLowFits(h, x);
    XorLowFits(g, y);
    TimesPrimeUndone(XorLow(h, x), XorLow(g, y));
    LowUndone(h, g, x, y);
  }

  lemma {:induction false} StillDiffer(h: int, g: int, rest: Bytes)
    requires 0 <= h < TWO_32 && 0 <= g < TWO_32 && h != g
    ensures From(h, rest) != From(g, rest)
    decreases rest
  {
    if rest != [] {
      if Mix(h, rest[0]) == Mix(g, rest[0]) {
        MixUndone(h, g, rest[0], rest[0]);
      }
      StillDiffer(Mix(h, rest[0]), Mix(g, rest[0]), rest[1..]);
    }
  }

  lemma {:induction false} DifferFrom(h: int, a: Bytes, x: byte, y: byte, rest: Bytes)
    requires 0 <= h < TWO_32 && x != y
    ensures From(h, a + [x] + rest) != From(h, a + [y] + rest)
    decreases a
  {
    var s, t := a + [x] + rest, a + [y] + rest;
    if a == [] {
      assert s[1..] == rest && t[1..] == rest;
      if Mix(h, x) == Mix(h, y) {
        MixUndone(h, h, x, y);
      }
      StillDiffer(Mix(h, x), Mix(h, y), rest);
    } else {
      assert s[1..] == a[1..] + [x] + rest && t[1..] == a[1..] + [y] + rest;
      DifferFrom(Mix(h, a[0]), a[1..], x, y, rest);
    }
  }

  /** Changing any one byte of a string, wherever it is, changes the hash. */
  lemma EveryByteMatters(a: Bytes, x: byte, y: byte, rest: Bytes)
    requires x != y
    ensures Sum32(a + [x] + rest) != Sum32(a + [y] + rest)
  {
    DifferFrom(OFFSET_BASIS, a, x, y, rest);
  }

  // ----- Published values -----

  /** The loop takes in one byte, its division carried out. */
  lemma Takes(h: int, high: int, low: int, s: Bytes, mixed: int, q: int, next: int)
    requires s != [] && h == high * 256 + low && 0 <= low < 256 && 0 <= h < TWO_32 && Xor(low, s[0]) == mixed
    requires (high * 256 + mixed) * PRIME == q * TWO_32 + next && 0 <= next < TWO_32
    ensures From(h, s) == From(next, s[1..])
  {
    DivModUnique(h, 256, high, low);
    DivModUnique((high * 256 + mixed) * PRIME, TWO_32, q, next);
  }

  lemma XorF()
    ensures Xor(0xc5, 102) == 0xa3
  {
  }

  lemma XorO()
    ensures Xor(0x99, 111) == 0xf6
  {
  }

  lemma XorO2()
    ensures Xor(0x42, 111) == 0x2d
  {
  }

  lemma XorB()
    ensures Xor(0xd7, 98) == 0xb5
  {
  }

  lemma XorA2()
    ensures Xor(0xef, 97) == 0x8e
  {
  }

  lemma XorR()
    ensures Xor(0x8a, 114) == 0xf8
  {
  }

  lemma XorA()
    ensures Xor(0xc5, 97) == 0xa4
  {
  }

  /** Of nothing, of "a" and of "foobar". */
  lemma Published(s: Bytes)
    ensures Sum32([]) == 0x811c_9dc5
    ensures s == [97] ==> Sum32(s) == 0xe40c_292c
    ensures s == [102, 111, 111, 98, 97, 114] ==> Sum32(s) == 0xbf9c_f968
  {
    if s == [97] {
      XorA();
      Takes(0x811c_9dc5, 0x811c9d, 0xc5, s, 0xa4, 8461672, 0xe40c_292c);
    }
    if s == [102, 111, 111, 98, 97, 114] {
      XorF();
      Takes(0x811c_9dc5, 0x811c9d, 0xc5, s[0..], 0xa3, 8461672, 0xe30c_2799);
      XorO();
      Takes(0xe30c_2799, 0xe30c27, 0x99, s[1..], 0xf6, 14880141, 0x6222_e842);
      XorO2();
      Takes(0x6222_e842, 0x6222e8, 0x42, s[2..], 0x2d, 6431618, 0xa9f3_7ed7);
      XorB();
      Takes(0xa9f3_7ed7, 0xa9f37e, 0xd7, s[3..], 0xb5, 11138186, 0x3f50_76ef);
      XorA2();
      Takes(0x3f50_76ef, 0x3f5076, 0xef, s[4..], 0x8e, 4149466, 0x39aa_a18a);
      XorR();
      Takes(0x39aa_a18a, 0x39aaa1, 0x8a, s[5..], 0xf8, 3779324, 0xbf9c_f968);
    }
  }
}
