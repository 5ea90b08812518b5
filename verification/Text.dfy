/** Byte-wise string order, and fixed-width decimal fields, whose string order is
    the order of their values. */
module Text {
  import opened Base

  predicate LexLess(a: string, b: string) {
    if b == [] then false
    else if a == [] then true
    else a[0] < b[0] || (a[0] == b[0] && LexLess(a[1..], b[1..]))
  }

  lemma {:induction false} LexTrichotomy(a: string, b: string)
    ensures LexLess(a, b) ==> a != b && !LexLess(b, a)
    ensures !LexLess(a, b) && !LexLess(b, a) ==> a == b
  {
    if a != [] && b != [] && a[0] == b[0] {
      LexTrichotomy(a[1..], b[1..]);
      assert a == [a[0]] + a[1..] && b == [b[0]] + b[1..];
    }
  }

  lemma {:induction false} LexTransitive(a: string, b: string, c: string)
    requires LexLess(a, b) && LexLess(b, c)
    ensures LexLess(a, c)
  {
    if a != [] && a[0] == b[0] == c[0] {
      LexTransitive(a[1..], b[1..], c[1..]);
    }
  }

  /** Strings are compared prefix first when the prefixes have equal length. */
  lemma {:induction false} LexConcat(x: string, y: string, s: string, t: string)
    requires |x| == |y|
    ensures LexLess(x + s, y + t) <==> LexLess(x, y) || (x == y && LexLess(s, t))
  {
    if x == [] {
      assert x + s == s && y + t == t;
    } else {
      assert (x + s)[1..] == x[1..] + s && (y + t)[1..] == y[1..] + t;
      LexConcat(x[1..], y[1..], s, t);
      assert x == [x[0]] + x[1..] && y == [y[0]] + y[1..];
    }
  }

  // ----- Fixed-width decimals -----

  function Pow10(w: nat): (p: nat)
    ensures p > 0
  {
    if w == 0 then 1 else 10 * Pow10(w - 1)
  }

  function Digit(d: int): (c: char)
    requires 0 <= d < 10
    ensures c as int == '0' as int + d
  {
    ('0' as int + d) as char
  }

  predicate IsDigit(c: char) {
    '0' <= c <= '9'
  }

  function DigitValue(c: char): (d: int)
    requires IsDigit(c)
    ensures 0 <= d < 10
  {
    c as int - '0' as int
  }

  /** `n` in exactly w decimal digits. */
  function Digits(n: nat, w: nat): (s: string)
    requires n < Pow10(w)
    ensures |s| == w
  {
    if w == 0 then [] else Digits(n / 10, w - 1) + [Digit(n % 10)]
  }

  predicate AllDigits(s: string) {
    forall i :: 0 <= i < |s| ==> IsDigit(s[i])
  }

  function NumberOf(s: string): (n: nat)
    requires AllDigits(s)
    ensures n < Pow10(|s|)
  {
    if s == [] then 0 else 10 * NumberOf(s[..|s| - 1]) + DigitValue(s[|s| - 1])
  }

  lemma AppendDigit(s: string, d: int)
    requires AllDigits(s) && 0 <= d < 10
    ensures AllDigits(s + [Digit(d)]) && NumberOf(s + [Digit(d)]) == 10 * NumberOf(s) + d
  {
    assert (s + [Digit(d)])[..|s|] == s;
  }

  lemma {:induction false} NumberOfDigits(n: nat, w: nat)
    requires n < Pow10(w)
    ensures AllDigits(Digits(n, w)) && NumberOf(Digits(n, w)) == n
  {
    if w > 0 {
      NumberOfDigits(n / 10, w - 1);
      AppendDigit(Digits(n / 10, w - 1), n % 10);
    }
  }

  lemma LexOneDigit(x: string, y: string, c: int, d: int)
    requires |x| == |y| && 0 <= c < 10 && 0 <= d < 10
    ensures LexLess(x + [Digit(c)], y + [Digit(d)]) <==> LexLess(x, y) || (x == y && c < d)
  {
    LexConcat(x, y, [Digit(c)], [Digit(d)]);
  }

  lemma DigitsInjective(a: nat, b: nat, w: nat)
    requires a < Pow10(w) && b < Pow10(w)
    ensures Digits(a, w) == Digits(b, w) <==> a == b
  {
    NumberOfDigits(a, w);
    NumberOfDigits(b, w);
  }

  lemma {:induction false} DigitsOrder(a: nat, b: nat, w: nat)
    requires a < Pow10(w) && b < Pow10(w)
    ensures LexLess(Digits(a, w), Digits(b, w)) <==> a < b
  {
    if w > 0 {
      DigitsOrder(a / 10, b / 10, w - 1);
      DigitsInjective(a / 10, b / 10, w - 1);
      LexOneDigit(Digits(a / 10, w - 1), Digits(b / 10, w - 1), a % 10, b % 10);
    }
  }

  // ----- Records of fixed-width fields -----

  /** One field: its width, and the literal text that follows it. */
  datatype Field = Field(width: nat, after: string)

  predicate Fits(values: seq<nat>, shape: seq<Field>) {
    |values| == |shape| && forall i :: 0 <= i < |shape| ==> values[i] < Pow10(shape[i].width)
  }

  function Render(values: seq<nat>, shape: seq<Field>): string
    requires Fits(values, shape)
  {
    if shape == [] then []
    else Digits(values[0], shape[0].width) + (shape[0].after + Render(values[1..], shape[1..]))
  }

  predicate SeqLess(a: seq<nat>, b: seq<nat>)
    requires |a| == |b|
  {
    a != [] && (a[0] < b[0] || (a[0] == b[0] && SeqLess(a[1..], b[1..])))
  }

  /** Records of one shape sort as strings exactly as their values sort field by
      field. */
  lemma {:induction false} RenderOrder(a: seq<nat>, b: seq<nat>, shape: seq<Field>)
    requires Fits(a, shape) && Fits(b, shape)
    ensures LexLess(Render(a, shape), Render(b, shape)) <==> SeqLess(a, b)
  {
    if shape != [] {
      var f := shape[0];
      var s, t := Render(a[1..], shape[1..]), Render(b[1..], shape[1..]);
      RenderOrder(a[1..], b[1..], shape[1..]);
      DigitsOrder(a[0], b[0], f.width);
      DigitsInjective(a[0], b[0], f.width);
      LexConcat(f.after, f.after, s, t);
      LexTrichotomy(f.after, f.after);
      LexConcat(Digits(a[0], f.width), Digits(b[0], f.width), f.after + s, f.after + t);
    }
  }

  /** Reads one record off the front of `s`: its values and what is left. */
  function ParseFields(s: string, shape: seq<Field>): (r: Option<(seq<nat>, string)>)
    ensures r.Some? ==> |r.value.0| == |shape|
  {
    if shape == [] then Some(([], s))
    else
      match ParseField(s, shape[0])
      case None => None
      case Some((value, rest)) =>
        match ParseFields(rest, shape[1..])
        case None => None
        case Some((values, rest')) => Some(([value] + values, rest'))
  }

  function ParseField(s: string, f: Field): Option<(nat, string)> {
    var w, n := f.width, f.width + |f.after|;
    if |s| < n || !AllDigits(s[..w]) || s[w..n] != f.after then None
    else Some((NumberOf(s[..w]), s[n..]))
  }

  lemma ParseOneField(value: nat, f: Field, rest: string)
    requires value < Pow10(f.width)
    ensures ParseField(Digits(value, f.width) + (f.after + rest), f) == Some((value, rest))
  {
    SliceHead(Digits(value, f.width), f.after, rest);
    NumberOfDigits(value, f.width);
  }

  lemma SliceHead(x: string, y: string, z: string)
    ensures (x + (y + z))[..|x|] == x
    ensures (x + (y + z))[|x|..|x| + |y|] == y
    ensures (x + (y + z))[|x| + |y|..] == z
  {
  }

  lemma {:induction false} ParseRendered(values: seq<nat>, shape: seq<Field>, rest: string)
    requires Fits(values, shape)
    ensures ParseFields(Render(values, shape) + rest, shape) == Some((values, rest))
  {
    if shape == [] {
      assert Render(values, shape) + rest == rest;
    } else {
      var head, after := Digits(values[0], shape[0].width), shape[0].after;
      var tail := Render(values[1..], shape[1..]);
      assert Render(values, shape) + rest == head + (after + (tail + rest));
      ParseOneField(values[0], shape[0], tail + rest);
      ParseRendered(values[1..], shape[1..], rest);
      assert [values[0]] + values[1..] == values;
    }
  }
}
