/** UTF-8 as sections 3 and 4 of RFC 3629 define it, and the truncation of
    model/model.go on arbitrary bytes. */
module Utf8 {
  import opened Base

  /** Unicode scalar values: every code point but the surrogates. */
  predicate Scalar(cp: int) {
    0 <= cp < 0xD800 || 0xE000 <= cp <= 0x10FFFF
  }

  type Rune = cp: int | Scalar(cp)

  /** Section 3 of RFC 3629: the octets of one character. */
  function Encode(cp: Rune): (s: Bytes)
    ensures 1 <= |s| <= 4
  {
    var c: int := cp;
    assert Scalar(c);
    if c < 0x80 then [c as byte]
    else if c < 0x800 then [(0xC0 + c / 64) as byte, (0x80 + c % 64) as byte]
    else if c < 0x10000 then
      [(0xE0 + c / 64 / 64) as byte, (0x80 + c / 64 % 64) as byte, (0x80 + c % 64) as byte]
    else
      [(0xF0 + c / 64 / 64 / 64) as byte, (0x80 + c / 64 / 64 % 64) as byte,
       (0x80 + c / 64 % 64) as byte, (0x80 + c % 64) as byte]
  }

  function EncodeAll(cps: seq<Rune>): Bytes {
    if cps == [] then [] else Encode(cps[0]) + EncodeAll(cps[1..])
  }

  predicate Tail(b: byte) {
    0x80 <= b <= 0xBF
  }

  /** Section 4 of RFC 3629: the length of the well-formed character `s` starts
      with, or 0 when it starts with none. */
  function RuneLen(s: Bytes): (k: nat)
    ensures k <= |s| && k <= 4
  {
    if |s| >= 1 && s[0] < 0x80 then 1
    else if |s| >= 2 && 0xC2 <= s[0] <= 0xDF && Tail(s[1]) then 2
    else if |s| >= 3 && 0xE0 <= s[0] <= 0xEF && Tail(s[1]) && Tail(s[2])
            && (s[0] == 0xE0 ==> s[1] >= 0xA0) && (s[0] == 0xED ==> s[1] <= 0x9F) then 3
    else if |s| >= 4 && 0xF0 <= s[0] <= 0xF4 && Tail(s[1]) && Tail(s[2]) && Tail(s[3])
            && (s[0] == 0xF0 ==> s[1] >= 0x90) && (s[0] == 0xF4 ==> s[1] <= 0x8F) then 4
    else 0
  }

  function Octet(s: Bytes, i: nat): int
    requires i < |s|
  {
    s[i] as int
  }

  function Decode(s: Bytes): int
    requires RuneLen(s) > 0
  {
    match RuneLen(s)
    case 1 => Octet(s, 0)
    case 2 => (Octet(s, 0) - 0xC0) * 64 + (Octet(s, 1) - 0x80)
    case 3 => ((Octet(s, 0) - 0xE0) * 64 + (Octet(s, 1) - 0x80)) * 64 + (Octet(s, 2) - 0x80)
    case _ =>
      (((Octet(s, 0) - 0xF0) * 64 + (Octet(s, 1) - 0x80)) * 64 + (Octet(s, 2) - 0x80)) * 64 + (Octet(s, 3) - 0x80)
  }

  predicate Valid(s: Bytes) {
    s == [] || (RuneLen(s) > 0 && Valid(s[RuneLen(s)..]))
  }

  /** strings.ToValidUTF8 with U+FFFD: each run of invalid bytes becomes one
      replacement character. `inRun` says the previous byte was invalid. */
  function Sanitize(s: Bytes, inRun: bool): Bytes {
    if s == [] then []
    else
      var k := RuneLen(s);
      if k > 0 then s[..k] + Sanitize(s[k..], false)
      else (if inRun then [] else REPLACEMENT) + Sanitize(s[1..], true)
  }

  const REPLACEMENT: Bytes := [0xEF, 0xBF, 0xBD]

  function RuneCount(s: Bytes): nat
    requires Valid(s)
  {
    if s == [] then 0 else 1 + RuneCount(s[RuneLen(s)..])
  }

  /** The bytes of the first m characters. */
  function TakeRunes(s: Bytes, m: nat): Bytes
    requires Valid(s)
  {
    if m == 0 || s == [] then [] else s[..RuneLen(s)] + TakeRunes(s[RuneLen(s)..], m - 1)
  }

  /** What TruncateContent returns: a negative cap never matches its counter. */
  function Truncated(content: Bytes, maxChars: int): Bytes {
    SanitizeIsValid(content, false);
    var v := Sanitize(content, false);
    if maxChars < 0 then v else TakeRunes(v, maxChars)
  }

  const MAX_RESPONSE_SAMPLE_LEN := 1024

  function Sampled(content: Bytes): Bytes {
    Truncated(content, MAX_RESPONSE_SAMPLE_LEN)
  }

  /** One character further: the same cut, one character fewer still to take. */
  lemma AdvanceCut(content: Bytes, i: nat, left: int)
    requires i < |content| && Valid(content[i..])
    ensures
      var k := RuneLen(content[i..]);
      && 0 < k <= |content| - i && Valid(content[i + k..])
      && (left > 0 ==>
            content[..i] + TakeRunes(content[i..], left) == content[..i + k] + TakeRunes(content[i + k..], left - 1))
  {
    var k := RuneLen(content[i..]);
    assert content[i..][k..] == content[i + k..];
    assert content[..i] + content[i..][..k] == content[..i + k];
  }

  /** The counting loop: `i` ranges over the character starts of the content. */
  method CutAfter(content: Bytes, maxChars: int) returns (r: Bytes)
    requires Valid(content)
    ensures r == if maxChars < 0 then content else TakeRunes(content, maxChars)
  {
    var n, i := 0, 0;
    while i < |content|
      invariant 0 <= i <= |content| && Valid(content[i..])
      invariant n >= 0 && (maxChars >= 0 ==> n <= maxChars)
      invariant maxChars >= 0 ==> TakeRunes(content, maxChars) == content[..i] + TakeRunes(content[i..], maxChars - n)
      decreases |content| - i
    {
      if n == maxChars {
        return content[..i];
      }
      AdvanceCut(content, i, maxChars - n);
      n, i := n + 1, i + RuneLen(content[i..]);
    }
    assert content[..i] == content;
    return content;
  }

  method TruncateContent(raw: Bytes, maxChars: int) returns (r: Bytes)
    ensures r == Truncated(raw, maxChars)
  {
    SanitizeIsValid(raw, false);
    r := CutAfter(Sanitize(raw, false), maxChars);
  }

  // ----- The two characterisations of UTF-8 agree -----

  /** Six bits at a time. */
  lemma Base64Digits(q: int, r: int)
    requires 0 <= r < 64
    ensures (q * 64 + r) / 64 == q && (q * 64 + r) % 64 == r
  {
  }

  lemma EncodeOne(cp: Rune, rest: Bytes)
    ensures RuneLen(Encode(cp) + rest) == |Encode(cp)|
    ensures Decode(Encode(cp) + rest) == cp
  {
    assert Scalar(cp);
    var e := Encode(cp);
    var s := e + rest;
    assert s[0] == e[0];
    assert |e| > 1 ==> s[1] == e[1];
    assert |e| > 2 ==> s[2] == e[2];
    assert |e| > 3 ==> s[3] == e[3];
    if |e| == 2 {
      assert 0xC2 <= s[0] <= 0xDF;
    } else if |e| == 3 {
      assert 0xE0 <= s[0] <= 0xEF;
    } else if |e| == 4 {
      assert 0xF0 <= s[0] <= 0xF4;
    }
  }

  lemma DecodeThree(s: Bytes)
    requires RuneLen(s) == 3
    ensures Scalar(Decode(s)) && Encode(Decode(s)) == s[..3]
  {
    var q := (Octet(s, 0) - 0xE0) * 64 + (Octet(s, 1) - 0x80);
    Base64Digits(Octet(s, 0) - 0xE0, Octet(s, 1) - 0x80);
    Base64Digits(q, Octet(s, 2) - 0x80);
  }

  lemma DecodeFour(s: Bytes)
    requires RuneLen(s) == 4
    ensures Scalar(Decode(s)) && Encode(Decode(s)) == s[..4]
  {
    var p := (Octet(s, 0) - 0xF0) * 64 + (Octet(s, 1) - 0x80);
    var q := p * 64 + (Octet(s, 2) - 0x80);
    Base64Digits(Octet(s, 0) - 0xF0, Octet(s, 1) - 0x80);
    Base64Digits(p, Octet(s, 2) - 0x80);
    Base64Digits(q, Octet(s, 3) - 0x80);
  }

  lemma DecodeOne(s: Bytes)
    requires RuneLen(s) > 0
    ensures Scalar(Decode(s)) && Encode(Decode(s)) == s[..RuneLen(s)]
  {
    match RuneLen(s)
    case 1 =>
    case 2 => Base64Digits(Octet(s, 0) - 0xC0, Octet(s, 1) - 0x80);
    case 3 => DecodeThree(s);
    case _ => DecodeFour(s);
  }

  /** The characters of a well-formed string. */
  function DecodeAll(s: Bytes): seq<Rune>
    requires Valid(s)
  {
    if s == [] then []
    else
      DecodeOne(s);
      [Decode(s)] + DecodeAll(s[RuneLen(s)..])
  }

  /** A byte string is well formed exactly when it encodes characters, and then it
      encodes just one sequence of them. */
  lemma {:induction false} EncodeThenDecode(cps: seq<Rune>)
    ensures Valid(EncodeAll(cps)) && DecodeAll(EncodeAll(cps)) == cps
  {
    if cps != [] {
      EncodeThenDecode(cps[1..]);
      EncodeOne(cps[0], EncodeAll(cps[1..]));
      assert EncodeAll(cps)[|Encode(cps[0])|..] == EncodeAll(cps[1..]);
    }
  }

  lemma {:induction false} DecodeThenEncode(s: Bytes)
    requires Valid(s)
    ensures EncodeAll(DecodeAll(s)) == s && |DecodeAll(s)| == RuneCount(s)
  {
    if s != [] {
      DecodeOne(s);
      DecodeThenEncode(s[RuneLen(s)..]);
      assert DecodeAll(s)[1..] == DecodeAll(s[RuneLen(s)..]);
    }
  }

  /** What replaces a run of invalid bytes is U+FFFD. */
  lemma ReplacementCharacter()
    ensures REPLACEMENT == Encode(0xFFFD) && Valid(REPLACEMENT) && DecodeAll(REPLACEMENT) == [0xFFFD]
  {
    EncodeThenDecode([0xFFFD]);
    assert EncodeAll([0xFFFD]) == Encode(0xFFFD) + EncodeAll([]);
  }

  // ----- Truncation -----

  lemma RuneLenPrefix(a: Bytes, b: Bytes)
    requires RuneLen(a) > 0
    ensures RuneLen(a + b) == RuneLen(a)
  {
  }

  lemma {:induction false} ValidConcat(a: Bytes, b: Bytes)
    requires Valid(a) && Valid(b)
    ensures Valid(a + b)
    decreases |a|
  {
    if a == [] {
      assert a + b == b;
    } else {
      RuneLenPrefix(a, b);
      var k := RuneLen(a);
      ValidConcat(a[k..], b);
      assert (a + b)[k..] == a[k..] + b;
    }
  }

  lemma OneRuneValid(s: Bytes)
    requires RuneLen(s) == |s| > 0
    ensures Valid(s)
  {
    assert s[|s|..] == [];
  }

  lemma {:induction false} SanitizeIsValid(s: Bytes, inRun: bool)
    ensures Valid(Sanitize(s, inRun))
    decreases |s|
  {
    if s != [] {
      var k := RuneLen(s);
      if k > 0 {
        SanitizeIsValid(s[k..], false);
        OneRuneValid(s[..k]);
        ValidConcat(s[..k], Sanitize(s[k..], false));
      } else {
        SanitizeIsValid(s[1..], true);
        OneRuneValid(REPLACEMENT);
        ValidConcat(REPLACEMENT, Sanitize(s[1..], true));
        assert [] + Sanitize(s[1..], true) == Sanitize(s[1..], true);
      }
    }
  }

  /** Well-formed content is left alone, so sanitising twice is sanitising once. */
  lemma {:induction false} SanitizeKeepsValid(s: Bytes, inRun: bool)
    requires Valid(s)
    ensures Sanitize(s, inRun) == s
    decreases |s|
  {
    if s != [] {
      SanitizeKeepsValid(s[RuneLen(s)..], false);
    }
  }

  /** Taking m characters of an encoded string is encoding the first m characters. */
  lemma {:induction false} TakeRunesEncodes(s: Bytes, m: nat)
    requires Valid(s)
    ensures
      var cps := DecodeAll(s);
      TakeRunes(s, m) == EncodeAll(cps[..if m < |cps| then m else |cps|])
    decreases |s|
  {
    var cps := DecodeAll(s);
    var cut := if m < |cps| then m else |cps|;
    if m > 0 && s != [] {
      DecodeOne(s);
      TakeRunesEncodes(s[RuneLen(s)..], m - 1);
      assert cps[..cut][1..] == cps[1..][..cut - 1];
    }
  }

  lemma {:induction false} TakeRunesIsPrefix(s: Bytes, m: nat)
    requires Valid(s)
    ensures TakeRunes(s, m) <= s
    decreases |s|
  {
    if m > 0 && s != [] {
      TakeRunesIsPrefix(s[RuneLen(s)..], m - 1);
    }
  }

  /** On any bytes at all: the truncated content is well formed, has at most
      maxChars characters, is a prefix of the sanitised content, and is exactly
      the encoding of its first maxChars characters. */
  lemma TruncationSound(content: Bytes, maxChars: nat)
    ensures Valid(Truncated(content, maxChars))
    ensures RuneCount(Truncated(content, maxChars)) <= maxChars
    ensures Truncated(content, maxChars) <= Sanitize(content, false)
    ensures Valid(Sanitize(content, false))
    ensures
      var cps := DecodeAll(Sanitize(content, false));
      Truncated(content, maxChars) == EncodeAll(cps[..if maxChars < |cps| then maxChars else |cps|])
  {
    SanitizeIsValid(content, false);
    var v := Sanitize(content, false);
    TakeRunesEncodes(v, maxChars);
    TakeRunesIsPrefix(v, maxChars);
    var cps := DecodeAll(v);
    var cut := cps[..if maxChars < |cps| then maxChars else |cps|];
    EncodeThenDecode(cut);
    DecodeThenEncode(EncodeAll(cut));
  }

  function Min(a: nat, b: nat): nat {
    if a < b then a else b
  }

  /** Capping at a and then at b is capping once at the smaller. */
  lemma TruncateTwice(content: Bytes, a: nat, b: nat)
    ensures Truncated(Truncated(content, a), b) == Truncated(content, Min(a, b))
  {
    SanitizeIsValid(content, false);
    TruncationSound(content, a);
    SanitizeKeepsValid(Truncated(content, a), false);
    TakeTwice(Sanitize(content, false), a, b);
  }

  lemma TakeTwice(v: Bytes, a: nat, b: nat)
    requires Valid(v)
    ensures Valid(TakeRunes(v, a)) && TakeRunes(TakeRunes(v, a), b) == TakeRunes(v, Min(a, b))
  {
    var cps := DecodeAll(v);
    var cut := cps[..Min(a, |cps|)];
    TakeRunesEncodes(v, a);
    TakeRunesEncodes(v, Min(a, b));
    EncodeThenDecode(cut);
    TakeRunesEncodes(EncodeAll(cut), b);
    assert cut[..Min(b, |cut|)] == cps[..Min(Min(a, b), |cps|)];
  }

  /** The response sampled by the checker and then capped by the runner is one
      cap of the raw body; a negative cap leaves the sample as it is. */
  lemma SampledThenCapped(body: Bytes, maxChars: int)
    ensures maxChars >= 0 ==>
      Truncated(Sampled(body), maxChars) == Truncated(body, Min(1024, maxChars))
    ensures maxChars < 0 ==> Truncated(Sampled(body), maxChars) == Sampled(body)
  {
    if maxChars >= 0 {
      TruncateTwice(body, MAX_RESPONSE_SAMPLE_LEN, maxChars);
    } else {
      TruncationSound(body, MAX_RESPONSE_SAMPLE_LEN);
      SanitizeKeepsValid(Sampled(body), false);
    }
  }

  lemma Rejoin(a: Bytes, k: nat, t: Bytes)
    requires k <= |a|
    ensures a[..k] + (a[k..] + t) == a + t
  {
  }

  lemma SanitizeStep(s: Bytes, inRun: bool)
    requires RuneLen(s) > 0
    ensures Sanitize(s, inRun) == s[..RuneLen(s)] + Sanitize(s[RuneLen(s)..], false)
  {
  }

  /** A well-formed prefix passes through, and whatever follows is sanitised as
      if it stood alone. */
  lemma {:induction false} SanitizePrefix(a: Bytes, rest: Bytes, inRun: bool)
    requires Valid(a) && a != []
    ensures Sanitize(a + rest, inRun) == a + Sanitize(rest, false)
    decreases |a|
  {
    RuneLenPrefix(a, rest);
    SanitizeStep(a + rest, inRun);
    var k := RuneLen(a);
    var tail := a[k..];
    assert (a + rest)[..k] == a[..k];
    assert (a + rest)[k..] == tail + rest;
    if tail != [] {
      SanitizePrefix(tail, rest, false);
      Rejoin(a, k, Sanitize(rest, false));
    } else {
      assert tail + rest == rest && a[..k] == a;
    }
  }

  predicate BadRun(bad: Bytes, rest: Bytes) {
    forall i :: 0 <= i < |bad| ==> RuneLen((bad + rest)[i..]) == 0
  }

  lemma BadTail(bad: Bytes, rest: Bytes)
    requires bad != [] && BadRun(bad, rest)
    ensures BadRun(bad[1..], rest)
  {
    forall i | 0 <= i < |bad| - 1 ensures RuneLen((bad[1..] + rest)[i..]) == 0 {
      assert (bad + rest)[i + 1..] == (bad[1..] + rest)[i..];
    }
  }

  /** A run of bytes none of which starts a character becomes one replacement. */
  lemma {:induction false} SanitizeRun(bad: Bytes, rest: Bytes, inRun: bool)
    requires bad != [] && BadRun(bad, rest)
    ensures Sanitize(bad + rest, inRun) == (if inRun then [] else REPLACEMENT) + Sanitize(rest, true)
    decreases |bad|
  {
    var s := bad + rest;
    assert s[0..] == s;
    assert s[1..] == bad[1..] + rest;
    assert RuneLen(s) == 0;
    if |bad| > 1 {
      BadTail(bad, rest);
      SanitizeRun(bad[1..], rest, true);
    } else {
      assert bad[1..] + rest == rest;
    }
  }
}
