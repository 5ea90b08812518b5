/** Vocabulary shared by every module: Go strings, int64 arithmetic and the
    byte-wise string order. */
module Base {

  type byte = x: int | 0 <= x < 256

  /** A Go string: an arbitrary sequence of bytes. */
  type Bytes = seq<byte>

  datatype Option<+T> = None | Some(value: T)

  const TWO_63: int := 0x8000_0000_0000_0000
  const TWO_64: int := 0x1_0000_0000_0000_0000
  const SECOND: int := 1_000_000_000

  predicate FitsInt64(x: int) {
    -TWO_63 <= x < TWO_63
  }

  /** The value an int64 operation stores when its exact result is x. */
  function Wrap64(x: int): (r: int)
    ensures FitsInt64(r)
    ensures FitsInt64(x) <==> r == x
    ensures exists k: int :: r == x + k * TWO_64
  {
    var r := (x + TWO_63) % TWO_64 - TWO_63;
    assert r == x + (-((x + TWO_63) / TWO_64)) * TWO_64;
    r
  }

  /** Go's % on signed integers: the remainder takes the sign of the dividend. */
  function TruncMod(a: int, n: int): int
    requires n > 0
  {
    if a >= 0 then a % n else -((-a) % n)
  }

  lemma MulAtLeast(k: int, n: int)
    requires n > 0
    ensures k >= 1 ==> k * n >= n
    ensures k <= -1 ==> k * n <= -n
  {
  }

  /** Division with remainder is unique. */
  lemma DivModUnique(a: int, n: int, q: int, r: int)
    requires n > 0 && 0 <= r < n
    requires a == q * n + r
    ensures a / n == q && a % n == r
  {
    var k := a / n - q;
    assert k * n == r - a % n;
    MulAtLeast(k, n);
  }

  /** Adding a multiple of the modulus changes nothing. */
  lemma ModShift(a: int, k: int, n: int)
    requires n > 0
    ensures (a + k * n) % n == a % n
  {
    var q := a / n + k;
    assert q * n == (a / n) * n + k * n;
    DivModUnique(a + k * n, n, q, a % n);
  }

  /** Congruence is a difference divisible by the modulus. */
  lemma CongruentIff(a: int, b: int, n: int)
    requires n > 0
    ensures a % n == b % n <==> (a - b) % n == 0
  {
    var k := a / n - b / n;
    assert a - b == k * n + (a % n - b % n);
    if a % n == b % n {
      DivModUnique(a - b, n, k, 0);
    } else if (a - b) % n == 0 {
      var m := (a - b) / n;
      assert (m - k) * n == a % n - b % n;
      MulAtLeast(m - k, n);
    }
  }

  /** Truncated and Euclidean remainders differ by the modulus exactly when the
      truncated one is negative. */
  lemma TruncModEuclid(a: int, n: int)
    requires n > 0
    ensures -n < TruncMod(a, n) < n
    ensures a % n == if TruncMod(a, n) < 0 then TruncMod(a, n) + n else TruncMod(a, n)
  {
    if a < 0 {
      var q, r := (-a) / n, (-a) % n;
      assert a == (-q) * n - r;
      if r == 0 {
        DivModUnique(a, n, -q, 0);
      } else {
        assert a == (-q - 1) * n + (n - r);
        DivModUnique(a, n, -q - 1, n - r);
      }
    }
  }

  /** `x` lies on the arithmetic progression through `p` with step `m`. */
  predicate OnGrid(x: int, p: int, m: int)
    requires m > 0
  {
    (x - p) % m == 0
  }

  lemma OnGridIntro(x: int, p: int, m: int, k: int)
    requires m > 0 && x == p + k * m
    ensures OnGrid(x, p, m)
  {
    DivModUnique(x - p, m, k, 0);
  }

  lemma OnGridElim(x: int, p: int, m: int) returns (k: int)
    requires m > 0 && OnGrid(x, p, m)
    ensures x == p + k * m
  {
    k := (x - p) / m;
  }

  /** Two points of one progression less than a step apart are the same point. */
  lemma OnGridClose(x: int, y: int, p: int, m: int)
    requires m > 0 && OnGrid(x, p, m) && OnGrid(y, p, m) && -m < x - y < m
    ensures x == y
  {
    var j := OnGridElim(x, p, m);
    var k := OnGridElim(y, p, m);
    assert x - y == (j - k) * m;
    MulAtLeast(j - k, m);
  }

  /** A window of m consecutive integers holds exactly one point of a
      progression of step m. */
  lemma OnePointInWindow(start: int, p: int, m: int) returns (x: int)
    requires m > 0
    ensures x == start + (p - start) % m
    ensures start <= x < start + m && OnGrid(x, p, m)
    ensures forall y :: start <= y < start + m && OnGrid(y, p, m) ==> y == x
  {
    x := start + (p - start) % m;
    OnGridIntro(x, p, m, -((p - start) / m));
    forall y | start <= y < start + m && OnGrid(y, p, m)
      ensures y == x
    {
      OnGridClose(x, y, p, m);
    }
  }

  /** Reducing the anchor of a progression by its step changes nothing. */
  lemma OnGridReduce(x: int, p: int, m: int)
    requires m > 0
    ensures OnGrid(x, p % m, m) <==> OnGrid(x, p, m)
  {
    var q := p / m;
    if OnGrid(x, p, m) {
      var k := OnGridElim(x, p, m);
      assert (k + q) * m == k * m + q * m;
      OnGridIntro(x, p % m, m, k + q);
    }
    if OnGrid(x, p % m, m) {
      var k := OnGridElim(x, p % m, m);
      assert (k - q) * m == k * m - q * m;
      OnGridIntro(x, p, m, k - q);
    }
  }

  lemma Distribute(k: int, n: int, r: int, i: int)
    ensures (k * n + r) * i == k * (i * n) + r * i
  {
    assert (k * n) * i == k * (n * i);
  }

  /** A multiple of e = i*n displaced by r*i is a multiple of i whose quotient
      is congruent to r modulo n. */
  lemma GridSplit(x: int, p: int, i: int, n: int, r: int, e: int)
    requires i > 0 && n > 0 && e == i * n && e > 0 && 0 <= r < n
    ensures OnGrid(x, r * i + p, e) <==> OnGrid(x, p, i) && ((x - p) / i) % n == r
  {
    if OnGrid(x, r * i + p, e) {
      GridSplitForward(x, p, i, n, r, e);
    }
    if OnGrid(x, p, i) && ((x - p) / i) % n == r {
      GridSplitBack(x, p, i, n, r, e);
    }
  }

  lemma GridSplitForward(x: int, p: int, i: int, n: int, r: int, e: int)
    requires i > 0 && n > 0 && e == i * n && e > 0 && 0 <= r < n
    requires OnGrid(x, r * i + p, e)
    ensures OnGrid(x, p, i) && ((x - p) / i) % n == r
  {
    var k := OnGridElim(x, r * i + p, e);
    var q := k * n + r;
    assert x == p + q * i by { Distribute(k, n, r, i); }
    OnGridIntro(x, p, i, q);
    DivModUnique(x - p, i, q, 0);
    DivModUnique(q, n, k, r);
  }

  lemma GridSplitBack(x: int, p: int, i: int, n: int, r: int, e: int)
    requires i > 0 && n > 0 && e == i * n && e > 0 && 0 <= r < n
    requires OnGrid(x, p, i) && ((x - p) / i) % n == r
    ensures OnGrid(x, r * i + p, e)
  {
    var q := OnGridElim(x, p, i);
    DivModUnique(x - p, i, q, 0);
    var k := q / n;
    assert q == k * n + r;
    assert x == r * i + p + k * e by { Distribute(k, n, r, i); }
    OnGridIntro(x, r * i + p, e, k);
  }
}
