/** The SDBM string hash of hashyt.js and its reduction to a bucket index.
    JavaScript numbers are modelled as unbounded integers; every place where
    the source relies on 32-bit or truncating arithmetic is written out. */
module Sdbm {

  /** A UTF-16 code unit: what `charCodeAt` returns for one position of a
      JavaScript string. */
  type CodeUnit = c: int | 0 <= c < 0x1_0000

  /** A JavaScript string: a sequence of UTF-16 code units. */
  type Key = seq<CodeUnit>

  /** A bound on how far one hash step can move the accumulator. */
  const StepBound: int := 0x1_0001_0000

  /** If x == m * q + r with r in [0, m), then r is x's remainder modulo m. */
  lemma ModUnique(x: int, m: int, q: int, r: int)
    requires m > 0 && 0 <= r < m && x == m * q + r
    ensures x % m == r && x / m == q
  {
    var q', r' := x / m, x % m;
    assert m * (q - q') == r' - r;
    if q - q' >= 1 {
      MulAtLeast(m, q - q');
    } else if q' - q >= 1 {
      MulAtLeast(m, q' - q);
    }
  }

  lemma MulAtLeast(m: int, t: int)
    requires m > 0 && t >= 1
    ensures m * t >= m
  {
  }

  /** ToInt32 of ECMAScript: the 32-bit two's-complement integer congruent
      to x modulo 2^32. */
  function Wrap32(x: int): (r: int)
    ensures -0x8000_0000 <= r < 0x8000_0000
    ensures (x - r) % 0x1_0000_0000 == 0
  {
    var r := (x + 0x8000_0000) % 0x1_0000_0000 - 0x8000_0000;
    ModUnique(x - r, 0x1_0000_0000, (x + 0x8000_0000) / 0x1_0000_0000, 0);
    r
  }

  /** One iteration of the loop at hashyt.js:16. `h << 6` and `h << 16`
      convert `h` with ToInt32 and yield a 32-bit result; the sums and the
      trailing `- h` are ordinary number arithmetic on the unwrapped `h`. */
  function Step(h: int, c: CodeUnit): (r: int)
    ensures -StepBound - (if h < 0 then -h else h) <= r <= StepBound + (if h < 0 then -h else h)
  {
    c + Wrap32(Wrap32(h) * 64) + Wrap32(Wrap32(h) * 65536) - h
  }

  /** The accumulator after folding every code unit of `key`, in order. */
  function Hash(key: Key): (h: int)
    ensures -|key| * StepBound <= h <= |key| * StepBound
    decreases |key|
  {
    if key == [] then 0 else Step(Hash(key[..|key| - 1]), key[|key| - 1])
  }

  /** JavaScript's `%` for a positive divisor: the remainder takes the sign
      of the dividend (division truncates toward zero). */
  function JsRem(n: int, d: int): (r: int)
    requires d > 0
    ensures n >= 0 ==> 0 <= r < d
    ensures n < 0 ==> -d < r <= 0
    ensures (n - r) % d == 0
  {
    if n >= 0 then
      ModUnique(n - n % d, d, n / d, 0);
      n % d
    else
      ModUnique(-n - (-n) % d, d, (-n) / d, 0);
      ModUnique(n + (-n) % d, d, -((-n) / d), 0);
      -((-n) % d)
  }

  /** The sign-safe `mod` of hashyt.js:133-135: `((n % m) + m) % m` with
      JavaScript's truncating `%`. */
  function Mod(n: int, m: int): (r: int)
    requires m > 0
    ensures 0 <= r < m
    ensures r == n % m
  {
    var a := JsRem(n, m);
    var r := JsRem(a + m, m);
    ModUnique(n - a, m, (n - a) / m, 0);
    ModUnique(a + m - r, m, (a + m - r) / m, 0);
    ModUnique(n, m, (n - a) / m + (a + m - r) / m - 1, r);
    r
  }

  /** `HashFunc` of hashyt.js:12-22 for a table whose `_limit` is `limit`. */
  method HashFunc(key: Key, limit: int) returns (index: int)
    requires limit > 0
    ensures 0 <= index < limit
    ensures index == Hash(key) % limit
  {
    var hashValue := 0;
    for i := 0 to |key|
      invariant hashValue == Hash(key[..i])
    {
      assert key[..i + 1][..i] == key[..i];
      hashValue := Step(hashValue, key[i]);
    }
    assert key[..|key|] == key;
    index := Mod(hashValue, limit);
  }

  /** While a key has at most 2^20 code units, the accumulator stays below
      2^53 in magnitude, so the double-precision arithmetic of the source is
      exact and the integer model computes the same value. */
  lemma HashExactInDoubles(key: Key)
    requires |key| <= 0x10_0000
    ensures -0x20_0000_0000_0000 < Hash(key) < 0x20_0000_0000_0000
  {
  }
}
