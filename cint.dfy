/**
 * Fixed-width integer and C-string conventions shared by the models.
 * The target is Win32: int and long are 32 bits, long long and intmax_t
 * are 64 bits, pointers and size_t are 32 bits.
 */
module CInt {
  const TWO32: int := 0x1_0000_0000
  const TWO31: int := 0x8000_0000
  const TWO64: int := 0x1_0000_0000_0000_0000
  const TWO63: int := 0x8000_0000_0000_0000

  predicate IsInt32(x: int) { -TWO31 <= x < TWO31 }
  predicate IsInt64(x: int) { -TWO63 <= x < TWO63 }

  /** Reduction modulo 2^32, the value of a conversion to unsigned int. */
  function U32(x: int): (r: int)
    ensures 0 <= r < TWO32
    ensures (x - r) % TWO32 == 0
  {
    x % TWO32
  }

  /** Reduction modulo 2^64, the value of a conversion to unsigned long long. */
  function U64(x: int): (r: int)
    ensures 0 <= r < TWO64
    ensures (x - r) % TWO64 == 0
  {
    x % TWO64
  }

  /** Two's complement wrap to a signed 32-bit int. */
  function I32(x: int): (r: int)
    ensures IsInt32(r)
    ensures (x - r) % TWO32 == 0
    ensures IsInt32(x) ==> r == x
  {
    var u := U32(x);
    if u < TWO31 then u else u - TWO32
  }

  /** Two's complement wrap to a signed 64-bit integer. */
  function I64(x: int): (r: int)
    ensures IsInt64(r)
    ensures (x - r) % TWO64 == 0
    ensures IsInt64(x) ==> r == x
  {
    var u := U64(x);
    if u < TWO63 then u else u - TWO64
  }

  /** Wrap to an arbitrary signed width of `bits` bits. */
  function IWrap(x: int, bits: nat): (r: int)
    requires bits > 0
    ensures -(Pow2(bits - 1) as int) <= r < Pow2(bits - 1)
  {
    var u := x % Pow2(bits);
    if u < Pow2(bits - 1) then u else u - Pow2(bits)
  }

  function Pow2(n: nat): (r: nat)
    ensures r >= 1
  {
    if n == 0 then 1 else 2 * Pow2(n - 1)
  }

  /** The character at position i of a C string, NUL past its end. */
  function At(s: seq<char>, i: int): char
  {
    if 0 <= i < |s| then s[i] else '\0'
  }

  predicate IsDigit(c: char) { '0' <= c <= '9' }

  /** isblank() in the C locale. */
  predicate IsBlank(c: char) { c == ' ' || c == '\t' }

  /** tolower() in the C locale. */
  function ToLower(c: char): (r: char)
    ensures 'A' <= c <= 'Z' ==> r as int == c as int + 32
    ensures !('A' <= c <= 'Z') ==> r == c
  {
    if 'A' <= c <= 'Z' then (c as int + 32) as char else c
  }

  /** strlen(): the characters before the first NUL. */
  function StrLen(s: seq<char>): (n: nat)
    ensures n <= |s|
    ensures forall k :: 0 <= k < n ==> s[k] != '\0'
    ensures n < |s| ==> s[n] == '\0'
  {
    if |s| == 0 || s[0] == '\0' then 0 else 1 + StrLen(s[1..])
  }

  /** Euclidean division is unique: a quotient and remainder in range are a / m and a % m. */
  lemma ModOfDecomposition(a: int, q: int, r: int, m: int)
    requires m > 0 && 0 <= r < m && a == q * m + r
    ensures a % m == r
  {
    var q2, r2 := a / m, a % m;
    var d := q - q2;
    assert d * m == r2 - r;
    if d >= 1 {
      MulAtLeast(d, m);
    } else if d <= -1 {
      MulAtLeast(-d, m);
    }
  }

  lemma MulAtLeast(d: int, m: int)
    requires d >= 1 && m > 0
    ensures d * m >= m
  {
    assert d * m == (d - 1) * m + m;
    assert (d - 1) * m >= 0;
  }

  lemma Associative<T>(a: seq<T>, b: seq<T>, c: seq<T>)
    ensures a + (b + c) == a + b + c
  {
  }

  lemma ConsTail<T>(s: seq<T>)
    requires |s| > 0
    ensures [s[0]] + s[1..|s|] == s
  {
  }

  /** A slice is its first element followed by the rest, and whatever it lacks, both lack. */
  lemma SliceCons<T>(s: seq<T>, i: nat, j: nat, x: T, y: T)
    requires i < j <= |s|
    ensures [s[i]] + s[i + 1..j] == s[i..j]
    ensures x !in s[i..j] ==> s[i] != x && x !in s[i + 1..j]
    ensures y !in s[i..j] ==> s[i] != y && y !in s[i + 1..j]
  {
    assert s[i..j] == [s[i]] + s[i + 1..j];
  }

  lemma ConsTwo<T>(x: T, y: T, rest: seq<T>)
    ensures [x] + ([y] + rest) == [x, y] + rest
  {
  }

  /** malloc/realloc: the next `grants` requests succeed, later ones fail. */
  class Allocator {
    var grants: nat

    method Allocate() returns (ok: bool)
      modifies this
      ensures ok == (old(grants) > 0)
      ensures grants == if ok then old(grants) - 1 else old(grants)
    {
      ok := grants > 0;
      if ok {
        grants := grants - 1;
      }
    }
  }
}
