/** Small shared vocabulary: optional values, results and bytes. */
module Basics {

  datatype Option<+T> = None | Some(value: T)

  datatype Result<+T, +E> = Ok(value: T) | Err(error: E)

  /** An unsigned 8-bit value, as C's `unsigned char` / `uint8_t`. */
  type byte = x: int | 0 <= x < 256

  /** `s` repeated `n` times, back to back. */
  function Repeat<T>(s: seq<T>, n: nat): seq<T>
  {
    if n == 0 then [] else Repeat(s, n - 1) + s
  }

  /** `n` copies of `s` are `n * |s|` long. */
  lemma {:induction false} RepeatLength<T>(s: seq<T>, n: nat)
    ensures |Repeat(s, n)| == n * |s|
  {
    if n > 0 {
      RepeatLength(s, n - 1);
      assert n * |s| == (n - 1) * |s| + |s|;
    }
  }

  /** The concatenation of a sequence of sequences. */
  function Flatten<T>(ss: seq<seq<T>>): seq<T>
  {
    if ss == [] then [] else Flatten(ss[..|ss| - 1]) + ss[|ss| - 1]
  }

  lemma FlattenSnoc<T>(ss: seq<seq<T>>, s: seq<T>)
    ensures Flatten(ss + [s]) == Flatten(ss) + s
  {
    assert (ss + [s])[..|ss|] == ss;
  }

  /**
   * C's `%` on `int`: the quotient is truncated toward zero, so the
   * remainder takes the sign of the dividend (Dafny's own `%` is Euclidean).
   */
  function CRem(x: int, m: int): (r: int)
    requires m > 0
    ensures -m < r < m
    ensures x >= 0 ==> 0 <= r && r == x % m
    ensures x <= 0 ==> r <= 0
  {
    if x >= 0 then x % m else -((-x) % m)
  }

  /** C's `/` on `int`: the quotient truncated toward zero. */
  function CDiv(x: int, m: int): (q: int)
    requires m > 0
    ensures x >= 0 ==> 0 <= q && q == x / m
    ensures x <= 0 ==> q <= 0
  {
    if x >= 0 then x / m else -((-x) / m)
  }

  /** `10` to the power `k`. */
  function Pow10(k: nat): (p: nat)
    ensures p >= 1
  {
    if k == 0 then 1 else 10 * Pow10(k - 1)
  }

  /** Multiplying by a non-negative factor keeps the order. */
  lemma MulMono(m: int, a: int, b: int)
    requires m >= 0 && a <= b
    ensures m * a <= m * b && a * m <= b * m
  {
    assert m * b - m * a == m * (b - a);
  }

  /** One more row of `x`: `rows * x` is `x` plus `rows - 1` more. */
  lemma Distribute(rows: nat, x: int)
    requires rows > 0
    ensures rows * x == x + (rows - 1) * x && (x >= 0 ==> (rows - 1) * x >= 0)
  {
  }
}
