/** Outcome types shared by every module: a value that may be missing, and a
    value or an error message (Go's `(T, error)` pairs and Python exceptions). */
module Wrappers {
  datatype Option<T> = None | Some(value: T)

  datatype Result<T> = Ok(value: T) | Err(msg: string)
  {
    predicate IsFailure() { Err? }

    function PropagateFailure<U>(): Result<U>
      requires Err?
    {
      Err(msg)
    }

    function Extract(): T
      requires Ok?
    {
      value
    }
  }
}

/** Fixed-width integers of the Go source, with explicit wrap-around. */
module Ints {
  const TWO_31: int := 0x8000_0000
  const TWO_32: int := 0x1_0000_0000
  const TWO_63: int := 0x8000_0000_0000_0000
  const TWO_64: int := 0x1_0000_0000_0000_0000

  const MAX_INT32: int := TWO_31 - 1
  const MIN_INT32: int := -TWO_31
  const MAX_UINT32: int := TWO_32 - 1
  const MAX_INT64: int := TWO_63 - 1

  type byte = bv8

  predicate IsInt32(x: int) { MIN_INT32 <= x <= MAX_INT32 }
  predicate IsUint32(x: int) { 0 <= x <= MAX_UINT32 }
  predicate IsInt64(x: int) { -TWO_63 <= x <= MAX_INT64 }
  predicate IsUint64(x: int) { 0 <= x < TWO_64 }

  /** Go's `int32(x)` conversion: the low 32 bits read as two's complement. */
  function WrapInt32(x: int): (r: int)
    ensures IsInt32(r)
    ensures (r - x) % TWO_32 == 0
    ensures IsInt32(x) ==> r == x
  {
    var m := x % TWO_32;
    if m <= MAX_INT32 then m else m - TWO_32
  }

  /** Go's `uint64(x)` conversion. */
  function WrapUint64(x: int): (r: int)
    ensures IsUint64(r)
    ensures (r - x) % TWO_64 == 0
    ensures IsUint64(x) ==> r == x
  {
    x % TWO_64
  }

  /** Go's `int64(x)` conversion. */
  function WrapInt64(x: int): (r: int)
    ensures IsInt64(r)
    ensures IsInt64(x) ==> r == x
  {
    var m := x % TWO_64;
    if m <= MAX_INT64 then m else m - TWO_64
  }

  function Abs(x: int): nat { if x < 0 then -x else x }

  /** Go's integer division, which truncates toward zero. */
  function GoDiv(a: int, b: int): (q: int)
    requires b != 0
    ensures a >= 0 && b > 0 ==> q == a / b
  {
    var m := Abs(a) / Abs(b);
    if (a < 0) != (b < 0) then -m else m
  }

  function Min(a: int, b: int): int { if a < b then a else b }
  function Max(a: int, b: int): int { if a < b then b else a }

  lemma {:induction false} MulAtLeast(d: int, n: int)
    requires d >= 1 && n > 0
    ensures d * n >= n
  {
    if d > 1 {
      MulAtLeast(d - 1, n);
      assert d * n == (d - 1) * n + n;
    }
  }

  /** Euclidean division is unique. */
  lemma DivModUnique(x: int, n: int, q: int, r: int)
    requires n > 0 && 0 <= r < n && x == q * n + r
    ensures x / n == q && x % n == r
  {
    var q0, r0 := x / n, x % n;
    assert x == q0 * n + r0;
    if q > q0 {
      MulAtLeast(q - q0, n);
      assert false;
    } else if q < q0 {
      MulAtLeast(q0 - q, n);
      assert false;
    }
  }

  lemma ModOfShift(x: int, k: int, n: int)
    requires n > 0
    ensures (x + n * k) % n == x % n
  {
    assert x == (x / n) * n + x % n;
    assert x + n * k == (x / n + k) * n + x % n;
    DivModUnique(x + n * k, n, x / n + k, x % n);
  }
}
