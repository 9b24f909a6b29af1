/** Shared vocabulary of the full-update generator model: bytes, the C integer
    ranges the driver's counters live in, and the Option/Result wrappers that
    carry the error paths. */
module Types {

  newtype byte = x: int | 0 <= x < 0x100

  datatype Option<+T> = None | Some(value: T)

  datatype Result<+T, +E> = Success(value: T) | Failure(error: E)

  /** Largest value of the 64-bit signed `off_t`. */
  const OffTMax: int := 0x7FFF_FFFF_FFFF_FFFF

  /** 2^64: one past the largest `uint64_t`. */
  const Uint64Limit: int := 0x1_0000_0000_0000_0000

  predicate IsUint64(x: int) {
    0 <= x < Uint64Limit
  }

  /** The implicit conversion of a `uint64_t` into an `off_t`: the bit pattern
      is kept, so values above OffTMax come out negative. */
  function AsOffT(u: int): (r: int)
    requires IsUint64(u)
    ensures -Uint64Limit / 2 <= r <= OffTMax
    ensures (u - r) % Uint64Limit == 0
    ensures r >= 0 <==> u <= OffTMax
  {
    if u <= OffTMax then u else u - Uint64Limit
  }

  function Min(a: int, b: int): (m: int)
    ensures m <= a && m <= b
    ensures m == a || m == b
  {
    if a <= b then a else b
  }

  function Max(a: int, b: int): (m: int)
    ensures a <= m && b <= m
    ensures m == a || m == b
  {
    if a <= b then b else a
  }

  /** (i + 1) * c == i * c + c, spelled out once for the solver. */
  lemma MulSucc(i: int, c: int)
    ensures (i + 1) * c == i * c + c
  {
  }

  /** Multiplying by a non-negative factor keeps the order of the multiplicands. */
  lemma {:induction false} MulMonotone(a: int, b: int, c: nat)
    requires a <= b
    ensures a * c <= b * c
    decreases b - a
  {
    if a < b {
      MulMonotone(a + 1, b, c);
      MulSucc(a, c);
    }
  }

  /** The quotient C's `/` gives for a non-negative dividend and a positive
      divisor (where truncation and flooring agree), by repeated subtraction. */
  function Quotient(x: int, d: int): (q: nat)
    requires x >= 0 && d > 0
    decreases x
  {
    if x < d then 0 else 1 + Quotient(x - d, d)
  }

  /** The quotient times the divisor is the largest multiple of the divisor
      not above the dividend. */
  lemma {:induction false} QuotientBounds(x: int, d: int)
    requires x >= 0 && d > 0
    ensures Quotient(x, d) * d <= x < Quotient(x, d) * d + d
    decreases x
  {
    if x >= d {
      QuotientBounds(x - d, d);
      MulSucc(Quotient(x - d, d), d);
    }
  }

  /** The quotient is the only q whose multiple q * d brackets the dividend. */
  lemma QuotientUnique(x: int, d: int, q: int)
    requires x >= 0 && d > 0
    requires q * d <= x < q * d + d
    ensures Quotient(x, d) == q
  {
    var k := Quotient(x, d);
    QuotientBounds(x, d);
    if k < q {
      MulMonotone(k + 1, q, d);
      MulSucc(k, d);
    } else if k > q {
      MulMonotone(q + 1, k, d);
      MulSucc(q, d);
    }
  }

  /** Quotient agrees with Dafny's Euclidean division on these operands. */
  lemma QuotientIsDiv(x: int, d: int)
    requires x >= 0 && d > 0
    ensures Quotient(x, d) == x / d
  {
    assert (x / d) * d + x % d == x;
    QuotientUnique(x, d, x / d);
  }

  /** Applies step to the items in order, numbering them from n and
      threading the state; the first failure ends the fold. */
  function Fold<S, C, E>(step: (S, C, nat) -> Result<S, E>, cs: seq<C>, s: S, n: nat): (r: Result<S, E>)
    decreases |cs|
  {
    if |cs| == 0 then Success(s)
    else
      match step(s, cs[0], n)
      case Failure(e) => Failure(e)
      case Success(next) => Fold(step, cs[1..], next, n + 1)
  }

  /** Folding a + b after a failed fold over a fails the same way. */
  lemma {:induction false} FoldAppendFailure<S, C, E>(step: (S, C, nat) -> Result<S, E>, a: seq<C>, b: seq<C>, s: S, n: nat)
    requires Fold(step, a, s, n).Failure?
    ensures Fold(step, a + b, s, n) == Fold(step, a, s, n)
    decreases |a|
  {
    assert (a + b)[0] == a[0];
    var r := step(s, a[0], n);
    if r.Success? {
      assert (a + b)[1..] == a[1..] + b;
      FoldAppendFailure(step, a[1..], b, r.value, n + 1);
    }
  }

  /** Folding a + b after a successful fold over a goes on with b from where
      a stopped, numbering b after a. */
  lemma {:induction false} FoldAppendSuccess<S, C, E>(step: (S, C, nat) -> Result<S, E>, a: seq<C>, b: seq<C>, s: S, n: nat)
    requires Fold(step, a, s, n).Success?
    ensures Fold(step, a + b, s, n) == Fold(step, b, Fold(step, a, s, n).value, n + |a|)
    decreases |a|
  {
    if |a| == 0 {
      assert a + b == b;
    } else {
      assert (a + b)[0] == a[0];
      assert (a + b)[1..] == a[1..] + b;
      FoldAppendSuccess(step, a[1..], b, step(s, a[0], n).value, n + 1);
    }
  }
}
